/** Cell-level text handling shared by the two weather loaders:
    tokenising a line on a delimiter and normalising a cell. */
module CsvFields {

  // ---------------------------------------------------------------------
  // The first field of a line
  // ---------------------------------------------------------------------

  /** Where the field starting at the front of `s` ends: the index of the
      first `d`, or `|s|` when `s` holds no `d`. */
  function FieldEnd(s: string, d: char): (k: nat)
    ensures k <= |s|
    ensures k < |s| ==> s[k] == d
  {
    if s == [] || s[0] == d then 0 else 1 + FieldEnd(s[1..], d)
  }

  /** No delimiter comes before the end of the field. */
  lemma {:induction false} FieldEndFirst(s: string, d: char)
    ensures forall j :: 0 <= j < FieldEnd(s, d) ==> s[j] != d
    decreases |s|
  {
    if s != [] && s[0] != d {
      FieldEndFirst(s[1..], d);
      assert forall j :: 1 <= j < FieldEnd(s, d) ==> s[j] == s[1..][j - 1];
    }
  }

  /** The index of the first delimiter, or the length when there is none, is
      where the field ends. */
  lemma {:induction false} FieldEndUnique(s: string, d: char, k: nat)
    requires k <= |s|
    requires forall j :: 0 <= j < k ==> s[j] != d
    requires k < |s| ==> s[k] == d
    ensures FieldEnd(s, d) == k
    decreases k
  {
    if k > 0 {
      var t := s[1..];
      assert forall j :: 0 <= j < k - 1 ==> t[j] == s[j + 1];
      FieldEndUnique(t, d, k - 1);
    }
  }

  /** The text before the first delimiter of `s`. */
  function Field(s: string, d: char): string
  {
    s[..FieldEnd(s, d)]
  }

  /** The text after the first delimiter of `s`. */
  function After(s: string, d: char): (r: string)
    requires FieldEnd(s, d) < |s|
    ensures |r| < |s|
  {
    s[FieldEnd(s, d) + 1..]
  }

  /** A line with a delimiter is its first field, that delimiter, and the
      text after it. */
  lemma FieldAfter(s: string, d: char)
    requires FieldEnd(s, d) < |s|
    ensures s == Field(s, d) + [d] + After(s, d)
  {
  }

  /** A field with no delimiter in it is the whole line. */
  lemma FieldWhole(s: string, d: char)
    requires d !in s
    ensures FieldEnd(s, d) == |s| && Field(s, d) == s
  {
    FieldEndUnique(s, d, |s|);
  }

  /** Putting `b` after `a` and a delimiter leaves the first field of `a` in
      place; after it comes `b`, or the rest of `a` followed by `b`. */
  lemma FieldsOfAppend(a: string, b: string, d: char)
    ensures FieldEnd(a + [d] + b, d) == FieldEnd(a, d)
    ensures Field(a + [d] + b, d) == Field(a, d)
    ensures FieldEnd(a, d) == |a| ==> After(a + [d] + b, d) == b
    ensures FieldEnd(a, d) < |a| ==> After(a + [d] + b, d) == After(a, d) + [d] + b
  {
    var s := a + [d] + b;
    var k := FieldEnd(a, d);
    FieldEndFirst(a, d);
    assert forall j :: 0 <= j < k ==> s[j] == a[j];
    assert s[k] == d;
    FieldEndUnique(s, d, k);
    assert s[..k] == a[..k];
    if k < |a| {
      assert s[k + 1..] == a[k + 1..] + [d] + b;
    } else {
      assert s[k + 1..] == b;
    }
  }

  // ---------------------------------------------------------------------
  // The two tokenisers
  // ---------------------------------------------------------------------

  /** .NET `String.Split(char)`: every delimiter separates two fields, so
      there is always one more field than delimiters, and a trailing
      delimiter gives a trailing empty field. */
  function SplitAll(s: string, d: char): (fields: seq<string>)
    ensures |fields| >= 1
    decreases |s|
  {
    if FieldEnd(s, d) == |s| then [s] else [Field(s, d)] + SplitAll(After(s, d), d)
  }

  /** The fields `std::getline(stream, item, d)` extracts, one call after
      another, from a stream over `s`: a call fails only when nothing is
      left, so `""` gives no field and a final delimiter no empty field. */
  function GetlineSplit(s: string, d: char): seq<string>
    decreases |s|
  {
    if s == [] then []
    else if FieldEnd(s, d) == |s| then [s]
    else [Field(s, d)] + GetlineSplit(After(s, d), d)
  }

  /** The fields separated by `d`, put back together. */
  function Join(fields: seq<string>, d: char): string
    requires |fields| >= 1
  {
    if |fields| == 1 then fields[0] else fields[0] + [d] + Join(fields[1..], d)
  }

  /** One `std::getline(stream, item, d)` call on a stream over `str`
      positioned at `start`, with characters left: the characters up to the
      next `d` or the end become `item`, which is the first field of what is
      left, and a delimiter found is consumed. */
  method Getline(str: string, start: nat, d: char) returns (item: string, next: nat)
    requires start < |str|
    ensures start < next <= |str|
    ensures GetlineSplit(str[start..], d) == [item] + GetlineSplit(str[next..], d)
  {
    item := "";
    var pos := start;
    while pos < |str| && str[pos] != d
      invariant start <= pos <= |str|
      invariant item == str[start..pos]
      invariant forall j :: start <= j < pos ==> str[j] != d
    {
      item := item + [str[pos]];
      pos := pos + 1;
    }
    next := if pos < |str| then pos + 1 else pos;
    GetlineStep(str, d, start, item, next);
  }

  /** `split` in src/test_performance.cpp: a `while (getline(...))` loop
      pushing each extracted item onto `elems`. */
  method Split(str: string, delimiter: char) returns (elems: seq<string>)
    ensures elems == GetlineSplit(str, delimiter)
  {
    elems := [];
    var pos := 0;
    assert str[pos..] == str;
    while pos < |str|
      invariant 0 <= pos <= |str|
      invariant elems + GetlineSplit(str[pos..], delimiter) == GetlineSplit(str, delimiter)
      decreases |str| - pos
    {
      var item, next := Getline(str, pos, delimiter);
      ghost var later := GetlineSplit(str[next..], delimiter);
      assert elems + ([item] + later) == (elems + [item]) + later;
      elems := elems + [item];
      pos := next;
    }
    assert str[pos..] == [];
    assert elems + [] == elems;
  }

  /** One getline call on what is left of the stream at `start`: it yields
      `item` and leaves the stream at `next`. */
  lemma GetlineStep(str: string, d: char, start: nat, item: string, next: nat)
    requires start < |str| && start + |item| <= |str|
    requires item == str[start..start + |item|]
    requires forall j :: start <= j < start + |item| ==> str[j] != d
    requires start + |item| < |str| ==> str[start + |item|] == d && next == start + |item| + 1
    requires start + |item| == |str| ==> next == |str|
    ensures GetlineSplit(str[start..], d) == [item] + GetlineSplit(str[next..], d)
  {
    var rest := str[start..];
    assert forall j :: 0 <= j < |item| ==> rest[j] == str[start + j];
    FieldEndUnique(rest, d, |item|);
    assert Field(rest, d) == item;
    if |item| < |rest| {
      assert After(rest, d) == str[next..];
    } else {
      assert rest == item;
      assert str[next..] == [];
    }
  }

  // ---------------------------------------------------------------------
  // Properties
  // ---------------------------------------------------------------------

  /** No `String.Split` field contains the delimiter. */
  lemma {:induction false} SplitAllFieldsFree(s: string, d: char)
    ensures forall i :: 0 <= i < |SplitAll(s, d)| ==> d !in SplitAll(s, d)[i]
    decreases |s|
  {
    FieldEndFirst(s, d);
    assert d !in Field(s, d);
    if FieldEnd(s, d) < |s| {
      SplitAllFieldsFree(After(s, d), d);
    } else {
      assert Field(s, d) == s;
    }
  }

  /** No field of the C++ `split` contains the delimiter. */
  lemma GetlineFieldsFree(s: string, d: char)
    ensures forall i :: 0 <= i < |GetlineSplit(s, d)| ==> d !in GetlineSplit(s, d)[i]
  {
    GetlineIsSplitAllTrimmed(s, d);
    SplitAllFieldsFree(s, d);
  }

  /** A tokenised line with a delimiter in front of a further line splits
      into the fields of both. */
  lemma {:induction false} SplitAllAppend(a: string, b: string, d: char)
    ensures SplitAll(a + [d] + b, d) == SplitAll(a, d) + SplitAll(b, d)
    decreases |a|
  {
    FieldsOfAppend(a, b, d);
    if FieldEnd(a, d) == |a| {
      assert Field(a, d) == a;
    } else {
      var rest := After(a, d);
      SplitAllAppend(rest, b, d);
      assert [Field(a, d)] + (SplitAll(rest, d) + SplitAll(b, d))
          == ([Field(a, d)] + SplitAll(rest, d)) + SplitAll(b, d);
    }
  }

  /** Joining the fields of `String.Split` gives back the line. */
  lemma {:induction false} JoinSplitAll(s: string, d: char)
    ensures Join(SplitAll(s, d), d) == s
    decreases |s|
  {
    if FieldEnd(s, d) < |s| {
      var rest := SplitAll(After(s, d), d);
      JoinSplitAll(After(s, d), d);
      assert ([Field(s, d)] + rest)[1..] == rest;
      FieldAfter(s, d);
    } else {
      assert Field(s, d) == s;
    }
  }

  /** Splitting joined fields that hold no delimiter gives back the fields. */
  lemma {:induction false} SplitAllJoin(fields: seq<string>, d: char)
    requires |fields| >= 1
    requires forall i :: 0 <= i < |fields| ==> d !in fields[i]
    ensures SplitAll(Join(fields, d), d) == fields
    decreases |fields|
  {
    var first := fields[0];
    FieldWhole(first, d);
    if |fields| > 1 {
      var rest := fields[1..];
      assert forall i :: 0 <= i < |rest| ==> rest[i] == fields[i + 1];
      SplitAllJoin(rest, d);
      SplitAllAppend(first, Join(rest, d), d);
      assert [first] + rest == fields;
    } else {
      assert fields == [first];
    }
  }

  /** `fields` without its last field when that one is empty. */
  function DropTrailingEmpty(fields: seq<string>): seq<string>
    requires |fields| >= 1
  {
    if fields[|fields| - 1] == "" then fields[..|fields| - 1] else fields
  }

  /** The getline fields are the `String.Split` fields less a trailing
      empty one: the two tokenisers differ only at the end of the line. */
  lemma {:induction false} GetlineIsSplitAllTrimmed(s: string, d: char)
    ensures GetlineSplit(s, d) == DropTrailingEmpty(SplitAll(s, d))
    decreases |s|
  {
    if s != [] {
      if FieldEnd(s, d) < |s| {
        var t := After(s, d);
        GetlineIsSplitAllTrimmed(t, d);
        DropTrailingEmptyCons(Field(s, d), SplitAll(t, d));
      }
    }
  }

  lemma DropTrailingEmptyCons(a: string, tail: seq<string>)
    requires |tail| >= 1
    ensures DropTrailingEmpty([a] + tail) == [a] + DropTrailingEmpty(tail)
  {
    if tail[|tail| - 1] == "" {
      assert ([a] + tail)[..|tail|] == [a] + tail[..|tail| - 1];
    }
  }

  /** Dropping a trailing empty field leaves any fields in front of a
      non-empty list alone. */
  lemma DropTrailingEmptyAppend(front: seq<string>, tail: seq<string>)
    requires |tail| >= 1
    ensures DropTrailingEmpty(front + tail) == front + DropTrailingEmpty(tail)
  {
    if tail[|tail| - 1] == "" {
      assert (front + tail)[..|front| + |tail| - 1] == front + tail[..|tail| - 1];
    }
  }

  /** The last `String.Split` field is empty exactly when the line is empty
      or ends in the delimiter. */
  lemma {:induction false} SplitAllLastEmpty(s: string, d: char)
    ensures var f := SplitAll(s, d); f[|f| - 1] == "" <==> (s == "" || s[|s| - 1] == d)
    decreases |s|
  {
    if FieldEnd(s, d) < |s| {
      var t := After(s, d);
      var rest := SplitAll(t, d);
      SplitAllLastEmpty(t, d);
      assert ([Field(s, d)] + rest)[|rest|] == rest[|rest| - 1];
      FieldAfter(s, d);
      if t != "" {
        assert t[|t| - 1] == s[|s| - 1];
      }
    } else {
      FieldEndFirst(s, d);
      if s != "" {
        assert s[|s| - 1] != d;
      }
    }
  }

  /** Joining the fields of `split` gives back any non-empty line that does
      not end in the delimiter. */
  lemma GetlineJoin(s: string, d: char)
    requires s != "" && s[|s| - 1] != d
    ensures |GetlineSplit(s, d)| >= 1
    ensures Join(GetlineSplit(s, d), d) == s
  {
    GetlineIsSplitAllTrimmed(s, d);
    SplitAllLastEmpty(s, d);
    JoinSplitAll(s, d);
  }

  /** `split("")` yields no field at all. */
  lemma GetlineEmpty(d: char)
    ensures GetlineSplit("", d) == []
  {
  }

  /** A trailing delimiter adds no trailing empty field: the getline fields
      of `s + d` are the `String.Split` fields of `s`. */
  lemma GetlineTrailingDelimiter(s: string, d: char)
    ensures GetlineSplit(s + [d], d) == SplitAll(s, d)
  {
    SplitAllAppend(s, "", d);
    assert s + [d] + "" == s + [d];
    FieldWhole("", d);
    GetlineIsSplitAllTrimmed(s + [d], d);
    assert (SplitAll(s, d) + [""])[..|SplitAll(s, d)|] == SplitAll(s, d);
  }

  /** A delimiter-free field, a delimiter, then `t`: getline yields the
      field and goes on with `t`. */
  lemma GetlineFirstField(a: string, t: string, d: char)
    requires d !in a
    ensures GetlineSplit(a + [d] + t, d) == [a] + GetlineSplit(t, d)
  {
    FieldWhole(a, d);
    FieldsOfAppend(a, t, d);
  }

  /** Two consecutive delimiters enclose an empty field, wherever they
      stand in the line. */
  lemma GetlineConsecutiveDelimiters(a: string, b: string, d: char)
    ensures GetlineSplit(a + [d, d] + b, d) == SplitAll(a, d) + [""] + GetlineSplit(b, d)
  {
    SplitAllConsecutive(a, b, d);
    GetlineIsSplitAllTrimmed(a + [d, d] + b, d);
    GetlineIsSplitAllTrimmed(b, d);
    DropTrailingEmptyAppend(SplitAll(a, d) + [""], SplitAll(b, d));
  }

  /** The same for `String.Split`. */
  lemma SplitAllConsecutive(a: string, b: string, d: char)
    ensures SplitAll(a + [d, d] + b, d) == SplitAll(a, d) + [""] + SplitAll(b, d)
  {
    var t := [d] + b;
    assert a + [d, d] + b == a + [d] + t;
    SplitAllAppend(a, t, d);
    assert "" + [d] + b == t;
    SplitAllAppend("", b, d);
    FieldWhole("", d);
  }

  // ---------------------------------------------------------------------
  // Cell normalisation
  // ---------------------------------------------------------------------

  /** `fix` in both loaders: an empty cell or a trace ("T") reads as "0";
      every other cell is kept. */
  function Fix(s: string): (r: string)
    ensures r != "" && r != "T"
    ensures r == s || r == "0"
    ensures s != "" && s != "T" ==> r == s
  {
    if s == "" || s == "T" then "0" else s
  }

  /** Fixing a fixed cell changes nothing. */
  lemma FixIdempotent(s: string)
    ensures Fix(Fix(s)) == Fix(s)
  {
  }
}
