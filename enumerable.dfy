/** The `cinq::enumerable` query view: a borrowed begin/end cursor pair over
    a caller's container, and an owned `data` copy made on demand. */
module Enumerables {

  // ---------------------------------------------------------------------
  // Specification functions over the traversed elements
  // ---------------------------------------------------------------------

  /** The elements of `s` that satisfy `p`, in their original order. */
  function Filter<T>(s: seq<T>, p: T -> bool): (r: seq<T>)
    ensures |r| <= |s|
    ensures forall k :: 0 <= k < |r| ==> p(r[k])
  {
    if s == [] then []
    else
      var n := |s| - 1;
      assert s == s[..n] + [s[n]];
      Filter(s[..n], p) + (if p(s[n]) then [s[n]] else [])
  }

  /** The elements `s[i]` with `q(s[i], i)`, where `i` is the element's
      0-based position in `s`, in their original order. */
  function FilterIndexed<T>(s: seq<T>, q: (T, int) -> bool): (r: seq<T>)
    ensures |r| <= |s|
  {
    if s == [] then []
    else
      var n := |s| - 1;
      assert s == s[..n] + [s[n]];
      FilterIndexed(s[..n], q) + (if q(s[n], n) then [s[n]] else [])
  }

  /** The number of elements of `s` that satisfy `p`. */
  function CountWhere<T>(s: seq<T>, p: T -> bool): (n: nat)
    ensures n <= |s|
  {
    if s == [] then 0
    else CountWhere(s[..|s| - 1], p) + (if p(s[|s| - 1]) then 1 else 0)
  }

  /** The positions `i` of `s` at which `q(s[i], i)` holds, ascending. */
  function Selected<T>(s: seq<T>, q: (T, int) -> bool): (idx: seq<nat>)
    ensures forall k :: 0 <= k < |idx| ==> idx[k] < |s| && q(s[idx[k]], idx[k])
    ensures forall k, l :: 0 <= k < l < |idx| ==> idx[k] < idx[l]
    ensures forall i :: 0 <= i < |s| && q(s[i], i) ==> i in idx
  {
    if s == [] then []
    else
      var n := |s| - 1;
      var front := Selected(s[..n], q);
      assert forall i :: 0 <= i < n ==> s[..n][i] == s[i];
      front + (if q(s[n], n) then [n] else [])
  }

  // ---------------------------------------------------------------------
  // Containers a view can be built over
  // ---------------------------------------------------------------------

  /** The three standard containers the tests build views over. A
      `std::array<T, size>` initialised from fewer than `size` values holds
      value-initialised elements in its remaining slots. */
  datatype Container<T> =
    | Vector(items: seq<T>)
    | List(items: seq<T>)
    | FixedArray(items: seq<T>, size: nat)
  {
    ghost predicate Valid() {
      FixedArray? ==> |items| <= size
    }
  }

  /** The elements a traversal from `cbegin()` to `cend()` visits, where
      `zero` is the element type's value-initialised value. */
  function Traversal<T>(c: Container<T>, zero: T): (r: seq<T>)
    requires c.Valid()
    ensures |r| == if c.FixedArray? then c.size else |c.items|
    ensures r[..|c.items|] == c.items
    ensures forall i :: |c.items| <= i < |r| ==> r[i] == zero
  {
    match c
    case Vector(items) => items
    case List(items) => items
    case FixedArray(items, size) => items + seq(size - |items|, _ => zero)
  }

  // ---------------------------------------------------------------------
  // The view
  // ---------------------------------------------------------------------

  /** A query view over the elements `source[begin..end]` of a caller's
      container, or, once materialised, over its own copy `data`. */
  class Enumerable<T> {
    /** The caller's container, traversed in order; the view never writes it. */
    const source: array<T>
    var begin: nat
    var end: nat
    /** Whether `ensure_data` has copied the cursor range into `data`. */
    var materialised: bool
    var data: seq<T>

    ghost predicate Valid()
      reads this
    {
      && begin <= end <= source.Length
      && (!materialised ==> data == [])
    }

    /** The elements the view currently stands for. */
    ghost function Elements(): seq<T>
      reads this, source
      requires Valid()
    {
      if materialised then data else source[begin..end]
    }

    /** `enumerable(TSource& source)`: borrow the whole container; nothing
        is copied. */
    constructor (src: array<T>)
      ensures Valid() && source == src
      ensures begin == 0 && end == src.Length
      ensures !materialised && data == []
      ensures Elements() == src[..]
    {
      source := src;
      begin := 0;
      end := src.Length;
      materialised := false;
      data := [];
    }

    /** The by-value copy a chained call returns: same cursors, same owned
        data. */
    constructor Copy(other: Enumerable<T>)
      requires other.Valid()
      ensures Valid() && source == other.source
      ensures begin == other.begin && end == other.end
      ensures materialised == other.materialised && data == other.data
      ensures Elements() == other.Elements()
    {
      source := other.source;
      begin := other.begin;
      end := other.end;
      materialised := other.materialised;
      data := other.data;
    }

    /** `ensure_data`: copy the cursor range into `data`, in traversal
        order, the first time only. */
    method EnsureData()
      requires Valid()
      modifies this`data, this`materialised
      ensures Valid() && materialised
      ensures data == old(Elements())
      ensures old(materialised) ==> data == old(data)
      ensures unchanged(source)
    {
      if !materialised {
        var it := begin;
        while it < end
          invariant begin <= it <= end
          invariant data == source[begin..it]
        {
          assert source[begin..it + 1] == source[begin..it] + [source[it]];
          data := data + [source[it]];
          it := it + 1;
        }
        materialised := true;
      }
    }

    /** `where(f)`: keep the elements satisfying `p`, in order, and return
        the view by value so that calls chain. */
    method Where(p: T -> bool) returns (r: Enumerable<T>)
      requires Valid()
      modifies this`data, this`materialised
      ensures Valid() && materialised
      ensures Elements() == Filter(old(Elements()), p)
      ensures fresh(r) && r.Valid() && r.source == source && r.Elements() == Elements()
      ensures unchanged(source)
    {
      EnsureData();
      var kept := [];
      var i := 0;
      while i < |data|
        invariant 0 <= i <= |data|
        invariant kept == Filter(data[..i], p)
      {
        assert data[..i + 1][..i] == data[..i];
        kept := kept + (if p(data[i]) then [data[i]] else []);
        i := i + 1;
      }
      assert data[..i] == data;
      data := kept;
      r := new Enumerable.Copy(this);
    }

    /** `where(f)` with an index-aware predicate: `q` sees each element with
        its 0-based position before filtering. */
    method WhereIndexed(q: (T, int) -> bool) returns (r: Enumerable<T>)
      requires Valid()
      modifies this`data, this`materialised
      ensures Valid() && materialised
      ensures Elements() == FilterIndexed(old(Elements()), q)
      ensures fresh(r) && r.Valid() && r.source == source && r.Elements() == Elements()
      ensures unchanged(source)
    {
      EnsureData();
      var kept := [];
      var i := 0;
      while i < |data|
        invariant 0 <= i <= |data|
        invariant kept == FilterIndexed(data[..i], q)
      {
        assert data[..i + 1][..i] == data[..i];
        kept := kept + (if q(data[i], i) then [data[i]] else []);
        i := i + 1;
      }
      assert data[..i] == data;
      data := kept;
      r := new Enumerable.Copy(this);
    }

    /** `count(f)`: the number of elements satisfying `p`, read through the
        cursors or the owned data, changing nothing. */
    method Count(p: T -> bool) returns (n: nat)
      requires Valid()
      ensures n == CountWhere(Elements(), p)
    {
      var length := if materialised then |data| else end - begin;
      ghost var elements := Elements();
      n := 0;
      var i := 0;
      while i < length
        invariant 0 <= i <= length == |elements|
        invariant n == CountWhere(elements[..i], p)
      {
        var x := if materialised then data[i] else source[begin + i];
        assert elements[..i + 1][..i] == elements[..i] && x == elements[i];
        if p(x) {
          n := n + 1;
        }
        i := i + 1;
      }
      assert elements[..i] == elements;
    }

    /** `to_vector()`: the view's elements as an owned sequence, in order. */
    method ToVector() returns (v: seq<T>)
      requires Valid()
      modifies this`data, this`materialised
      ensures Valid() && materialised
      ensures v == old(Elements()) && Elements() == old(Elements())
      ensures unchanged(source)
    {
      EnsureData();
      v := data;
    }
  }

  /** `cinq::from(source)`: a view over the whole container through its
      read-only cursors, with no element copied. */
  method From<T>(source: array<T>) returns (e: Enumerable<T>)
    ensures fresh(e) && e.Valid() && e.source == source
    ensures !e.materialised && e.data == []
    ensures e.Elements() == source[..]
  {
    e := new Enumerable(source);
  }

  // ---------------------------------------------------------------------
  // Properties of the specification functions
  // ---------------------------------------------------------------------

  /** The index-aware filter keeps exactly the elements at the selected
      positions, in ascending position order. */
  lemma {:induction false} FilterIndexedIsSelection<T>(s: seq<T>, q: (T, int) -> bool)
    ensures |FilterIndexed(s, q)| == |Selected(s, q)|
    ensures forall k :: 0 <= k < |Selected(s, q)| ==> FilterIndexed(s, q)[k] == s[Selected(s, q)[k]]
  {
    if s != [] {
      var n := |s| - 1;
      FilterIndexedIsSelection(s[..n], q);
    }
  }

  /** The plain filter is the index-aware one with a predicate that ignores
      the index. */
  lemma {:induction false} FilterIgnoresIndex<T>(s: seq<T>, p: T -> bool, q: (T, int) -> bool)
    requires forall x, i :: q(x, i) == p(x)
    ensures Filter(s, p) == FilterIndexed(s, q)
  {
    if s != [] {
      FilterIgnoresIndex(s[..|s| - 1], p, q);
    }
  }

  /** `where(p)` keeps exactly the elements satisfying `p`, in their
      original relative order: it picks out the positions satisfying `p`,
      ascending. */
  lemma FilterIsSelection<T>(s: seq<T>, p: T -> bool)
    ensures var idx := Selected(s, (x, i) => p(x));
      && |Filter(s, p)| == |idx|
      && (forall k :: 0 <= k < |idx| ==> Filter(s, p)[k] == s[idx[k]])
      && (forall k, l :: 0 <= k < l < |idx| ==> idx[k] < idx[l])
      && (forall i :: 0 <= i < |s| ==> (p(s[i]) <==> i in idx))
  {
    var q := (x, i) => p(x);
    FilterIgnoresIndex(s, p, q);
    FilterIndexedIsSelection(s, q);
  }

  /** `count(p)` is the length of `where(p)`. */
  lemma {:induction false} CountIsFilterLength<T>(s: seq<T>, p: T -> bool)
    ensures CountWhere(s, p) == |Filter(s, p)|
  {
    if s != [] {
      CountIsFilterLength(s[..|s| - 1], p);
    }
  }

  /** A `where` whose predicate holds on every element returns the whole
      input, in order, duplicates included. */
  lemma {:induction false} FilterAllTrue<T>(s: seq<T>, p: T -> bool)
    requires forall i :: 0 <= i < |s| ==> p(s[i])
    ensures Filter(s, p) == s
  {
    if s != [] {
      FilterAllTrue(s[..|s| - 1], p);
      assert s[..|s| - 1] + [s[|s| - 1]] == s;
    }
  }

  /** Chained `where` calls filter by both predicates. */
  lemma {:induction false} FilterChain<T>(s: seq<T>, p: T -> bool, q: T -> bool, pq: T -> bool)
    requires forall x :: pq(x) == (p(x) && q(x))
    ensures Filter(Filter(s, p), q) == Filter(s, pq)
  {
    if s != [] {
      var n := |s| - 1;
      var last := if p(s[n]) then [s[n]] else [];
      FilterChain(s[..n], p, q, pq);
      FilterAppend(Filter(s[..n], p), last, q);
      if p(s[n]) {
        assert [s[n]][..0] == [];
      }
    }
  }

  /** Filtering a sequence extended by one element. */
  lemma FilterSnoc<T>(s: seq<T>, x: T, p: T -> bool)
    ensures Filter(s + [x], p) == Filter(s, p) + (if p(x) then [x] else [])
  {
    assert (s + [x])[..|s|] == s;
  }

  /** Filtering distributes over concatenation. */
  lemma {:induction false} FilterAppend<T>(a: seq<T>, b: seq<T>, p: T -> bool)
    ensures Filter(a + b, p) == Filter(a, p) + Filter(b, p)
    decreases |b|
  {
    if b != [] {
      var n := |b| - 1;
      assert (a + b)[..|a| + n] == a + b[..n];
      FilterAppend(a, b[..n], p);
    } else {
      assert a + b == a;
    }
  }

  /** An index-aware predicate that holds exactly below position `k` keeps
      the first `k` elements. */
  lemma {:induction false} FilterIndexedPrefix<T>(s: seq<T>, q: (T, int) -> bool, k: nat)
    requires forall x, i :: q(x, i) == (i < k)
    ensures FilterIndexed(s, q) == s[..if k < |s| then k else |s|]
  {
    if s != [] {
      var n := |s| - 1;
      FilterIndexedPrefix(s[..n], q, k);
      if n < k {
        assert s[..n] + [s[n]] == s;
      }
    }
  }

  /** Counting distributes over concatenation. */
  lemma {:induction false} CountAppend<T>(a: seq<T>, b: seq<T>, p: T -> bool)
    ensures CountWhere(a + b, p) == CountWhere(a, p) + CountWhere(b, p)
    decreases |b|
  {
    if b != [] {
      var n := |b| - 1;
      assert (a + b)[..|a| + n] == a + b[..n];
      CountAppend(a, b[..n], p);
    } else {
      assert a + b == a;
    }
  }

  /** Every element of a run of equal elements that satisfy `p` counts. */
  lemma {:induction false} CountRun<T>(x: T, m: nat, p: T -> bool)
    requires p(x)
    ensures CountWhere(seq(m, _ => x), p) == m
  {
    if m > 0 {
      assert seq(m, _ => x)[..m - 1] == seq(m - 1, _ => x);
      CountRun(x, m - 1, p);
    }
  }

  /** Vectors, lists and arrays holding the same values (an array with no
      spare slots) are traversed identically, so every query over them
      agrees. */
  lemma TraversalIndependentOfKind<T>(items: seq<T>, zero: T)
    ensures Traversal(Vector(items), zero) == items
    ensures Traversal(List(items), zero) == items
    ensures Traversal(FixedArray(items, |items|), zero) == items
  {
    assert Traversal(FixedArray(items, |items|), zero)[..|items|] == items;
  }
}
