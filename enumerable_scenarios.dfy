/** The behaviour the test programs pin down for `cinq::from`, `where`,
    `count` and `to_vector`, stated for whole families of containers. */
module EnumerableScenarios {
  import opened Enumerables

  /** The caller's container, laid out in traversal order. */
  method NewContainer<T>(c: Container<T>, zero: T) returns (a: array<T>)
    requires c.Valid()
    ensures fresh(a) && a[..] == Traversal(c, zero)
  {
    var t := Traversal(c, zero);
    a := new T[|t|](i requires 0 <= i < |t| => t[i]);
  }

  /** `from(c).where(x > 0).to_vector()` over the vector, the list and the
      eight-slot array of the first tests. */
  method WherePositive(c: Container<int>) returns (result: seq<int>)
    requires c.Valid() && c.items == [1, 4, 6, 3, -6, 0, -3, 2]
    requires c.FixedArray? ==> c.size == 8
    ensures result == [1, 4, 6, 3, 2]
  {
    var a := NewContainer(c, 0);
    var e := From(a);
    var positive := (x: int) => x > 0;
    var w := e.Where(positive);
    result := w.ToVector();
    assert Traversal(c, 0)[..8] == Traversal(c, 0);
    PositiveExample(positive);
  }

  /** The filter of the first tests, worked out half by half. */
  lemma PositiveExample(p: int -> bool)
    requires forall x :: p(x) == (x > 0)
    ensures Filter([1, 4, 6, 3, -6, 0, -3, 2], p) == [1, 4, 6, 3, 2]
  {
    PositiveFront(p);
    PositiveBack(p);
    FilterAppend([1, 4, 6, 3], [-6, 0, -3, 2], p);
    assert [1, 4, 6, 3] + [-6, 0, -3, 2] == [1, 4, 6, 3, -6, 0, -3, 2];
    assert [1, 4, 6, 3] + [2] == [1, 4, 6, 3, 2];
  }

  lemma PositiveFront(p: int -> bool)
    requires forall x :: p(x) == (x > 0)
    ensures Filter([1, 4, 6, 3], p) == [1, 4, 6, 3]
  {
    FilterAllTrue([1, 4, 6, 3], p);
  }

  lemma PositiveBack(p: int -> bool)
    requires forall x :: p(x) == (x > 0)
    ensures Filter([-6, 0, -3, 2], p) == [2]
  {
    FilterSnoc([], -6, p);
    assert [] + [-6] == [-6];
    assert Filter([-6], p) == [];
    FilterSnoc([-6], 0, p);
    assert [-6] + [0] == [-6, 0];
    assert Filter([-6, 0], p) == [];
    FilterSnoc([-6, 0], -3, p);
    assert [-6, 0] + [-3] == [-6, 0, -3];
    assert Filter([-6, 0, -3], p) == [];
    FilterSnoc([-6, 0, -3], 2, p);
    assert [-6, 0, -3] + [2] == [-6, 0, -3, 2];
  }

  /** `from(c).where((x, index) => index <= 2).to_vector()` keeps the first
      three elements, also over an array with more slots than initial
      values: the index counts traversal positions. */
  method WhereFirstThree(c: Container<int>) returns (result: seq<int>)
    requires c.Valid() && c.items == [0, 1, 2, 3, 4]
    requires c.FixedArray? ==> c.size >= 5
    ensures result == [0, 1, 2]
  {
    var a := NewContainer(c, 0);
    var e := From(a);
    var firstThree := (x: int, index: int) => index <= 2;
    var w := e.WhereIndexed(firstThree);
    result := w.ToVector();
    ghost var t := Traversal(c, 0);
    assert result == FilterIndexed(t, firstThree);
    FilterIndexedPrefix(t, firstThree, 3);
    assert t[..5] == [0, 1, 2, 3, 4];
    assert t[..3] == t[..5][..3];
  }

  /** `from(c).count(x <= 2)` over `{0, 1, 2, 3, 4}`: three, except that
      every spare value-initialised slot of an array counts too. */
  method CountAtMostTwo(c: Container<int>) returns (n: nat)
    requires c.Valid() && c.items == [0, 1, 2, 3, 4]
    requires c.FixedArray? ==> c.size >= 5
    ensures n == 3 + (if c.FixedArray? then c.size - 5 else 0)
  {
    var a := NewContainer(c, 0);
    var e := From(a);
    var atMostTwo := (x: int) => x <= 2;
    n := e.Count(atMostTwo);
    var t := Traversal(c, 0);
    var spare := |t| - 5;
    assert t == c.items + seq(spare, _ => 0);
    CountAppend(c.items, seq(spare, _ => 0), atMostTwo);
    CountRun(0, spare, atMostTwo);
    AtMostTwoExample(atMostTwo);
  }

  /** The count of the count tests, worked out element by element. */
  lemma AtMostTwoExample(p: int -> bool)
    requires forall x :: p(x) == (x <= 2)
    ensures CountWhere([0, 1, 2, 3, 4], p) == 3
  {
    var s: seq<int> := [0, 1, 2, 3, 4];
    assert s[..1][..0] == [];
    assert CountWhere(s[..1], p) == 1;
    assert s[..2][..1] == s[..1];
    assert CountWhere(s[..2], p) == 2;
    assert s[..3][..2] == s[..2];
    assert CountWhere(s[..3], p) == 3;
    assert s[..4][..3] == s[..3];
    assert CountWhere(s[..4], p) == 3;
    assert s[..5][..4] == s[..4];
    assert s[..5] == s;
  }

  /** `from(c).where(x => true).to_vector()` reproduces the container in
      traversal order, duplicates included. */
  method WhereAlwaysTrue<T>(c: Container<T>, zero: T) returns (result: seq<T>)
    requires c.Valid()
    ensures result == Traversal(c, zero)
  {
    var a := NewContainer(c, zero);
    var e := From(a);
    var always := (x: T) => true;
    var w := e.Where(always);
    result := w.ToVector();
    FilterAllTrue(a[..], always);
  }
}
