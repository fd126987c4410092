/** Total sizes of sets of chunks. */
module ChunkSums {

  lemma NonEmpty(s: set<int>)
    requires s != {}
    ensures exists a :: a in s
  {
    assert (forall a :: a !in s) ==> s == {};
  }

  /** Total size of a set of chunks. */
  ghost function SumSizes(s: set<int>, size: map<int, int>): int
    requires s <= size.Keys
  {
    if s == {} then 0 else
    NonEmpty(s);
    var a :| a in s;
    size[a] + SumSizes(s - {a}, size)
  }

  lemma SumNone(size: map<int, int>)
    ensures SumSizes({}, size) == 0
  {}

  lemma {:induction false} SumAdd(s: set<int>, size: map<int, int>, a: int)
    requires s <= size.Keys && a in s
    ensures SumSizes(s, size) == size[a] + SumSizes(s - {a}, size)
    decreases |s|
  {
    var c :| c in s && SumSizes(s, size) == size[c] + SumSizes(s - {c}, size);
    if c != a {
      SumAdd(s - {c}, size, a);
      SumAdd(s - {a}, size, c);
      assert s - {c} - {a} == s - {a} - {c};
    }
  }

  lemma {:induction false} SumFrame(s: set<int>, size: map<int, int>, size': map<int, int>)
    requires s <= size.Keys && s <= size'.Keys && forall a :: a in s ==> size[a] == size'[a]
    ensures SumSizes(s, size) == SumSizes(s, size')
    decreases |s|
  {
    if s != {} {
      NonEmpty(s);
      var a :| a in s;
      SumAdd(s, size, a);
      SumAdd(s, size', a);
      SumFrame(s - {a}, size, size');
    }
  }

  lemma {:induction false} SumSplit(s: set<int>, t: set<int>, size: map<int, int>)
    requires s !! t && s + t <= size.Keys
    ensures SumSizes(s + t, size) == SumSizes(s, size) + SumSizes(t, size)
    decreases |s|
  {
    if s == {} {
      assert s + t == t;
    } else {
      NonEmpty(s);
      var a :| a in s;
      SumAdd(s, size, a);
      SumAdd(s + t, size, a);
      assert s + t - {a} == (s - {a}) + t;
      SumSplit(s - {a}, t, size);
    }
  }
}
