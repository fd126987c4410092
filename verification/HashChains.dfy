/** Chains of lib/hash.c as sequences: what a cursor still has to visit, and what removal does to it. */
module HashChains {

  class Link<K> {
    const key: K
    var next: Link?<K>

    constructor (k: K)
      ensures key == k && next == null
    {
      key, next := k, null;
    }
  }

  type Chain<!K> = seq<Link<K>>

  function Nth<K>(c: Chain<K>, j: nat): Link?<K> {
    if j < |c| then c[j] else null
  }

  function Flat<K>(chains: seq<Chain<K>>): Chain<K> {
    if chains == [] then [] else chains[0] + Flat(chains[1..])
  }

  ghost predicate Distinct<K>(c: Chain<K>) {
    forall i, j :: 0 <= i < j < |c| ==> c[i] != c[j]
  }

  /** s with every occurrence of x left out. */
  function Without<K>(s: Chain<K>, x: Link<K>): Chain<K> {
    if s == [] then []
    else if s[0] == x then Without(s[1..], x)
    else [s[0]] + Without(s[1..], x)
  }

  lemma {:induction false} WithoutAbsent<K>(s: Chain<K>, x: Link<K>)
    requires x !in s
    ensures Without(s, x) == s
  {
    if s != [] { WithoutAbsent(s[1..], x); }
  }

  lemma {:induction false} WithoutConcat<K>(s: Chain<K>, t: Chain<K>, x: Link<K>)
    ensures Without(s + t, x) == Without(s, x) + Without(t, x)
  {
    if s == [] {
      assert s + t == t;
    } else {
      WithoutConcat(s[1..], t, x);
      assert (s + t)[1..] == s[1..] + t;
    }
  }

  /** In a chain without repetition, leaving x out is cutting its one place. */
  lemma {:induction false} WithoutCut<K>(s: Chain<K>, j: nat)
    requires Distinct(s) && j < |s|
    ensures Without(s, s[j]) == s[..j] + s[j + 1..]
    decreases j
  {
    if j == 0 {
      WithoutAbsent(s[1..], s[0]);
    } else {
      WithoutCut(s[1..], j - 1);
      var t := s[1..];
      assert t[j - 1] == s[j] && [s[0]] + (t[..j - 1] + t[j..]) == s[..j] + s[j + 1..];
    }
  }

  /** What the cursor at place pos of chain slot still has to visit. */
  function Rest<K>(chains: seq<Chain<K>>, slot: nat, pos: nat): Chain<K>
    requires slot < |chains| && pos <= |chains[slot]|
  {
    chains[slot][pos..] + Flat(chains[slot + 1..])
  }

  /** x is in the chain at i and in no other. */
  ghost predicate OnlyIn<K>(chains: seq<Chain<K>>, i: nat, x: Link<K>) {
    i < |chains| && x in chains[i] && forall k :: 0 <= k < |chains| && k != i ==> x !in chains[k]
  }

  lemma {:induction false} FlatAbsent<K>(chains: seq<Chain<K>>, x: Link<K>)
    requires forall k :: 0 <= k < |chains| ==> x !in chains[k]
    ensures x !in Flat(chains)
  {
    if chains != [] { FlatAbsent(chains[1..], x); }
  }

  /** Replacing one chain by itself without x leaves x out of the whole. */
  lemma {:induction false} FlatRemove<K>(chains: seq<Chain<K>>, i: nat, x: Link<K>)
    requires OnlyIn(chains, i, x)
    ensures Flat(chains[i := Without(chains[i], x)]) == Without(Flat(chains), x)
  {
    var after := chains[i := Without(chains[i], x)];
    WithoutConcat(chains[0], Flat(chains[1..]), x);
    if i == 0 {
      assert after[1..] == chains[1..];
      FlatAbsent(chains[1..], x);
      WithoutAbsent(Flat(chains[1..]), x);
    } else {
      WithoutAbsent(chains[0], x);
      assert after[1..] == chains[1..][i - 1 := Without(chains[1..][i - 1], x)];
      FlatRemove(chains[1..], i - 1, x);
    }
  }

  /** Removal of any link but the one the cursor is at, with the place of the cursor corrected. */
  lemma RestRemove<K>(chains: seq<Chain<K>>, i: nat, j: nat, slot: nat, pos: nat)
    requires slot < |chains| && pos < |chains[slot]| && i < |chains| && j < |chains[i]|
    requires OnlyIn(chains, i, chains[i][j]) && Distinct(chains[i]) && !(i == slot && j == pos)
    ensures var x, after := chains[i][j], chains[i := Without(chains[i], chains[i][j])];
            var pos' := if i == slot && j < pos then pos - 1 else pos;
            && pos' < |after[slot]| && after[slot][pos'] == chains[slot][pos]
            && Rest(after, slot, pos') == Without(Rest(chains, slot, pos), x)
  {
    var x := chains[i][j];
    var after := chains[i := Without(chains[i], x)];
    WithoutCut(chains[i], j);
    hide Without;
    var tail := chains[slot + 1..];
    WithoutConcat(chains[slot][pos..], Flat(tail), x);
    if i <= slot {
      assert after[slot + 1..] == tail;
      FlatAbsent(tail, x);
      WithoutAbsent(Flat(tail), x);
      if i < slot {
        WithoutAbsent(chains[slot][pos..], x);
      } else if j < pos {
        WithoutAbsent(chains[slot][pos..], x);
        assert after[slot][pos - 1..] == chains[slot][pos..];
      } else {
        var s := chains[slot][pos..];
        assert s[j - pos] == x && Distinct(s);
        WithoutCut(s, j - pos);
        assert after[slot][pos..] == s[..j - pos] + s[j - pos + 1..];
      }
    } else {
      assert after[slot + 1..] == tail[i - slot - 1 := Without(tail[i - slot - 1], x)];
      FlatRemove(tail, i - slot - 1, x);
      WithoutAbsent(chains[slot][pos..], x);
    }
  }

  /** Removal of the link the cursor is at: what is left is what lies behind it. */
  lemma RestRemoveHere<K>(chains: seq<Chain<K>>, slot: nat, pos: nat)
    requires slot < |chains| && pos < |chains[slot]|
    requires OnlyIn(chains, slot, chains[slot][pos]) && Distinct(chains[slot])
    ensures var x := chains[slot][pos];
            var after := chains[slot := Without(chains[slot], x)];
            pos <= |after[slot]| && Rest(after, slot, pos) == Without(Rest(chains, slot, pos), x)
  {
    var x := chains[slot][pos];
    var tail := chains[slot + 1..];
    WithoutCut(chains[slot], pos);
    var s := chains[slot][pos..];
    assert Distinct(s) && s[0] == x;
    WithoutCut(s, 0);
    hide Without;
    WithoutConcat(s, Flat(tail), x);
    FlatAbsent(tail, x);
    WithoutAbsent(Flat(tail), x);
    var after := chains[slot := Without(chains[slot], x)];
    assert after[slot + 1..] == tail;
    assert after[slot][pos..] == s[..0] + s[1..];
  }
}
