/**
 The two kinds of linked lists of lib/radix.c, chains of duplicate keys (rn_dupedkey) and annotation lists
 (rn_mklist, rm_mklist): what their loops and link assignments do is what the trie's laws say of sequences.
 */
module RadixLists {
  import opened Options
  import opened RadixTree
  import opened RadixAdd
  import opened RadixDelete

  class Rec<T> {
    const value: T
    var next: Rec?<T>

    constructor (v: T)
      ensures value == v && next == null
    {
      value, next := v, null;
    }
  }

  function Nth<T>(s: seq<Rec<T>>, k: int): Rec?<T> {
    if 0 <= k < |s| then s[k] else null
  }

  /** The records s are linked one to the next from x on. */
  ghost predicate List<T>(x: Rec?<T>, s: seq<Rec<T>>)
    reads s
  {
    && x == Nth(s, 0) && Distinct(s)
    && forall k :: 0 <= k < |s| ==> s[k].next == Nth(s, k + 1)
  }

  ghost predicate Distinct<T>(s: seq<Rec<T>>) {
    forall i, j :: 0 <= i < j < |s| ==> s[i] != s[j]
  }

  function Values<T>(s: seq<Rec<T>>): (r: seq<T>)
    ensures |r| == |s| && forall k :: 0 <= k < |s| ==> r[k] == s[k].value
  {
    if s == [] then [] else [s[0].value] + Values(s[1..])
  }

  lemma {:induction false} ValuesOf<T>(s: seq<Rec<T>>, k: nat, x: Rec<T>)
    requires k <= |s|
    ensures Values(s[..k]) == Values(s)[..k] && Values(s[k..]) == Values(s)[k..]
    ensures Values(s[..k] + [x] + s[k..]) == Values(s)[..k] + [x.value] + Values(s)[k..]
    ensures k < |s| ==> Values(s[..k] + s[k + 1..]) == Values(s)[..k] + Values(s)[k + 1..]
  {
    hide Values;
  }

  // ---------------------------------------------------------------- links

  /** prev is the record before place k; null stands for the head of the list, so that the two make up mp. */
  ghost predicate Before<T>(s: seq<Rec<T>>, k: nat, prev: Rec?<T>) {
    k <= |s| && prev == Nth(s, k - 1)
  }

  /** "for (mp = head; (m = *mp); mp = &m->next)" up to the first record at which the loop stops. */
  method Seek<T>(head: Rec?<T>, stops: T -> bool, ghost s: seq<Rec<T>>) returns (prev: Rec?<T>, m: Rec?<T>, ghost k: nat)
    requires List(head, s)
    ensures Before(s, k, prev) && m == Nth(s, k)
    ensures forall i :: 0 <= i < k ==> !stops(Values(s)[i])
    ensures k < |s| ==> stops(Values(s)[k])
  {
    hide Values, Distinct;
    prev, m, k := null, head, 0;
    while m != null && !stops(m.value)
      invariant Before(s, k, prev) && m == Nth(s, k)
      invariant forall i :: 0 <= i < k ==> !stops(Values(s)[i])
      decreases |s| - k
    {
      prev, m := m, m.next;
      k := k + 1;
    }
  }

  lemma DistinctWith<T>(s: seq<Rec<T>>, k: nat, x: Rec<T>)
    requires Distinct(s) && k <= |s| && x !in s
    ensures Distinct(s[..k] + [x] + s[k..])
  {}

  lemma DistinctWithout<T>(s: seq<Rec<T>>, k: nat)
    requires Distinct(s) && k < |s|
    ensures Distinct(s[..k] + s[k + 1..])
  {}

  /** "tt->next = *mp; *mp = tt" */
  method Hook<T>(head: Rec?<T>, prev: Rec?<T>, x: Rec<T>, ghost s: seq<Rec<T>>, ghost k: nat) returns (head': Rec?<T>)
    requires List(head, s) && Before(s, k, prev) && x !in s
    modifies prev, x
    ensures List(head', s[..k] + [x] + s[k..])
  {
    head' := head;
    if prev == null {
      x.next := head;
      head' := x;
    } else {
      x.next := prev.next;
      prev.next := x;
    }
    DistinctWith(s, k, x);
    ghost var s' := s[..k] + [x] + s[k..];
    forall i | 0 <= i < |s'| ensures s'[i].next == Nth(s', i + 1) {
      if i < k { assert s'[i] == s[i] && (i + 1 < k ==> s[i] != prev); } else if i > k { assert s'[i] == s[i - 1]; }
    }
  }

  /** "*mp = m->next" */
  method Unhook<T>(head: Rec?<T>, prev: Rec?<T>, x: Rec<T>, ghost s: seq<Rec<T>>, ghost k: nat) returns (head': Rec?<T>)
    requires List(head, s) && Before(s, k, prev) && k < |s| && s[k] == x
    modifies prev
    ensures List(head', s[..k] + s[k + 1..])
  {
    head' := head;
    if prev == null { head' := x.next; } else { prev.next := x.next; }
    DistinctWithout(s, k);
    ghost var s' := s[..k] + s[k + 1..];
    forall i | 0 <= i < |s'| ensures s'[i].next == Nth(s', i + 1) {
      if i < k { assert s'[i] == s[i] && (i + 1 < k ==> s[i] != prev); } else { assert s'[i] == s[i + 1] && s[i + 1] != prev; }
    }
  }

  // ---------------------------------------------------------------- chains of duplicate keys

  /** Where the loop over a chain stops for a route of mask m: at an equal mask, or at one that is less specific. */
  predicate StopsAt(m: Mask, n: Mask) {
    n == m || m.Host? || (n.Net? && m.len > n.len)
  }

  lemma {:induction false} ChainAddAt(c: seq<Entry>, e: Entry, k: nat)
    requires k <= |c| && forall i :: 0 <= i < k ==> !StopsAt(e.route.mask, c[i].route.mask)
    requires k < |c| ==> StopsAt(e.route.mask, c[k].route.mask)
    ensures ChainAdd(c, e) == if k < |c| && c[k].route.mask == e.route.mask then None else Some(c[..k] + [e] + c[k..])
  {
    if k > 0 {
      ChainAddAt(c[1..], e, k - 1);
      assert [c[0]] + (c[1..][..k - 1] + [e] + c[1..][k - 1..]) == c[..k] + [e] + c[k..];
    } else {
      assert c[..0] + [e] + c[0..] == [e] + c && [e] + [] == [e];
    }
  }

  /**
   The loop of squid_rn_addroute over a chain, and the links for the new leaf. For a sentinel, whose own
   leaf is always first, head stands for that leaf's rn_dupedkey.
   */
  method AddToChain(head: Rec?<Entry>, x: Rec<Entry>, ghost s: seq<Rec<Entry>>)
    returns (ok: bool, head': Rec?<Entry>, ghost s': seq<Rec<Entry>>)
    requires List(head, s) && x !in s
    modifies s, x
    ensures List(head', s') && if ok then exists k :: 0 <= k <= |s| && s' == s[..k] + [x] + s[k..] else s' == s
    ensures ChainAdd(Values(s), x.value) == if ok then Some(Values(s')) else None
  {
    hide Values, ChainAdd;
    var mask := x.value.route.mask;
    var prev, tt; ghost var k;
    prev, tt, k := Seek(head, (e: Entry) => StopsAt(mask, e.route.mask), s);
    ChainAddAt(Values(s), x.value, k);
    ValuesOf(s, k, x);
    ok, head', s' := false, head, s;
    if tt != null && tt.value.route.mask == mask { return; }
    head' := Hook(head, prev, x, s, k);
    ok, s' := true, s[..k] + [x] + s[k..];
  }

  /** The route leaves the chain; the head may be its own leaf. */
  method RemoveFromChain(head: Rec?<Entry>, x: Rec<Entry>, ghost s: seq<Rec<Entry>>) returns (head': Rec?<Entry>, ghost s': seq<Rec<Entry>>)
    requires List(head, s) && x in s && Apart(Values(s))
    modifies s
    ensures List(head', s') && Values(s') == ChainRemove(Values(s), x.value.route)
  {
    hide Values, ChainRemove;
    var route := x.value.route;
    var prev, m; ghost var k;
    prev, m, k := Seek(head, (e: Entry) => e.route == route, s);
    RemoveAt(Values(s), route, k);
    ValuesOf(s, k, x);
    ghost var j :| 0 <= j < |s| && s[j] == x;
    assert Values(s)[j].route == route;
    head' := Unhook(head, prev, m, s, k);
    s' := s[..k] + s[k + 1..];
  }

  ghost predicate Apart(c: seq<Entry>) {
    forall i, j :: 0 <= i < j < |c| ==> c[i].route != c[j].route
  }

  lemma {:induction false} RemoveAt(c: seq<Entry>, r: Route, k: nat)
    requires k < |c| && (forall i :: 0 <= i < k ==> c[i].route != r) && c[k].route == r
    ensures ChainRemove(c, r) == c[..k] + c[k + 1..]
  {
    if k > 0 { RemoveAt(c[1..], r, k - 1); }
  }

  // ---------------------------------------------------------------- annotation lists

  ghost predicate AllNet(mk: seq<Route>) {
    forall i :: 0 <= i < |mk| ==> mk[i].mask.Net?
  }

  lemma {:induction false} MkInsertAt(mk: seq<Route>, r: Route, k: nat)
    requires k <= |mk| && AllNet(mk) && r.mask.Net? && forall i :: 0 <= i < k ==> mk[i].mask.len > r.mask.len
    requires k < |mk| ==> mk[k].mask.len <= r.mask.len
    ensures MkInsert(mk, r) == if k < |mk| && mk[k].mask.len == r.mask.len then mk else mk[..k] + [r] + mk[k..]
  {
    if k > 0 { MkInsertAt(mk[1..], r, k - 1); }
  }

  /** The loop that enters an annotation by index; one of equal index stays alone. */
  method Annotate(head: Rec?<Route>, x: Rec<Route>, ghost s: seq<Rec<Route>>) returns (head': Rec?<Route>, ghost s': seq<Rec<Route>>)
    requires List(head, s) && x !in s && AllNet(Values(s)) && x.value.mask.Net?
    modifies s, x
    ensures List(head', s') && Values(s') == MkInsert(Values(s), x.value)
  {
    hide Values, MkInsert;
    var b := x.value.mask.len;
    var prev, m; ghost var k;
    prev, m, k := Seek(head, (r: Route) => r.mask.Net? && r.mask.len <= b, s);
    MkInsertAt(Values(s), x.value, k);
    ValuesOf(s, k, x);
    head', s' := head, s;
    if m != null && m.value.mask.Net? && m.value.mask.len == b { return; }
    head' := Hook(head, prev, x, s, k);
    s' := s[..k] + [x] + s[k..];
  }

  lemma {:induction false} MkRemoveAt(mk: seq<Route>, r: Route, k: nat)
    requires k <= |mk| && (forall i :: 0 <= i < k ==> mk[i] != r) && (k < |mk| ==> mk[k] == r)
    ensures MkRemove(mk, r) == if k < |mk| then mk[..k] + mk[k + 1..] else mk
  {
    if k > 0 { MkRemoveAt(mk[1..], r, k - 1); }
  }

  /** The loop that takes an annotation out; found says that it was there. */
  method Deannotate(head: Rec?<Route>, r: Route, ghost s: seq<Rec<Route>>) returns (head': Rec?<Route>, found: bool, ghost s': seq<Rec<Route>>)
    requires List(head, s)
    modifies s
    ensures List(head', s') && Values(s') == MkRemove(Values(s), r) && (found <==> r in Values(s))
  {
    hide Values, MkRemove;
    var prev, m; ghost var k;
    prev, m, k := Seek(head, (q: Route) => q == r, s);
    MkRemoveAt(Values(s), r, k);
    head', found, s' := head, m != null, s;
    if found {
      ValuesOf(s, k, m);
      head' := Unhook(head, prev, m, s, k);
      s' := s[..k] + s[k + 1..];
    }
  }

  lemma {:induction false} SkipAt(mk: seq<Route>, d: int, k: nat)
    requires k <= |mk| && forall i :: 0 <= i < k ==> !(mk[i].mask.Net? && mk[i].mask.len <= d)
    requires k < |mk| ==> mk[k].mask.Net? && mk[k].mask.len <= d
    ensures SkipLonger(mk, d) == k
  {
    if k > 0 { SkipAt(mk[1..], d, k - 1); }
  }

  /** "Skip over masks whose index is > that of new node": the rest of the list goes to the new node. */
  method SplitMasks(head: Rec?<Route>, d: int, ghost s: seq<Rec<Route>>) returns (kept: Rec?<Route>, given: Rec?<Route>)
    requires List(head, s)
    modifies s
    ensures var k := SkipLonger(Values(s), d); k <= |s| && List(kept, s[..k]) && List(given, s[k..])
  {
    hide Values, SkipLonger;
    var prev, m; ghost var k;
    prev, m, k := Seek(head, (r: Route) => r.mask.Net? && r.mask.len <= d, s);
    SkipAt(Values(s), d, k);
    kept, given := Cut(head, prev, m, s, k);
  }

  /** "t->rn_mklist = m; *mp = 0" */
  method Cut<T>(head: Rec?<T>, prev: Rec?<T>, m: Rec?<T>, ghost s: seq<Rec<T>>, ghost k: nat) returns (kept: Rec?<T>, given: Rec?<T>)
    requires List(head, s) && Before(s, k, prev) && m == Nth(s, k)
    modifies prev
    ensures List(kept, s[..k]) && List(given, s[k..])
  {
    kept, given := head, m;
    if prev == null { kept := null; } else { prev.next := null; }
    assert prev !in s[k..];
  }

  lemma {:induction false} ValuesBoth<T>(s: seq<Rec<T>>, t: seq<Rec<T>>)
    ensures Values(s + t) == Values(s) + Values(t)
  {
    hide Values;
  }

  lemma DistinctBoth<T>(s: seq<Rec<T>>, t: seq<Rec<T>>)
    requires Distinct(s) && Distinct(t) && forall i, j :: 0 <= i < |s| && 0 <= j < |t| ==> s[i] != t[j]
    ensures Distinct(s + t)
  {}

  /** Demotion to an internal node: the list t goes behind the list s. */
  method AppendMasks(head: Rec?<Route>, more: Rec?<Route>, ghost s: seq<Rec<Route>>, ghost t: seq<Rec<Route>>) returns (head': Rec?<Route>)
    requires List(head, s) && List(more, t) && forall i, j :: 0 <= i < |s| && 0 <= j < |t| ==> s[i] != t[j]
    modifies s
    ensures List(head', s + t) && Values(s + t) == Values(s) + Values(t)
  {
    var prev, m; ghost var k;
    prev, m, k := Seek(head, (r: Route) => false, s);
    ValuesBoth(s, t);
    hide Values;
    head' := Join(head, more, prev, s, t);
  }

  /** "*mp = t->rn_mklist" */
  method Join<T>(head: Rec?<T>, more: Rec?<T>, prev: Rec?<T>, ghost s: seq<Rec<T>>, ghost t: seq<Rec<T>>) returns (head': Rec?<T>)
    requires List(head, s) && List(more, t) && Before(s, |s|, prev)
    requires forall i, j :: 0 <= i < |s| && 0 <= j < |t| ==> s[i] != t[j]
    modifies prev
    ensures List(head', s + t)
  {
    DistinctBoth(s, t);
    head' := head;
    if prev == null { head' := more; } else { prev.next := more; }
    ghost var all := s + t;
    forall i | 0 <= i < |all| ensures all[i].next == Nth(all, i + 1) {
      if i < |s| { assert all[i] == s[i] && (i + 1 < |s| ==> s[i] != prev); } else { assert all[i] == t[i - |s|] != prev; }
    }
  }
}
