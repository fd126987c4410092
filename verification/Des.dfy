/** lib/encrypt.c: the DES rounds in place, and that they undo themselves. */
module Des {
  import opened Powers
  import opened DesTables

  type Bits = seq<bit>

  const KS := 48

  /** The E table maps 48 places to bits of the right half; salting permutes it. */
  type Expansion = seq<half>

  type Schedule = seq<Bits>

  ghost predicate ScheduleOk(keys: Schedule) {
    |keys| == 16 && forall i :: 0 <= i < 16 ==> |keys[i]| == KS
  }

  // ---------------------------------------------------------------- what one round computes

  function Xor(a: bit, b: bit): bit {
    if a == b then 0 else 1
  }

  function XorAll(a: Bits, b: Bits): (r: Bits)
    requires |a| == |b|
    ensures |r| == |a| && forall i :: 0 <= i < |a| ==> r[i] == Xor(a[i], b[i])
  {
    if a == [] then [] else [Xor(a[0], b[0])] + XorAll(a[1..], b[1..])
  }

  /** The value of n bits, the first the most significant, of the expanded half xored with the key. */
  function Index(right: Bits, key: Bits, e: Expansion, from: nat, n: nat): (v: nat)
    requires |right| == 32 && |key| == |e| == KS && from + n <= KS
    ensures n == 6 ==> v < 64
  {
    IndexBound(right, key, e, from, n);
    Value(right, key, e, from, n)
  }

  function Value(right: Bits, key: Bits, e: Expansion, from: nat, n: nat): nat
    requires |right| == 32 && |key| == |e| == KS && from + n <= KS
  {
    if n == 0 then 0 else 2 * Value(right, key, e, from, n - 1) + Xor(right[e[from + n - 1]], key[from + n - 1])
  }

  lemma {:induction false} IndexBound(right: Bits, key: Bits, e: Expansion, from: nat, n: nat)
    requires |right| == 32 && |key| == |e| == KS && from + n <= KS
    ensures Value(right, key, e, from, n) < Pow2(n) && Pow2(6) == 64
  {
    if n > 0 { IndexBound(right, key, e, from, n - 1); }
  }

  /** Four bits, the most significant first. */
  function Nibble(v: nibble): (r: Bits)
    ensures |r| == 4
  {
    [v / 8 % 2, v / 4 % 2, v / 2 % 2, v % 2]
  }

  /** The output of the first n S-boxes. */
  function Boxes(right: Bits, key: Bits, e: Expansion, n: nat): (r: Bits)
    requires |right| == 32 && |key| == |e| == KS && n <= 8
    ensures |r| == 4 * n
  {
    if n == 0 then [] else Boxes(right, key, e, n - 1) + Nibble(S_BOX(n - 1)[Index(right, key, e, 6 * (n - 1), 6)])
  }

  /** perm: pick the bits of e that the table names. */
  function Perm(e: Bits, pc: seq<nat>): (r: Bits)
    requires forall i :: 0 <= i < |pc| ==> pc[i] < |e|
    ensures |r| == |pc| && forall i :: 0 <= i < |pc| ==> r[i] == e[pc[i]]
  {
    if pc == [] then [] else [e[pc[0]]] + Perm(e, pc[1..])
  }

  /** The round function. */
  function F(right: Bits, key: Bits, e: Expansion): (r: Bits)
    requires |right| == 32 && |key| == |e| == KS
    ensures |r| == 32
  {
    Perm(Boxes(right, key, e, 8), PERM())
  }

  lemma XorTwice(a: Bits, b: Bits)
    requires |a| == |b|
    ensures XorAll(XorAll(a, b), b) == a
  {}

  // ---------------------------------------------------------------- the network

  datatype Halves = Halves(l: Bits, r: Bits)

  ghost predicate HalvesOk(h: Halves) {
    |h.l| == |h.r| == 32
  }

  function Flip(h: Halves): Halves {
    Halves(h.r, h.l)
  }

  ghost predicate KeysOk(keys: Schedule) {
    forall i :: 0 <= i < |keys| ==> |keys[i]| == KS
  }

  /** One half-round: l takes in F of r, and the two change roles. */
  ghost function Round(h: Halves, key: Bits, e: Expansion): (r: Halves)
    requires HalvesOk(h) && |key| == |e| == KS
    ensures HalvesOk(r)
  {
    Halves(h.r, XorAll(h.l, F(h.r, key, e)))
  }

  ghost function Rounds(h: Halves, keys: Schedule, e: Expansion): (r: Halves)
    requires HalvesOk(h) && KeysOk(keys) && |e| == KS
    ensures HalvesOk(r)
    decreases |keys|
  {
    if keys == [] then h else Round(Rounds(h, keys[..|keys| - 1], e), keys[|keys| - 1], e)
  }

  function Reverse(keys: Schedule): (r: Schedule)
    ensures |r| == |keys| && forall i :: 0 <= i < |keys| ==> r[i] == keys[|keys| - 1 - i]
  {
    if keys == [] then [] else Reverse(keys[1..]) + [keys[0]]
  }

  lemma {:induction false} ReverseTwice(keys: Schedule)
    ensures Reverse(Reverse(keys)) == keys
  {}

  lemma {:induction false} ReverseLast(keys: Schedule)
    requires keys != []
    ensures Reverse(keys) == [keys[|keys| - 1]] + Reverse(keys[..|keys| - 1])
  {}

  lemma {:induction false} RoundsFirst(h: Halves, key: Bits, keys: Schedule, e: Expansion)
    requires HalvesOk(h) && KeysOk(keys) && |key| == |e| == KS
    ensures Rounds(h, [key] + keys, e) == Rounds(Round(h, key, e), keys, e)
    decreases |keys|
  {
    var all := [key] + keys;
    if keys == [] {
      assert all[..0] == [];
    } else {
      assert all[..|keys|] == [key] + keys[..|keys| - 1];
      RoundsFirst(h, key, keys[..|keys| - 1], e);
    }
  }

  lemma RoundBack(h: Halves, key: Bits, e: Expansion)
    requires HalvesOk(h) && |key| == |e| == KS
    ensures Round(Flip(Round(h, key, e)), key, e) == Flip(h)
  {
    XorTwice(h.l, F(h.r, key, e));
  }

  /** The rounds with the keys in reverse order undo the rounds, with the halves flipped. */
  lemma {:induction false} RoundsBack(h: Halves, keys: Schedule, e: Expansion)
    requires HalvesOk(h) && KeysOk(keys) && |e| == KS
    ensures Rounds(Flip(Rounds(h, keys, e)), Reverse(keys), e) == Flip(h)
    decreases |keys|
  {
    if keys != [] {
      var n := |keys| - 1;
      var rest := keys[..n];
      ReverseLast(keys);
      hide Reverse, Round;
      var mid := Rounds(h, rest, e);
      RoundsFirst(Flip(Round(mid, keys[n], e)), keys[n], Reverse(rest), e);
      RoundBack(mid, keys[n], e);
      RoundsBack(h, rest, e);
    }
  }

  // ---------------------------------------------------------------- a whole block

  function Split(s: Bits): Halves
    requires |s| == 64
  {
    Halves(s[..32], s[32..])
  }

  /** encrypt on a block. */
  ghost function Crypt(block: Bits, keys: Schedule, e: Expansion, decr: bool): (r: Bits)
    requires |block| == 64 && ScheduleOk(keys) && |e| == KS
    ensures |r| == 64
  {
    var h := Rounds(Split(Perm(block, IP())), if decr then Reverse(keys) else keys, e);
    Perm(h.l + h.r, EP())
  }

  /** The place in the other half. */
  function Opposite(i: place): place {
    (i + 32) % 64
  }

  lemma RowColumn(p: int, r: int, c: int)
    requires p == 8 * r + c && 0 <= c < 8
    ensures p / 8 == r && p % 8 == c
  {}

  lemma FinalInitial(i: place)
    ensures 0 <= Initial(i) < 64 && Final(Initial(i)) == Opposite(i)
  {
    var r, c := i / 8, i % 8;
    var k := if r < 4 then r else r - 4;
    var low := if r < 4 then 2 * k + 1 else 2 * k;
    assert i == 8 * r + c && low / 2 == k && low % 2 == (if r < 4 then 1 else 0);
    RowColumn(InitialAt(r, c), 7 - c, low);
    assert FinalAt(7 - c, low) == c + 8 * k + (if r < 4 then 32 else 0);
  }

  lemma InitialFinal(i: place)
    ensures 0 <= Final(i) < 64 && Initial(Opposite(Final(i))) == i
  {
    var r, c := i / 8, i % 8;
    var a, b := c / 2, c % 2;
    assert i == 8 * r + c && c == 2 * a + b && FinalAt(r, c) == 8 * (4 * b + a) + (7 - r);
    OppositeAt(4 * b + a, 7 - r);
    RowColumn(Opposite(FinalAt(r, c)), 4 * (1 - b) + a, 7 - r);
    assert InitialAt(4 * (1 - b) + a, 7 - r) == 8 * r + 2 * a + b;
  }

  lemma OppositeAt(r: int, c: int)
    requires 0 <= r < 8 && 0 <= c < 8
    ensures Opposite(8 * r + c) == 8 * (if r < 4 then r + 4 else r - 4) + c
  {}

  /** The initial permutation after the final one swaps the halves. */
  lemma HalfSwap(i: place)
    ensures EP()[IP()[i]] == Opposite(i) && IP()[Opposite(EP()[i])] == i
  {
    hide IPAt, EPAt, Initial, Final, Opposite;
    FinalInitial(i);
    InitialFinal(i);
    IpTable(i);
    EpTable(i);
    EpTable(IPAt(i));
    IpTable(Opposite(EPAt(i)));
  }

  /** Starting on a finished block finds the halves flipped. */
  lemma StartFinished(h: Halves)
    requires HalvesOk(h)
    ensures Split(Perm(Perm(h.l + h.r, EP()), IP())) == Flip(h)
  {
    hide IPAt, EPAt, Opposite;
    var s := h.l + h.r;
    var t := Perm(Perm(s, EP()), IP());
    forall i: place | true ensures t[i] == (h.r + h.l)[i] {
      HalfSwap(i);
      OtherHalf(s, i);
      assert s[32..] + s[..32] == h.r + h.l;
    }
    assert t == h.r + h.l;
    assert (h.r + h.l)[..32] == h.r && (h.r + h.l)[32..] == h.l;
  }

  /** Finishing flipped starting halves gives the block back. */
  lemma FinishFlipped(block: Bits)
    requires |block| == 64
    ensures var h := Split(Perm(block, IP())); Perm(h.r + h.l, EP()) == block
  {
    hide IPAt, EPAt;
    var t := Perm(block, IP());
    var h := Split(t);
    var out := Perm(h.r + h.l, EP());
    forall i: place | true ensures out[i] == block[i] {
      HalfSwap(i);
      OtherHalf(t, EP()[i]);
    }
  }

  lemma OtherHalf(t: Bits, p: place)
    requires |t| == 64
    ensures (t[32..] + t[..32])[p] == t[Opposite(p)]
  {}

  /** encrypt with decr undoes encrypt without, and the other way round, for every key schedule. */
  lemma CryptUndoes(block: Bits, keys: Schedule, e: Expansion, decr: bool)
    requires |block| == 64 && ScheduleOk(keys) && |e| == KS
    ensures Crypt(Crypt(block, keys, e, decr), keys, e, !decr) == block
  {
    hide Rounds, Reverse, Perm;
    ReverseTwice(keys);
    var ks := if decr then Reverse(keys) else keys;
    var start := Split(Perm(block, IP()));
    var h := Rounds(start, ks, e);
    StartFinished(h);
    RoundsBack(start, ks, e);
    FinishFlipped(block);
  }

  // ---------------------------------------------------------------- the code

  ghost predicate Sides(l: nat, r: nat) {
    (l == 0 && r == 32) || (l == 32 && r == 0)
  }

  /** The six bits that go into S-box i. */
  method BoxIndex(tmp: array<bit>, r: nat, key: Bits, e: Expansion, i: nat) returns (sbval: nat)
    requires tmp.Length == 64 && r + 32 <= 64 && |key| == |e| == KS && i < 8
    ensures sbval == Index(tmp[r..r + 32], key, e, 6 * i, 6) < 64
  {
    ghost var right := tmp[r..r + 32];
    sbval := 0;
    var j := 0;
    while j < 6
      invariant 0 <= j <= 6 && sbval == Value(right, key, e, 6 * i, j)
    {
      var place := e[6 * i + j];
      assert right[place] == tmp[r + place];
      sbval := 2 * sbval + Xor(tmp[r + place], key[6 * i + j]);
      j := j + 1;
    }
    IndexBound(right, key, e, 6 * i, 6);
  }

  /** The four bits of a nibble, written from the last one backwards. */
  method PutNibble(out: array<bit>, tp: nat, v: nibble)
    requires tp + 4 <= out.Length
    modifies out
    ensures out[tp..tp + 4] == Nibble(v)
    ensures forall i :: 0 <= i < out.Length && !(tp <= i < tp + 4) ==> out[i] == old(out[i])
  {
    out[tp + 3] := v % 2;
    out[tp + 2] := v / 2 % 2;
    out[tp + 1] := v / 2 / 2 % 2;
    out[tp] := v / 2 / 2 / 2 % 2;
  }

  /** crypt_main on the halves at l and r of tmp. */
  method CryptMain(tmp: array<bit>, l: nat, r: nat, key: Bits, e: Expansion)
    requires tmp.Length == 64 && Sides(l, r) && |key| == |e| == KS
    modifies tmp
    ensures tmp[r..r + 32] == old(tmp[r..r + 32])
    ensures tmp[l..l + 32] == XorAll(old(tmp[l..l + 32]), F(old(tmp[r..r + 32]), key, e))
  {
    hide Value, Index, Boxes, XorAll, Perm, Nibble;
    ghost var right, left := tmp[r..r + 32], tmp[l..l + 32];
    var out := new bit[32](_ => 0);
    NoBoxes(right, key, e);
    var i := 0;
    while i < 8
      invariant 0 <= i <= 8 && out[..4 * i] == Boxes(right, key, e, i)
      invariant tmp[..] == old(tmp[..])
    {
      var sbval := BoxIndex(tmp, r, key, e, i);
      ghost var before := out[..4 * i];
      PutNibble(out, 4 * i, S_BOX(i)[sbval]);
      BoxStep(right, key, e, i);
      assert out[..4 * i + 4] == out[..4 * i] + out[4 * i..4 * i + 4];
      assert out[..4 * i] == before;
      i := i + 1;
    }
    assert out[..] == out[..32];
    XorInto(tmp, l, r, out);
  }

  lemma NoBoxes(right: Bits, key: Bits, e: Expansion)
    requires |right| == 32 && |key| == |e| == KS
    ensures Boxes(right, key, e, 0) == []
  {}

  lemma BoxStep(right: Bits, key: Bits, e: Expansion, i: nat)
    requires |right| == 32 && |key| == |e| == KS && i < 8
    ensures Boxes(right, key, e, i + 1) == Boxes(right, key, e, i) + Nibble(S_BOX(i)[Index(right, key, e, 6 * i, 6)])
  {}

  /** The loop that xors the permuted S-box output into the left half. */
  method XorInto(tmp: array<bit>, l: nat, r: nat, out: array<bit>)
    requires tmp.Length == 64 && out.Length == 32 && out != tmp && Sides(l, r)
    modifies tmp
    ensures tmp[r..r + 32] == old(tmp[r..r + 32])
    ensures tmp[l..l + 32] == XorAll(old(tmp[l..l + 32]), Perm(out[..], PERM()))
  {
    hide XorAll, Perm, PERMAt;
    var i := 0;
    while i < 32
      invariant 0 <= i <= 32
      invariant forall j :: 0 <= j < 64 && !(l <= j < l + i) ==> tmp[j] == old(tmp[j])
      invariant forall j :: 0 <= j < i ==> tmp[l + j] == Xor(old(tmp[l + j]), out[PERM()[j]])
    {
      tmp[l + i] := Xor(tmp[l + i], out[PERM()[i]]);
      i := i + 1;
    }
    ghost var want := XorAll(old(tmp[l..l + 32]), Perm(out[..], PERM()));
    forall j | 0 <= j < 32 ensures tmp[l..l + 32][j] == want[j] {
      assert tmp[l + j] == Xor(old(tmp[l + j]), out[PERM()[j]]);
    }
  }

  /** perm: a[i] = e[pc[i]]. */
  method PermInto(a: array<bit>, e: array<bit>, pc: seq<nat>)
    requires a != e && |pc| == a.Length && forall i :: 0 <= i < |pc| ==> pc[i] < e.Length
    modifies a
    ensures a[..] == Perm(e[..], pc)
  {
    var i := 0;
    while i < |pc|
      invariant 0 <= i <= |pc| && forall j :: 0 <= j < i ==> a[j] == e[pc[j]]
    {
      a[i] := e[pc[i]];
      i := i + 1;
    }
  }

  /** Two half-rounds with the keys used in turn. */
  lemma TwoRounds(h: Halves, keys: Schedule, e: Expansion, n: nat)
    requires HalvesOk(h) && KeysOk(keys) && |e| == KS && n + 2 <= |keys|
    ensures Rounds(h, keys[..n + 2], e) == Round(Round(Rounds(h, keys[..n], e), keys[n], e), keys[n + 1], e)
  {
    assert keys[..n + 2][..n + 1] == keys[..n + 1] && keys[..n + 1][..n] == keys[..n];
  }

  lemma Whole(s: Bits)
    requires |s| == 64
    ensures HalvesOk(Split(s)) && Split(s).l + Split(s).r == s
  {}

  /** crypt_main(tmp, tmp + BS2): the halves have changed roles afterwards. */
  method LeftRound(tmp: array<bit>, key: Bits, e: Expansion)
    requires tmp.Length == 64 && |key| == |e| == KS
    modifies tmp
    ensures HalvesOk(Split(old(tmp[..]))) && Flip(Split(tmp[..])) == Round(Split(old(tmp[..])), key, e)
  {
    hide F, XorAll;
    ghost var was := tmp[..];
    CryptMain(tmp, 0, 32, key, e);
    assert was[..32] == old(tmp[0..32]) && was[32..] == old(tmp[32..64]);
    assert tmp[..][..32] == tmp[0..32] && tmp[..][32..] == tmp[32..64];
  }

  /** crypt_main(tmp + BS2, tmp): the halves change roles back. */
  method RightRound(tmp: array<bit>, key: Bits, e: Expansion)
    requires tmp.Length == 64 && |key| == |e| == KS
    modifies tmp
    ensures HalvesOk(Flip(Split(old(tmp[..])))) && Split(tmp[..]) == Round(Flip(Split(old(tmp[..]))), key, e)
  {
    hide F, XorAll;
    ghost var was := tmp[..];
    CryptMain(tmp, 32, 0, key, e);
    assert was[..32] == old(tmp[0..32]) && was[32..] == old(tmp[32..64]);
    assert tmp[..][..32] == tmp[0..32] && tmp[..][32..] == tmp[32..64];
  }

  /** encrypt, for a key schedule and an E table. */
  method Encrypt(nachr: array<bit>, keys: Schedule, e: Expansion, decr: bool)
    requires nachr.Length == 64 && ScheduleOk(keys) && |e| == KS
    modifies nachr
    ensures nachr[..] == Crypt(old(nachr[..]), keys, e, decr)
  {
    hide Rounds, Round, Split, Perm, IPAt, EPAt;
    var schl := if decr then 15 else 0;
    var tmp := new bit[64](_ => 0);
    PermInto(tmp, nachr, IP());
    ghost var ks := if decr then Reverse(keys) else keys;
    Whole(tmp[..]);
    ghost var start := Split(tmp[..]);
    NoRounds(start, ks, e);
    var i := 0;
    while i < 8
      invariant 0 <= i <= 8 && schl == (if decr then 15 - 2 * i else 2 * i)
      invariant Split(tmp[..]) == Rounds(start, ks[..2 * i], e)
      invariant nachr[..] == old(nachr[..])
    {
      TwoRounds(start, ks, e, 2 * i);
      LeftRound(tmp, keys[schl], e);
      if decr { schl := schl - 1; } else { schl := schl + 1; }
      RightRound(tmp, keys[schl], e);
      if decr { schl := schl - 1; } else { schl := schl + 1; }
      i := i + 1;
    }
    assert ks[..16] == ks;
    Whole(tmp[..]);
    PermInto(nachr, tmp, EP());
  }

  lemma NoRounds(h: Halves, keys: Schedule, e: Expansion)
    requires HalvesOk(h) && KeysOk(keys) && |e| == KS
    ensures Rounds(h, keys[..0], e) == h
  {}
}
