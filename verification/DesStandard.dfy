/** The round function of lib/encrypt.c, bit by bit, against the tables as FIPS 46-3 prints them. */
module DesStandard {
  import opened DesTables
  import opened Des

  // Row r of each S-box, sixteen columns.

  function S1(r: nat): (row: seq<nibble>)
    requires r < 4
    ensures |row| == 16
  {
    match r
    case 0 => [14, 4, 13, 1, 2, 15, 11, 8, 3, 10, 6, 12, 5, 9, 0, 7]
    case 1 => [0, 15, 7, 4, 14, 2, 13, 1, 10, 6, 12, 11, 9, 5, 3, 8]
    case 2 => [4, 1, 14, 8, 13, 6, 2, 11, 15, 12, 9, 7, 3, 10, 5, 0]
    case _ => [15, 12, 8, 2, 4, 9, 1, 7, 5, 11, 3, 14, 10, 0, 6, 13]
  }

  function S2(r: nat): (row: seq<nibble>)
    requires r < 4
    ensures |row| == 16
  {
    match r
    case 0 => [15, 1, 8, 14, 6, 11, 3, 4, 9, 7, 2, 13, 12, 0, 5, 10]
    case 1 => [3, 13, 4, 7, 15, 2, 8, 14, 12, 0, 1, 10, 6, 9, 11, 5]
    case 2 => [0, 14, 7, 11, 10, 4, 13, 1, 5, 8, 12, 6, 9, 3, 2, 15]
    case _ => [13, 8, 10, 1, 3, 15, 4, 2, 11, 6, 7, 12, 0, 5, 14, 9]
  }

  function S3(r: nat): (row: seq<nibble>)
    requires r < 4
    ensures |row| == 16
  {
    match r
    case 0 => [10, 0, 9, 14, 6, 3, 15, 5, 1, 13, 12, 7, 11, 4, 2, 8]
    case 1 => [13, 7, 0, 9, 3, 4, 6, 10, 2, 8, 5, 14, 12, 11, 15, 1]
    case 2 => [13, 6, 4, 9, 8, 15, 3, 0, 11, 1, 2, 12, 5, 10, 14, 7]
    case _ => [1, 10, 13, 0, 6, 9, 8, 7, 4, 15, 14, 3, 11, 5, 2, 12]
  }

  function S4(r: nat): (row: seq<nibble>)
    requires r < 4
    ensures |row| == 16
  {
    match r
    case 0 => [7, 13, 14, 3, 0, 6, 9, 10, 1, 2, 8, 5, 11, 12, 4, 15]
    case 1 => [13, 8, 11, 5, 6, 15, 0, 3, 4, 7, 2, 12, 1, 10, 14, 9]
    case 2 => [10, 6, 9, 0, 12, 11, 7, 13, 15, 1, 3, 14, 5, 2, 8, 4]
    case _ => [3, 15, 0, 6, 10, 1, 13, 8, 9, 4, 5, 11, 12, 7, 2, 14]
  }

  function S5(r: nat): (row: seq<nibble>)
    requires r < 4
    ensures |row| == 16
  {
    match r
    case 0 => [2, 12, 4, 1, 7, 10, 11, 6, 8, 5, 3, 15, 13, 0, 14, 9]
    case 1 => [14, 11, 2, 12, 4, 7, 13, 1, 5, 0, 15, 10, 3, 9, 8, 6]
    case 2 => [4, 2, 1, 11, 10, 13, 7, 8, 15, 9, 12, 5, 6, 3, 0, 14]
    case _ => [11, 8, 12, 7, 1, 14, 2, 13, 6, 15, 0, 9, 10, 4, 5, 3]
  }

  function S6(r: nat): (row: seq<nibble>)
    requires r < 4
    ensures |row| == 16
  {
    match r
    case 0 => [12, 1, 10, 15, 9, 2, 6, 8, 0, 13, 3, 4, 14, 7, 5, 11]
    case 1 => [10, 15, 4, 2, 7, 12, 9, 5, 6, 1, 13, 14, 0, 11, 3, 8]
    case 2 => [9, 14, 15, 5, 2, 8, 12, 3, 7, 0, 4, 10, 1, 13, 11, 6]
    case _ => [4, 3, 2, 12, 9, 5, 15, 10, 11, 14, 1, 7, 6, 0, 8, 13]
  }

  function S7(r: nat): (row: seq<nibble>)
    requires r < 4
    ensures |row| == 16
  {
    match r
    case 0 => [4, 11, 2, 14, 15, 0, 8, 13, 3, 12, 9, 7, 5, 10, 6, 1]
    case 1 => [13, 0, 11, 7, 4, 9, 1, 10, 14, 3, 5, 12, 2, 15, 8, 6]
    case 2 => [1, 4, 11, 13, 12, 3, 7, 14, 10, 15, 6, 8, 0, 5, 9, 2]
    case _ => [6, 11, 13, 8, 1, 4, 10, 7, 9, 5, 0, 15, 14, 2, 3, 12]
  }

  function S8(r: nat): (row: seq<nibble>)
    requires r < 4
    ensures |row| == 16
  {
    match r
    case 0 => [13, 2, 8, 4, 6, 15, 11, 1, 10, 9, 3, 14, 5, 0, 12, 7]
    case 1 => [1, 15, 13, 8, 10, 3, 7, 4, 12, 5, 6, 11, 0, 14, 9, 2]
    case 2 => [7, 11, 4, 1, 9, 12, 14, 2, 0, 6, 10, 13, 15, 3, 5, 8]
    case _ => [2, 1, 14, 7, 4, 10, 8, 13, 15, 12, 9, 0, 3, 5, 6, 11]
  }

  function Row(i: nat, r: nat): (row: seq<nibble>)
    requires i < 8 && r < 4
    ensures |row| == 16
  {
    match i
    case 0 => S1(r) case 1 => S2(r) case 2 => S3(r) case 3 => S4(r)
    case 4 => S5(r) case 5 => S6(r) case 6 => S7(r) case _ => S8(r)
  }

  /** P, eight entries a row: the bits of the S-boxes, counted from 1. */
  function PRow(r: nat): (row: seq<int>)
    requires r < 4
    ensures |row| == 8 && forall c :: 0 <= c < 8 ==> 1 <= row[c] <= 32
  {
    match r
    case 0 => [16, 7, 20, 21, 29, 12, 28, 17]
    case 1 => [1, 15, 23, 26, 5, 18, 31, 10]
    case 2 => [2, 8, 24, 14, 32, 27, 3, 9]
    case _ => [19, 13, 30, 6, 22, 11, 4, 25]
  }

  function P(k: half): (p: int)
    ensures 1 <= p <= 32
  {
    PRow(k / 8)[k % 8]
  }

  // ---------------------------------------------------------------- the tables

  /** Every other entry of a line, from p on. */
  function Odds(line: seq<nibble>, p: nat): (s: seq<nibble>)
    requires |line| == 16 && p < 2
    ensures |s| == 8
  {
    [line[p], line[p + 2], line[p + 4], line[p + 6], line[p + 8], line[p + 10], line[p + 12], line[p + 14]]
  }

  lemma OddsAt(line: seq<nibble>, p: nat, c: nat)
    requires |line| == 16 && p < 2 && c < 8
    ensures Odds(line, p)[c] == line[p + 2 * c]
  {}

  predicate Has(row: seq<nibble>, x: nibble)
    requires |row| == 16
  {
    || row[0] == x || row[1] == x || row[2] == x || row[3] == x || row[4] == x || row[5] == x || row[6] == x || row[7] == x
    || row[8] == x || row[9] == x || row[10] == x || row[11] == x || row[12] == x || row[13] == x || row[14] == x || row[15] == x
  }

  predicate Holds16(row: seq<nibble>)
    requires |row| == 16
  {
    && Has(row, 0) && Has(row, 1) && Has(row, 2) && Has(row, 3) && Has(row, 4) && Has(row, 5) && Has(row, 6) && Has(row, 7)
    && Has(row, 8) && Has(row, 9) && Has(row, 10) && Has(row, 11) && Has(row, 12) && Has(row, 13) && Has(row, 14) && Has(row, 15)
  }

  lemma Lines0(a: nat, b: nat)
    requires a < 2 && b < 2
    ensures Odds(S_BOX0(2 * a), b) + Odds(S_BOX0(2 * a + 1), b) == S1(2 * a + b)
  {
    if a == 0 { assert b == 0 || b == 1; } else { assert b == 0 || b == 1; }
  }

  lemma Holds0(r: nat)
    requires r < 4
    ensures Holds16(S1(r))
  {}

  lemma Lines1(a: nat, b: nat)
    requires a < 2 && b < 2
    ensures Odds(S_BOX1(2 * a), b) + Odds(S_BOX1(2 * a + 1), b) == S2(2 * a + b)
  {
    if a == 0 { assert b == 0 || b == 1; } else { assert b == 0 || b == 1; }
  }

  lemma Holds1(r: nat)
    requires r < 4
    ensures Holds16(S2(r))
  {}

  lemma Lines2(a: nat, b: nat)
    requires a < 2 && b < 2
    ensures Odds(S_BOX2(2 * a), b) + Odds(S_BOX2(2 * a + 1), b) == S3(2 * a + b)
  {
    if a == 0 { assert b == 0 || b == 1; } else { assert b == 0 || b == 1; }
  }

  lemma Holds2(r: nat)
    requires r < 4
    ensures Holds16(S3(r))
  {}

  lemma Lines3(a: nat, b: nat)
    requires a < 2 && b < 2
    ensures Odds(S_BOX3(2 * a), b) + Odds(S_BOX3(2 * a + 1), b) == S4(2 * a + b)
  {
    if a == 0 { assert b == 0 || b == 1; } else { assert b == 0 || b == 1; }
  }

  lemma Holds3(r: nat)
    requires r < 4
    ensures Holds16(S4(r))
  {}

  lemma Lines4(a: nat, b: nat)
    requires a < 2 && b < 2
    ensures Odds(S_BOX4(2 * a), b) + Odds(S_BOX4(2 * a + 1), b) == S5(2 * a + b)
  {
    if a == 0 { assert b == 0 || b == 1; } else { assert b == 0 || b == 1; }
  }

  lemma Holds4(r: nat)
    requires r < 4
    ensures Holds16(S5(r))
  {}

  lemma Lines5(a: nat, b: nat)
    requires a < 2 && b < 2
    ensures Odds(S_BOX5(2 * a), b) + Odds(S_BOX5(2 * a + 1), b) == S6(2 * a + b)
  {
    if a == 0 { assert b == 0 || b == 1; } else { assert b == 0 || b == 1; }
  }

  lemma Holds5(r: nat)
    requires r < 4
    ensures Holds16(S6(r))
  {}

  lemma Lines6(a: nat, b: nat)
    requires a < 2 && b < 2
    ensures Odds(S_BOX6(2 * a), b) + Odds(S_BOX6(2 * a + 1), b) == S7(2 * a + b)
  {
    if a == 0 { assert b == 0 || b == 1; } else { assert b == 0 || b == 1; }
  }

  lemma Holds6(r: nat)
    requires r < 4
    ensures Holds16(S7(r))
  {}

  lemma Lines7(a: nat, b: nat)
    requires a < 2 && b < 2
    ensures Odds(S_BOX7(2 * a), b) + Odds(S_BOX7(2 * a + 1), b) == S8(2 * a + b)
  {
    if a == 0 { assert b == 0 || b == 1; } else { assert b == 0 || b == 1; }
  }

  lemma Holds7(r: nat)
    requires r < 4
    ensures Holds16(S8(r))
  {}

  lemma LinesOf(i: nat, a: nat, b: nat)
    requires i < 8 && a < 2 && b < 2
    ensures Odds(S_BOXLine(i, 2 * a), b) + Odds(S_BOXLine(i, 2 * a + 1), b) == Row(i, 2 * a + b)
  {
    hide S_BOX0, S_BOX1, S_BOX2, S_BOX3, S_BOX4, S_BOX5, S_BOX6, S_BOX7, S1, S2, S3, S4, S5, S6, S7, S8, Odds;
    match i
    case 0 => Lines0(a, b);
    case 1 => Lines1(a, b);
    case 2 => Lines2(a, b);
    case 3 => Lines3(a, b);
    case 4 => Lines4(a, b);
    case 5 => Lines5(a, b);
    case 6 => Lines6(a, b);
    case _ => Lines7(a, b);
  }

  /** The first bit a and the last bit b of an index choose the row, the other four, h and l, the column. */
  lemma BoxIs(i: nat, a: nat, h: nat, l: nat, b: nat)
    requires i < 8 && a < 2 && h < 2 && l < 8 && b < 2
    ensures S_BOX(i)[32 * a + 16 * h + 2 * l + b] == Row(i, 2 * a + b)[8 * h + l]
  {
    LinesOf(i, a, b);
    hide S_BOXLine, Row, Odds, S_BOX;
    OddsAt(S_BOXLine(i, 2 * a + h), b, l);
    BoxAt(i, 2 * a + h, 2 * l + b);
    JoinedAt(Odds(S_BOXLine(i, 2 * a), b), Odds(S_BOXLine(i, 2 * a + 1), b), h, l);
  }

  lemma BoxAt(i: nat, line: nat, at: nat)
    requires i < 8 && line < 4 && at < 16
    ensures S_BOX(i)[16 * line + at] == S_BOXLine(i, line)[at]
  {
    LineOf(line, at);
    hide S_BOXLine;
    var v: place := 16 * line + at;
    assert S_BOX(i)[v] == S_BOXLine(i, v / 16)[v % 16];
  }

  lemma LineOf(line: nat, at: nat)
    requires at < 16
    ensures (16 * line + at) / 16 == line && (16 * line + at) % 16 == at
  {}

  lemma JoinedAt(x: seq<nibble>, y: seq<nibble>, h: nat, l: nat)
    requires |x| == |y| == 8 && h < 2 && l < 8
    ensures (x + y)[8 * h + l] == (if h == 0 then x else y)[l]
  {}

  /** Each row of a box holds every number from 0 to 15. */
  lemma RowsArePermutations(i: nat, r: nat, x: nibble)
    requires i < 8 && r < 4
    ensures x in Row(i, r)
  {
    HoldsOf(i, r);
    hide Row;
    HoldsAll(Row(i, r), x);
    HasIn(Row(i, r), x);
  }

  lemma HoldsOf(i: nat, r: nat)
    requires i < 8 && r < 4
    ensures Holds16(Row(i, r))
  {
    hide S1, S2, S3, S4, S5, S6, S7, S8, Holds16;
    match i
    case 0 => Holds0(r);
    case 1 => Holds1(r);
    case 2 => Holds2(r);
    case 3 => Holds3(r);
    case 4 => Holds4(r);
    case 5 => Holds5(r);
    case 6 => Holds6(r);
    case _ => Holds7(r);
  }

  lemma HoldsAll(row: seq<nibble>, x: nibble)
    requires |row| == 16 && Holds16(row)
    ensures Has(row, x)
  {
    hide Has;
    assert x == 0 || x == 1 || x == 2 || x == 3 || x == 4 || x == 5 || x == 6 || x == 7
      || x == 8 || x == 9 || x == 10 || x == 11 || x == 12 || x == 13 || x == 14 || x == 15;
  }

  lemma HasIn(row: seq<nibble>, x: nibble)
    requires |row| == 16 && Has(row, x)
    ensures x in row
  {}

  lemma PermIs(k: half)
    ensures PERM()[k] as int + 1 == P(k)
  {}

  // ---------------------------------------------------------------- one round

  /** Bit j of the expanded half, xored with the key. */
  function Mixed(right: Bits, key: Bits, e: Expansion, j: nat): (b: nat)
    requires |right| == 32 && |key| == |e| == 48 && j < 48
    ensures b < 2
  {
    (right[e[j]] as int + key[j] as int) % 2
  }

  lemma IndexBits(right: Bits, key: Bits, e: Expansion, o: nat)
    requires |right| == 32 && |key| == |e| == 48 && o + 6 <= 48
    ensures Index(right, key, e, o, 6)
         == 32 * Mixed(right, key, e, o) + 16 * Mixed(right, key, e, o + 1) + 8 * Mixed(right, key, e, o + 2)
          + 4 * Mixed(right, key, e, o + 3) + 2 * Mixed(right, key, e, o + 4) + Mixed(right, key, e, o + 5)
  {
    assert Value(right, key, e, o, 0) == 0;
    assert Value(right, key, e, o, 1) == Mixed(right, key, e, o);
    assert Value(right, key, e, o, 2) == 2 * Value(right, key, e, o, 1) + Mixed(right, key, e, o + 1);
    assert Value(right, key, e, o, 3) == 2 * Value(right, key, e, o, 2) + Mixed(right, key, e, o + 2);
    assert Value(right, key, e, o, 4) == 2 * Value(right, key, e, o, 3) + Mixed(right, key, e, o + 3);
    assert Value(right, key, e, o, 5) == 2 * Value(right, key, e, o, 4) + Mixed(right, key, e, o + 4);
    assert Value(right, key, e, o, 6) == 2 * Value(right, key, e, o, 5) + Mixed(right, key, e, o + 5);
  }

  /** What box i puts out for its six bits. */
  function Output(right: Bits, key: Bits, e: Expansion, i: nat): nibble
    requires |right| == 32 && |key| == |e| == 48 && i < 8
  {
    var o := 6 * i;
    Row(i, 2 * Mixed(right, key, e, o) + Mixed(right, key, e, o + 5))
      [8 * Mixed(right, key, e, o + 1) + 4 * Mixed(right, key, e, o + 2) + 2 * Mixed(right, key, e, o + 3) + Mixed(right, key, e, o + 4)]
  }

  lemma OutputIs(right: Bits, key: Bits, e: Expansion, i: nat)
    requires |right| == 32 && |key| == |e| == 48 && i < 8
    ensures S_BOX(i)[Index(right, key, e, 6 * i, 6)] == Output(right, key, e, i)
  {
    hide Row, S_BOX, Index, Mixed, S_BOXLine;
    var o := 6 * i;
    IndexBits(right, key, e, o);
    BoxIs(i, Mixed(right, key, e, o), Mixed(right, key, e, o + 1),
      4 * Mixed(right, key, e, o + 2) + 2 * Mixed(right, key, e, o + 3) + Mixed(right, key, e, o + 4), Mixed(right, key, e, o + 5));
  }

  /** Bit j of a number of four bits, the first the most significant. */
  function BitOf(v: nibble, j: nat): nat
    requires j < 4
  {
    if j == 0 then v / 8 else if j == 1 then v / 4 % 2 else if j == 2 then v / 2 % 2 else v % 2
  }

  lemma {:induction false} BoxesAt(right: Bits, key: Bits, e: Expansion, n: nat, p: nat)
    requires |right| == 32 && |key| == |e| == 48 && n <= 8 && p < 4 * n
    ensures Boxes(right, key, e, n)[p] == BitOf(Output(right, key, e, p / 4), p % 4)
    decreases n
  {
    hide Output, S_BOX, Index, Nibble, BitOf, Boxes;
    if n > 0 { BoxesStep(right, key, e, n); }
    if p < 4 * (n - 1) {
      BoxesAt(right, key, e, n - 1, p);
    } else {
      OutputIs(right, key, e, n - 1);
      FourOf(n - 1, p - 4 * (n - 1));
      NibbleBits(Output(right, key, e, n - 1), p - 4 * (n - 1));
    }
  }

  lemma BoxesStep(right: Bits, key: Bits, e: Expansion, n: nat)
    requires |right| == 32 && |key| == |e| == 48 && 0 < n <= 8
    ensures Boxes(right, key, e, n) == Boxes(right, key, e, n - 1) + Nibble(S_BOX(n - 1)[Index(right, key, e, 6 * (n - 1), 6)])
  {}

  lemma FourOf(i: nat, j: nat)
    requires j < 4
    ensures (4 * i + j) / 4 == i && (4 * i + j) % 4 == j
  {}

  lemma NibbleBits(v: nibble, j: nat)
    requires j < 4
    ensures Nibble(v)[j] == BitOf(v, j)
  {}

  /** Every bit of the round function, for every half, key and E table. */
  lemma RoundFunction(right: Bits, key: Bits, e: Expansion, k: half)
    requires |right| == 32 && |key| == |e| == 48
    ensures F(right, key, e)[k] == BitOf(Output(right, key, e, (P(k) - 1) / 4), (P(k) - 1) % 4)
  {
    PermIs(k);
    hide Output, Boxes, P;
    BoxesAt(right, key, e, 8, PERM()[k]);
  }

  /** The known answer for a half and a key of zeros is D8D8DBBC. */
  function AnswerRow(r: nat): (row: seq<int>)
    requires r < 4
    ensures |row| == 8
  {
    match r
    case 0 => [1, 1, 0, 1, 1, 0, 0, 0]
    case 1 => [1, 1, 0, 1, 1, 0, 0, 0]
    case 2 => [1, 1, 0, 1, 1, 0, 1, 1]
    case _ => [1, 0, 1, 1, 1, 1, 0, 0]
  }

  lemma ZeroRound(right: Bits, key: Bits, e: Expansion, k: half)
    requires |right| == 32 && |key| == |e| == 48
    requires (forall i :: 0 <= i < 32 ==> right[i] == 0) && forall i :: 0 <= i < 48 ==> key[i] == 0
    ensures F(right, key, e)[k] == AnswerRow(k / 8)[k % 8]
  {
    RoundFunction(right, key, e, k);
    ZeroOutput(right, key, e, (P(k) - 1) / 4);
    hide F, Output, Row;
    AnswerBit(k);
  }

  lemma ZeroOutput(right: Bits, key: Bits, e: Expansion, i: nat)
    requires |right| == 32 && |key| == |e| == 48 && i < 8
    requires (forall j :: 0 <= j < 32 ==> right[j] == 0) && forall j :: 0 <= j < 48 ==> key[j] == 0
    ensures Output(right, key, e, i) == [14, 15, 10, 7, 2, 12, 4, 13][i]
  {
    FirstEntry(i);
    hide Row;
    forall j: nat | j < 48 ensures Mixed(right, key, e, j) == 0 { ZeroMixed(right, key, e, j); }
    hide Mixed;
  }

  lemma ZeroMixed(right: Bits, key: Bits, e: Expansion, j: nat)
    requires |right| == 32 && |key| == |e| == 48 && j < 48 && right[e[j]] == 0 && key[j] == 0
    ensures Mixed(right, key, e, j) == 0
  {}

  lemma FirstEntry(i: nat)
    requires i < 8
    ensures Row(i, 0)[0] == [14, 15, 10, 7, 2, 12, 4, 13][i]
  {}

  lemma AnswerBit(k: half)
    ensures BitOf([14, 15, 10, 7, 2, 12, 4, 13][(P(k) - 1) / 4], (P(k) - 1) % 4) == AnswerRow(k / 8)[k % 8]
  {}
}
