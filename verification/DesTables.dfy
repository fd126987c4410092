/** The tables of lib/encrypt.c (FIPS 46-3), row by row. */
module DesTables {

  type bit = x: int | 0 <= x < 2
  type nibble = x: int | 0 <= x < 16
  type place = x: int | 0 <= x < 64
  type half = x: int | 0 <= x < 32

  /** Row r of IP, eight entries each. */
  function IPRow(r: nat): (row: seq<place>)
    requires r < 8
    ensures |row| == 8
  {
    match r
    case 0 => [57, 49, 41, 33, 25, 17, 9, 1]
    case 1 => [59, 51, 43, 35, 27, 19, 11, 3]
    case 2 => [61, 53, 45, 37, 29, 21, 13, 5]
    case 3 => [63, 55, 47, 39, 31, 23, 15, 7]
    case 4 => [56, 48, 40, 32, 24, 16, 8, 0]
    case 5 => [58, 50, 42, 34, 26, 18, 10, 2]
    case 6 => [60, 52, 44, 36, 28, 20, 12, 4]
    case _ => [62, 54, 46, 38, 30, 22, 14, 6]
  }

  /** Row r of EP, eight entries each. */
  function EPRow(r: nat): (row: seq<place>)
    requires r < 8
    ensures |row| == 8
  {
    match r
    case 0 => [7, 39, 15, 47, 23, 55, 31, 63]
    case 1 => [6, 38, 14, 46, 22, 54, 30, 62]
    case 2 => [5, 37, 13, 45, 21, 53, 29, 61]
    case 3 => [4, 36, 12, 44, 20, 52, 28, 60]
    case 4 => [3, 35, 11, 43, 19, 51, 27, 59]
    case 5 => [2, 34, 10, 42, 18, 50, 26, 58]
    case 6 => [1, 33, 9, 41, 17, 49, 25, 57]
    case _ => [0, 32, 8, 40, 16, 48, 24, 56]
  }

  /** Row r of PERM, eight entries each. */
  function PERMRow(r: nat): (row: seq<half>)
    requires r < 4
    ensures |row| == 8
  {
    match r
    case 0 => [15, 6, 19, 20, 28, 11, 27, 16]
    case 1 => [0, 14, 22, 25, 4, 17, 30, 9]
    case 2 => [1, 7, 23, 13, 31, 26, 2, 8]
    case _ => [18, 12, 29, 5, 21, 10, 3, 24]
  }

  function IPAt(i: place): place { IPRow(i / 8)[i % 8] }
  function EPAt(i: place): place { EPRow(i / 8)[i % 8] }
  function PERMAt(i: half): half { PERMRow(i / 8)[i % 8] }

  /** The tables in one piece. */
  function IP(): (t: seq<place>)
    ensures |t| == 64 && forall i: place :: t[i] == IPAt(i)
  {
    seq(64, i requires 0 <= i < 64 => IPAt(i))
  }

  function EP(): (t: seq<place>)
    ensures |t| == 64 && forall i: place :: t[i] == EPAt(i)
  {
    seq(64, i requires 0 <= i < 64 => EPAt(i))
  }

  function PERM(): (t: seq<half>)
    ensures |t| == 32 && forall i: half :: t[i] == PERMAt(i)
  {
    seq(32, i requires 0 <= i < 32 => PERMAt(i))
  }

  // Line l of each S-box, sixteen entries.

  function S_BOX0(l: nat): (line: seq<nibble>)
    requires l < 4
    ensures |line| == 16
  {
    match l
    case 0 => [14, 0, 4, 15, 13, 7, 1, 4, 2, 14, 15, 2, 11, 13, 8, 1]
    case 1 => [3, 10, 10, 6, 6, 12, 12, 11, 5, 9, 9, 5, 0, 3, 7, 8]
    case 2 => [4, 15, 1, 12, 14, 8, 8, 2, 13, 4, 6, 9, 2, 1, 11, 7]
    case _ => [15, 5, 12, 11, 9, 3, 7, 14, 3, 10, 10, 0, 5, 6, 0, 13]
  }

  function S_BOX1(l: nat): (line: seq<nibble>)
    requires l < 4
    ensures |line| == 16
  {
    match l
    case 0 => [15, 3, 1, 13, 8, 4, 14, 7, 6, 15, 11, 2, 3, 8, 4, 14]
    case 1 => [9, 12, 7, 0, 2, 1, 13, 10, 12, 6, 0, 9, 5, 11, 10, 5]
    case 2 => [0, 13, 14, 8, 7, 10, 11, 1, 10, 3, 4, 15, 13, 4, 1, 2]
    case _ => [5, 11, 8, 6, 12, 7, 6, 12, 9, 0, 3, 5, 2, 14, 15, 9]
  }

  function S_BOX2(l: nat): (line: seq<nibble>)
    requires l < 4
    ensures |line| == 16
  {
    match l
    case 0 => [10, 13, 0, 7, 9, 0, 14, 9, 6, 3, 3, 4, 15, 6, 5, 10]
    case 1 => [1, 2, 13, 8, 12, 5, 7, 14, 11, 12, 4, 11, 2, 15, 8, 1]
    case 2 => [13, 1, 6, 10, 4, 13, 9, 0, 8, 6, 15, 9, 3, 8, 0, 7]
    case _ => [11, 4, 1, 15, 2, 14, 12, 3, 5, 11, 10, 5, 14, 2, 7, 12]
  }

  function S_BOX3(l: nat): (line: seq<nibble>)
    requires l < 4
    ensures |line| == 16
  {
    match l
    case 0 => [7, 13, 13, 8, 14, 11, 3, 5, 0, 6, 6, 15, 9, 0, 10, 3]
    case 1 => [1, 4, 2, 7, 8, 2, 5, 12, 11, 1, 12, 10, 4, 14, 15, 9]
    case 2 => [10, 3, 6, 15, 9, 0, 0, 6, 12, 10, 11, 1, 7, 13, 13, 8]
    case _ => [15, 9, 1, 4, 3, 5, 14, 11, 5, 12, 2, 7, 8, 2, 4, 14]
  }

  function S_BOX4(l: nat): (line: seq<nibble>)
    requires l < 4
    ensures |line| == 16
  {
    match l
    case 0 => [2, 14, 12, 11, 4, 2, 1, 12, 7, 4, 10, 7, 11, 13, 6, 1]
    case 1 => [8, 5, 5, 0, 3, 15, 15, 10, 13, 3, 0, 9, 14, 8, 9, 6]
    case 2 => [4, 11, 2, 8, 1, 12, 11, 7, 10, 1, 13, 14, 7, 2, 8, 13]
    case _ => [15, 6, 9, 15, 12, 0, 5, 9, 6, 10, 3, 4, 0, 5, 14, 3]
  }

  function S_BOX5(l: nat): (line: seq<nibble>)
    requires l < 4
    ensures |line| == 16
  {
    match l
    case 0 => [12, 10, 1, 15, 10, 4, 15, 2, 9, 7, 2, 12, 6, 9, 8, 5]
    case 1 => [0, 6, 13, 1, 3, 13, 4, 14, 14, 0, 7, 11, 5, 3, 11, 8]
    case 2 => [9, 4, 14, 3, 15, 2, 5, 12, 2, 9, 8, 5, 12, 15, 3, 10]
    case _ => [7, 11, 0, 14, 4, 1, 10, 7, 1, 6, 13, 0, 11, 8, 6, 13]
  }

  function S_BOX6(l: nat): (line: seq<nibble>)
    requires l < 4
    ensures |line| == 16
  {
    match l
    case 0 => [4, 13, 11, 0, 2, 11, 14, 7, 15, 4, 0, 9, 8, 1, 13, 10]
    case 1 => [3, 14, 12, 3, 9, 5, 7, 12, 5, 2, 10, 15, 6, 8, 1, 6]
    case 2 => [1, 6, 4, 11, 11, 13, 13, 8, 12, 1, 3, 4, 7, 10, 14, 7]
    case _ => [10, 9, 15, 5, 6, 0, 8, 15, 0, 14, 5, 2, 9, 3, 2, 12]
  }

  function S_BOX7(l: nat): (line: seq<nibble>)
    requires l < 4
    ensures |line| == 16
  {
    match l
    case 0 => [13, 1, 2, 15, 8, 13, 4, 8, 6, 10, 15, 3, 11, 7, 1, 4]
    case 1 => [10, 12, 9, 5, 3, 6, 14, 11, 5, 0, 0, 14, 12, 9, 7, 2]
    case 2 => [7, 2, 11, 1, 4, 14, 1, 7, 9, 4, 12, 10, 14, 8, 2, 13]
    case _ => [0, 15, 6, 12, 10, 9, 13, 0, 15, 3, 3, 5, 5, 6, 8, 11]
  }

  function S_BOXLine(i: nat, l: nat): (line: seq<nibble>)
    requires i < 8 && l < 4
    ensures |line| == 16
  {
    match i
    case 0 => S_BOX0(l) case 1 => S_BOX1(l) case 2 => S_BOX2(l) case 3 => S_BOX3(l)
    case 4 => S_BOX4(l) case 5 => S_BOX5(l) case 6 => S_BOX6(l) case _ => S_BOX7(l)
  }

  function S_BOX(i: nat): (box: seq<nibble>)
    requires i < 8
    ensures |box| == 64
  {
    seq(64, v requires 0 <= v < 64 => S_BOXLine(i, v / 16)[v % 16])
  }

  /** IP in closed form: eight places of the same column, counted down by eight. */
  function Initial(i: place): int {
    InitialAt(i / 8, i % 8)
  }

  function InitialAt(r: int, c: int): int {
    (if r < 4 then 57 else 48) + 2 * r - 8 * c
  }

  function Final(i: place): int {
    FinalAt(i / 8, i % 8)
  }

  function FinalAt(r: int, c: int): int {
    7 - r + c / 2 * 8 + c % 2 * 32
  }

  lemma IpTable(i: place)
    ensures IPAt(i) == Initial(i)
  {}

  lemma EpTable(i: place)
    ensures EPAt(i) == Final(i)
  {}
}
