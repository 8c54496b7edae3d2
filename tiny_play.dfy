/** The player written for a small device (TinyPlay.cs): every quantity lives
    in one of a handful of integer registers, the canonical key is found by a
    double loop over the cells for each of the eight symmetries, and the move
    is read from a table of 96 canonical positions.

    The device keeps a cell as (col, row) with index col * 3 + row, so its col
    is the line of three cells and its row the place on that line: its
    (col, row) is Util's (row, col). Its symmetries transpose first and then
    flip, where Util flips first; TinyCode says which code of Util each of its
    codes is (TinyApplyIsUtil). */
module Tiny {
  import opened Util
  import opened Wrappers
  import Play

  // ---------------------------------------------------------------------------
  // Coordinates and symmetries on plain values

  /** TinyPlay.Index: (col, row) to a cell index. */
  function TinyIndex(col: int, row: int): int
  {
    col * 3 + row
  }

  /** TinyPlay.Deindex, with C# division. */
  function TinyDeindex(index: int): (int, int)
  {
    (CsDiv(index, 3), CsMod(index, 3))
  }

  /** Deindex then Index gives the cell back, and the other way round. */
  lemma TinyIndexRoundTrip(index: int, col: int, row: int)
    ensures 0 <= index < 9 ==> TinyIndex(TinyDeindex(index).0, TinyDeindex(index).1) == index
    ensures 0 <= index < 9 ==> 0 <= TinyDeindex(index).0 < 3 && 0 <= TinyDeindex(index).1 < 3
    ensures 0 <= col < 3 && 0 <= row < 3 ==> TinyDeindex(TinyIndex(col, row)) == (col, row)
  {
    if 0 <= index < 9 {
      IndexDeindex(index);
    }
    if 0 <= col < 3 && 0 <= row < 3 {
      DeindexIndex(col, row);
    }
  }

  /** TinyPlay.ApplyPerm on (col, row): bit 4 swaps the two, then bit 2
      reverses col and bit 1 reverses row. */
  function TinyApply(perm: int, col: int, row: int): (r: (int, int))
    ensures 0 <= col < 3 && 0 <= row < 3 ==> 0 <= r.0 < 3 && 0 <= r.1 < 3
  {
    var (c, r) := if Transpose(perm) then (row, col) else (col, row);
    (if FlipCol(perm) then 2 - c else c, if FlipRow(perm) then 2 - r else r)
  }

  /** TinyPlay.InvertPerm: bit 1, then bit 2, then the swap. */
  function TinyInvert(perm: int, col: int, row: int): (int, int)
  {
    var r := if FlipRow(perm) then 2 - row else row;
    var c := if FlipCol(perm) then 2 - col else col;
    if Transpose(perm) then (r, c) else (c, r)
  }

  /** InvertPerm undoes ApplyPerm, and ApplyPerm undoes InvertPerm. */
  lemma TinyInverse(perm: int, col: int, row: int)
    ensures TinyInvert(perm, TinyApply(perm, col, row).0, TinyApply(perm, col, row).1) == (col, row)
    ensures TinyApply(perm, TinyInvert(perm, col, row).0, TinyInvert(perm, col, row).1) == (col, row)
  {
  }

  /** The code of Util that moves cells as the device's code t does: with the
      swap the same code, without it bits 1 and 2 exchanged. */
  function TinyCode(t: int): int
  {
    if Transpose(t) then Code(FlipRow(t), FlipCol(t), true)
    else Code(FlipCol(t), FlipRow(t), false)
  }

  /** The device's symmetry t is Util's symmetry TinyCode(t). */
  lemma TinyApplyIsUtil(t: int, col: int, row: int)
    ensures 0 <= TinyCode(t) < 8
    ensures TinyApply(t, col, row) == ApplyPerm(TinyCode(t), col, row)
  {
    CodeBits(FlipRow(t), FlipCol(t), true);
    CodeBits(FlipCol(t), FlipRow(t), false);
  }

  /** TinyCode is its own inverse on the codes 0..7, so it permutes them. */
  lemma TinyCodeInvolution(t: int)
    requires 0 <= t < 8
    ensures 0 <= TinyCode(t) < 8 && TinyCode(TinyCode(t)) == t
  {
    CodeBits(FlipRow(t), FlipCol(t), true);
    CodeBits(FlipCol(t), FlipRow(t), false);
    CodeOfBits(t);
  }

  /** The cell the device reads for (col, row) under code t. */
  function Reads(t: int, col: int, row: int): (j: int)
    ensures 0 <= col < 3 && 0 <= row < 3 ==> 0 <= j < 9
  {
    TinyIndex(TinyApply(t, col, row).0, TinyApply(t, col, row).1)
  }

  /** The last cell MinHash reads, (0, 0) under code 7, is cell 8. */
  lemma CornerRead()
    ensures Reads(7, 0, 0) == 8
  {
  }

  /** The cell of the board the device reads for cell p under code t. */
  function TinyCell(t: int, p: int): (j: int)
    ensures 0 <= p < 9 ==> 0 <= j < 9
  {
    var (c, r) := TinyDeindex(p);
    Reads(t, c, r)
  }

  lemma TinyCellIsAt(t: int, p: int)
    ensures TinyCell(t, p) == At(TinyCode(t), p)
  {
    var (c, r) := TinyDeindex(p);
    TinyApplyIsUtil(t, c, r);
  }

  /** The image of board under the device's code t. */
  function TinyImage(t: int, b: seq<int>): (r: seq<int>)
    requires |b| == 9
    ensures |r| == 9
  {
    seq(9, p requires 0 <= p < 9 => b[TinyCell(t, p)])
  }

  /** It is Util's image under TinyCode(t). */
  lemma TinyImageIsUtil(t: int, b: seq<int>)
    requires |b| == 9
    ensures TinyImage(t, b) == PermutedBoard(TinyCode(t), b)
  {
    forall p | 0 <= p < 9
      ensures TinyImage(t, b)[p] == PermutedBoard(TinyCode(t), b)[p]
    {
      TinyCellIsAt(t, p);
    }
  }

  function TinyImageHash(t: int, b: seq<int>): int
    requires |b| == 9
  {
    HashOf(TinyImage(t, b))
  }

  /** Horner's rule started from acc over line col of the image under t,
      from row 2 down to row + 1. */
  function LineFrom(b: seq<int>, t: int, col: int, row: int, acc: int): int
    requires |b| == 9 && 0 <= col < 3 && -1 <= row <= 2
    decreases 2 - row
  {
    if row == 2 then acc else LineFrom(b, t, col, row + 1, acc) * 3 + b[Reads(t, col, row + 1)]
  }

  /** Horner's rule over lines 2 down to col of the image under t. */
  function LinesFrom(b: seq<int>, t: int, col: int): int
    requires |b| == 9 && 0 <= col <= 3
    decreases 3 - col
  {
    if col == 3 then 0 else LineFrom(b, t, col, -1, LinesFrom(b, t, col + 1))
  }

  /** The fingerprint of a nine-cell board written out. */
  lemma HashNine(s: seq<int>)
    requires |s| == 9
    ensures HashOf(s) == s[0] + 3 * (s[1] + 3 * (s[2] + 3 * (s[3] + 3 * (s[4] + 3 * (s[5] + 3 * (s[6] + 3 * (s[7] + 3 * s[8])))))))
  {
    assert s[8..][1..] == [];
    assert HashOf(s[8..]) == s[8];
    assert s[7..][1..] == s[8..];
    assert HashOf(s[7..]) == s[7] + 3 * s[8];
    assert s[6..][1..] == s[7..];
    assert HashOf(s[6..]) == s[6] + 3 * HashOf(s[7..]);
    assert s[5..][1..] == s[6..];
    assert HashOf(s[5..]) == s[5] + 3 * HashOf(s[6..]);
    assert s[4..][1..] == s[5..];
    assert HashOf(s[4..]) == s[4] + 3 * HashOf(s[5..]);
    assert s[3..][1..] == s[4..];
    assert HashOf(s[3..]) == s[3] + 3 * HashOf(s[4..]);
    assert s[2..][1..] == s[3..];
    assert HashOf(s[2..]) == s[2] + 3 * HashOf(s[3..]);
    assert s[1..][1..] == s[2..];
    assert HashOf(s[1..]) == s[1] + 3 * HashOf(s[2..]);
  }

  lemma LineFull(b: seq<int>, t: int, col: int, acc: int)
    requires |b| == 9 && 0 <= col < 3
    ensures LineFrom(b, t, col, -1, acc)
            == ((acc * 3 + b[Reads(t, col, 2)]) * 3 + b[Reads(t, col, 1)]) * 3 + b[Reads(t, col, 0)]
  {
    assert LineFrom(b, t, col, 1, acc) == acc * 3 + b[Reads(t, col, 2)];
  }

  /** The nested loops compute the image's fingerprint. */
  lemma LinesAreHash(b: seq<int>, t: int)
    requires |b| == 9
    ensures LinesFrom(b, t, 0) == TinyImageHash(t, b)
  {
    var img := TinyImage(t, b);
    HashNine(img);
    LineFull(b, t, 2, 0);
    LineFull(b, t, 1, LinesFrom(b, t, 2));
    LineFull(b, t, 0, LinesFrom(b, t, 1));
    assert img[0] == b[Reads(t, 0, 0)] && img[1] == b[Reads(t, 0, 1)] && img[2] == b[Reads(t, 0, 2)];
    assert img[3] == b[Reads(t, 1, 0)] && img[4] == b[Reads(t, 1, 1)] && img[5] == b[Reads(t, 1, 2)];
    assert img[6] == b[Reads(t, 2, 0)] && img[7] == b[Reads(t, 2, 1)] && img[8] == b[Reads(t, 2, 2)];
  }

  // ---------------------------------------------------------------------------
  // The canonical key as the device computes it

  /** The start value of minHash, above every fingerprint. */
  const Above := 50000

  /** The fingerprints of the eight images, by the device's code. */
  function TinyHashes(b: seq<int>): (hs: seq<int>)
    requires |b| == 9
    ensures |hs| == 8
  {
    seq(8, t requires 0 <= t < 8 => TinyImageHash(t, b))
  }

  /** minHash after the fingerprints hs[0..n-1]: the start value, lowered by
      every strictly smaller one. */
  function KeptMin(hs: seq<int>, n: nat): int
    requires n <= |hs|
  {
    if n == 0 then Above
    else
      var m := KeptMin(hs, n - 1);
      if hs[n - 1] < m then hs[n - 1] else m
  }

  /** The code kept in move after hs[0..n-1]: the last one that lowered
      minHash. */
  function KeptArg(hs: seq<int>, n: nat): int
    requires n <= |hs|
  {
    if n == 0 then 0
    else if hs[n - 1] < KeptMin(hs, n - 1) then n - 1
    else KeptArg(hs, n - 1)
  }

  /** The kept value is a lower bound of the fingerprints seen; the kept code
      is in range, and when the value was lowered it is the first code reaching
      it: every earlier code has a larger fingerprint. */
  lemma {:induction false} KeptSpec(hs: seq<int>, n: nat)
    requires n <= |hs|
    ensures KeptMin(hs, n) <= Above
    ensures forall t :: 0 <= t < n ==> KeptMin(hs, n) <= hs[t]
    ensures 0 <= KeptArg(hs, n) && (n > 0 ==> KeptArg(hs, n) < n)
    ensures KeptMin(hs, n) < Above ==> 0 <= KeptArg(hs, n) < |hs| && hs[KeptArg(hs, n)] == KeptMin(hs, n)
    ensures forall t :: 0 <= t < KeptArg(hs, n) ==> KeptMin(hs, n) < hs[t]
  {
    if n > 0 {
      KeptSpec(hs, n - 1);
    }
  }

  /** TinyPlay.MinHash's minHash. */
  function TinyKey(b: seq<int>): int
    requires |b| == 9
  {
    var hs := TinyHashes(b);
    KeptMin(hs, |hs|)
  }

  /** TinyPlay.MinHash's minPerm. */
  function TinyPerm(b: seq<int>): int
    requires |b| == 9
  {
    var hs := TinyHashes(b);
    KeptArg(hs, |hs|)
  }

  /** Util's canonical key is at most the fingerprint of image k. */
  lemma BelowImage(b: seq<int>, k: int)
    requires |b| == 9 && 0 <= k < 8
    ensures MinHash(b).minHash <= ImageHash(k, b)
  {
    MinHashSpec(b);
  }

  lemma TinyHashIsUtil(t: int, b: seq<int>)
    requires |b| == 9
    ensures 0 <= TinyCode(t) < 8 && TinyImageHash(t, b) == ImageHash(TinyCode(t), b)
  {
    TinyImageIsUtil(t, b);
    TinyApplyIsUtil(t, 0, 0);
  }

  lemma TinyMinAt(b: seq<int>, t: int)
    requires |b| == 9 && 0 <= t < 8
    ensures TinyKey(b) <= TinyImageHash(t, b)
  {
    KeptSpec(TinyHashes(b), 8);
    assert TinyHashes(b)[t] == TinyImageHash(t, b);
  }

  lemma TinyArgAt(b: seq<int>)
    requires |b| == 9
    ensures 0 <= TinyPerm(b) < 8
    ensures TinyKey(b) < Above ==> TinyImageHash(TinyPerm(b), b) == TinyKey(b)
  {
    KeptSpec(TinyHashes(b), 8);
    assert TinyPerm(b) < 8 ==> TinyHashes(b)[TinyPerm(b)] == TinyImageHash(TinyPerm(b), b);
  }

  /** On a valid board the device finds Util's canonical key. */
  lemma TinyMinIsUtil(b: seq<int>)
    requires ValidBoard(b)
    ensures TinyKey(b) == MinHash(b).minHash
  {
    CanonicalBoard(b);
    var u := MinHash(b).minPerm;
    TinyCodeInvolution(u);
    TinyHashIsUtil(TinyCode(u), b);
    TinyMinAt(b, TinyCode(u));
    var a := TinyPerm(b);
    TinyArgAt(b);
    TinyHashIsUtil(a, b);
    BelowImage(b, TinyCode(a));
  }

  /** Its image under the kept code is the canonical board. */
  lemma TinyCanonical(b: seq<int>)
    requires ValidBoard(b)
    ensures TinyImage(TinyPerm(b), b) == DehashOf(MinHash(b).minHash)
  {
    TinyMinIsUtil(b);
    CanonicalBoard(b);
    var a := TinyPerm(b);
    TinyArgAt(b);
    TinyImageIsUtil(a, b);
    PermutedValid(TinyCode(a), b);
    HashRoundTrip(TinyImage(a, b));
  }

  // ---------------------------------------------------------------------------
  // The lookup table

  /** TinyPlay.Lookup's 96 tests, in order: canonical key, move on the
      canonical board, result. */
  const Table: seq<(int, int, int)> := [
    (0, 4, 0), (1, 4, 0), (3, 4, 0), (81, 0, 0),
    (83, 3, 0), (86, 7, 0), (87, 5, 0), (92, 6, 0),
    (104, 7, 5), (116, 5, 2), (126, 5, 0), (128, 5, 2),
    (132, 5, 2), (156, 7, 5), (166, 2, 0), (172, 1, 0),
    (192, 0, 0), (198, 0, 0), (203, 8, -7), (205, 7, -5),
    (211, 6, -8), (383, 6, -4), (384, 8, 0), (389, 6, -4),
    (396, 0, 0), (397, 8, 0), (399, 7, 0), (403, 8, 7),
    (432, 8, 0), (437, 8, -7), (443, 8, -7), (624, 7, 5),
    (828, 8, 0), (833, 7, 0), (857, 5, 0), (900, 5, 0),
    (905, 8, -7), (907, 7, -5), (913, 3, 0), (933, 7, -5),
    (1073, 1, -1), (1109, 2, 0), (1125, 0, 0), (1130, 7, 0),
    (1139, 8, -7), (1149, 7, -5), (1153, 3, 0), (1155, 3, 0),
    (1163, 2, 0), (1179, 0, 0), (1184, 8, -7), (1189, 2, 0),
    (1197, 8, 0), (1210, 8, 0), (1325, 2, 0), (1331, 2, 8),
    (1341, 0, 0), (1346, 8, -6), (1347, 0, 4), (1387, 3, -2),
    (1418, 8, -7), (1560, 7, 5), (1788, 3, 2), (1793, 3, -4),
    (1839, 0, -4), (1855, 8, 7), (1893, 2, -8), (1906, 7, -5),
    (2055, 7, 0), (2063, 8, 0), (2066, 7, 0), (2590, 8, 0),
    (3314, 1, -1), (3318, 0, -1), (3368, 1, -1), (3394, 8, 0),
    (3396, 8, 0), (3491, 8, 3), (3518, 2, -1), (3530, 1, -1),
    (3543, 2, 8), (3602, 8, -7), (4174, 8, 0), (4219, 8, 7),
    (4246, 8, 0), (4250, 1, 0), (4254, 0, 0), (4330, 1, 0),
    (7391, 1, -1), (7528, 5, -2), (7688, 1, -1), (7742, 1, -1),
    (7768, 7, 0), (8546, 7, 0), (8624, 1, 0), (8630, 7, 9)
  ]

  /** The move and result of the first test at or after i that matches key. */
  function ListedFrom(key: int, i: nat): (r: Option<(int, int)>)
    requires i <= |Table|
    decreases |Table| - i
  {
    if i == |Table| then None
    else if Table[i].0 == key then Some((Table[i].1, Table[i].2))
    else ListedFrom(key, i + 1)
  }

  /** What the chain of tests in Lookup answers for key. */
  function Listed(key: int): Option<(int, int)>
  {
    ListedFrom(key, 0)
  }

  lemma {:induction false} ListedFromSpec(key: int, i: nat)
    requires i <= |Table|
    ensures ListedFrom(key, i).None? <==> forall j :: i <= j < |Table| ==> Table[j].0 != key
    ensures ListedFrom(key, i).Some? ==>
              exists j :: i <= j < |Table| && Table[j] == (key, ListedFrom(key, i).value.0, ListedFrom(key, i).value.1)
    decreases |Table| - i
  {
    if i < |Table| && Table[i].0 != key {
      ListedFromSpec(key, i + 1);
    }
  }

  /** Lookup answers exactly the keys of the table, with a move and result
      of a test that has that key. */
  lemma ListedSpec(key: int)
    ensures Listed(key).None? <==> forall j :: 0 <= j < |Table| ==> Table[j].0 != key
    ensures Listed(key).Some? ==> exists j :: 0 <= j < |Table| && Table[j] == (key, Listed(key).value.0, Listed(key).value.1)
  {
    ListedFromSpec(key, 0);
  }

  // ---------------------------------------------------------------------------
  // The device

  /** The registers of TinyPlay.MinHash after the codes 0..k-1, from r0. */
  function AfterCodes(r0: Registers, hs: seq<int>, k: nat): Registers
    requires k <= |hs|
  {
    if k == 0 then r0.(minHash := Above, move := 0, minPerm := 0)
    else r0.(col := -1, row := -1, index := Reads(k - 1, 0, 0), result := hs[k - 1],
             minHash := KeptMin(hs, k), move := KeptArg(hs, k), minPerm := k)
  }

  /** After all eight codes the registers hold the canonical key and code. */
  lemma AfterAllCodes(r0: Registers, b: seq<int>)
    requires |b| == 9
    ensures AfterCodes(r0, TinyHashes(b), 8) ==
              r0.(col := -1, row := -1, index := 8, result := TinyHashes(b)[7],
                  minHash := TinyKey(b), move := TinyPerm(b), minPerm := 8)
  {
    CornerRead();
  }

  /** One more code: the fingerprint hs[k] replaces the kept minimum when it
      is strictly smaller. */
  lemma AfterCodesStep(r0: Registers, hs: seq<int>, k: nat)
    requires k < |hs|
    ensures var r := AfterCodes(r0, hs, k);
            AfterCodes(r0, hs, k + 1) ==
              r.(col := -1, row := -1, index := Reads(k, 0, 0), result := hs[k],
                 minHash := if hs[k] < r.minHash then hs[k] else r.minHash,
                 move := if hs[k] < r.minHash then k else r.move,
                 minPerm := k + 1)
  {
  }


  /** The integer registers of TinyPlay that the players use. */
  datatype Registers = Registers(col: int, row: int, minHash: int, minPerm: int, index: int,
                                 result: int, depth: int, error: int, move: int)

  class TinyPlay {
    /** Cells in row-major order. */
    const board: array<int>
    var col: int
    var row: int
    var minHash: int
    var minPerm: int
    var index: int
    var result: int
    /** Moves made so far. */
    var depth: int
    /** Set when the table has no entry for a position. */
    var error: int
    var move: int

    function Regs(): Registers
      reads this
    {
      Registers(col, row, minHash, minPerm, index, result, depth, error, move)
    }

    /** A fresh device: an empty board and every register zero. */
    constructor ()
      ensures fresh(board) && board.Length == 9
      ensures board[..] == [0, 0, 0, 0, 0, 0, 0, 0, 0]
      ensures Regs() == Registers(0, 0, 0, 0, 0, 0, 0, 0, 0)
    {
      board := new int[9](_ => 0);
      col, row, minHash, minPerm, index, result := 0, 0, 0, 0, 0, 0;
      depth, error, move := 0, 0, 0;
    }

    /** TinyPlay.Index: index from (col, row). */
    method Index()
      modifies this
      ensures Regs() == old(Regs()).(index := TinyIndex(old(col), old(row)))
    {
      index := col * 3 + row;
    }

    /** TinyPlay.Deindex: (col, row) from index. */
    method Deindex()
      modifies this
      ensures Regs() == old(Regs()).(col := TinyDeindex(old(index)).0, row := TinyDeindex(old(index)).1)
    {
      col := CsDiv(index, 3);
      row := CsMod(index, 3);
    }

    /** TinyPlay.ApplyPerm: moves (col, row) by the symmetry minPerm. */
    method ApplyPerm()
      modifies this
      ensures Regs() == old(Regs()).(col := TinyApply(old(minPerm), old(col), old(row)).0,
                                     row := TinyApply(old(minPerm), old(col), old(row)).1)
    {
      if Transpose(minPerm) {
        col, row := row, col;
      }
      if FlipCol(minPerm) {
        col := 2 - col;
      }
      if FlipRow(minPerm) {
        row := 2 - row;
      }
    }

    /** TinyPlay.InvertPerm: moves (col, row) back. */
    method InvertPerm()
      modifies this
      ensures Regs() == old(Regs()).(col := TinyInvert(old(minPerm), old(col), old(row)).0,
                                     row := TinyInvert(old(minPerm), old(col), old(row)).1)
    {
      if FlipRow(minPerm) {
        row := 2 - row;
      }
      if FlipCol(minPerm) {
        col := 2 - col;
      }
      if Transpose(minPerm) {
        col, row := row, col;
      }
    }

    /** TinyPlay.ToMove: the side to move from the parity of depth, into index.
        `depth & 1` is the Euclidean remainder for every int. */
    method ToMove()
      modifies this
      ensures Regs() == old(Regs()).(index := old(depth) % 2 + 1)
    {
      index := depth % 2;
      index := index + 1;
    }

    /** TinyPlay.DrawMove without the console: turns (col, row) into cursor
        coordinates. */
    method DrawMove()
      modifies this
      ensures Regs() == old(Regs()).(col := 2 * old(col) + 2, row := 2 * old(row) + 1)
    {
      col := 2 * col + 2;
      row := 2 * row + 1;
    }

    /** TinyPlay.DoMove: nothing when move is -1; otherwise puts the piece of
        the side to move on cell move and counts the move. The Trace.Assert
        that the cell is empty is a precondition. */
    method DoMove()
      requires board.Length == 9
      requires move != -1 ==> 0 <= move < 9 && board[move] == 0
      modifies this, board
      ensures old(move) == -1 ==> Regs() == old(Regs()) && board[..] == old(board[..])
      ensures old(move) != -1 ==>
                board[..] == old(board[..])[old(move) := old(depth) % 2 + 1] &&
                Regs() == old(Regs()).(index := old(depth) % 2 + 1,
                                       col := 2 * TinyDeindex(old(move)).0 + 2,
                                       row := 2 * TinyDeindex(old(move)).1 + 1,
                                       depth := old(depth) + 1)
    {
      if move == -1 {
        return;
      }
      index := move;
      Deindex();
      ToMove();
      board[move] := index;
      DrawMove();
      depth := depth + 1;
    }

    /** TinyPlay.MinHash: for each code in turn, the fingerprint of the image
        by Horner's rule over the cells from 8 down to 0, keeping the first
        smallest; minPerm and move end holding its code. */
    method MinHash()
      requires board.Length == 9
      modifies this
      ensures Regs() == old(Regs()).(col := -1, row := -1, index := 8,
                                     minHash := TinyKey(board[..]),
                                     minPerm := TinyPerm(board[..]),
                                     move := TinyPerm(board[..]),
                                     result := TinyHashes(board[..])[7])
    {
      ghost var b := board[..];
      ghost var hs := TinyHashes(b);
      ghost var r0 := Regs();
      minHash := Above;
      move := 0;
      minPerm := 0;
      while minPerm < 8
        invariant 0 <= minPerm <= 8 && board[..] == b
        invariant Regs() == AfterCodes(r0, hs, minPerm)
      {
        AfterCodesStep(r0, hs, minPerm);
        ImageFingerprint();
        if result < minHash {
          minHash := result;
          move := minPerm;
        }
        minPerm := minPerm + 1;
      }
      AfterAllCodes(r0, b);
      minPerm := move;
    }

    /** The body of MinHash's loop over the codes: the fingerprint of the
        image under minPerm into result, by Horner's rule over the cells from
        8 down to 0. */
    method ImageFingerprint()
      requires board.Length == 9 && 0 <= minPerm < 8
      modifies this
      ensures Regs() == old(Regs()).(col := -1, row := -1, index := Reads(old(minPerm), 0, 0),
                                     result := TinyHashes(board[..])[old(minPerm)])
    {
      ghost var b := board[..];
      ghost var r0 := Regs();
      result := 0;
      col := 2;
      while col >= 0
        invariant -1 <= col <= 2 && board[..] == b
        invariant Regs() == r0.(col := col,
                                row := if col < 2 then -1 else r0.row,
                                index := if col < 2 then Reads(r0.minPerm, col + 1, 0) else r0.index,
                                result := LinesFrom(b, r0.minPerm, col + 1))
      {
        LineFingerprint(b);
        col := col - 1;
      }
      LinesAreHash(b, r0.minPerm);
      assert TinyHashes(b)[r0.minPerm] == TinyImageHash(r0.minPerm, b);
    }

    /** MinHash's inner loop: the three cells of line col, from row 2 down
        to row 0, shifted into result. */
    method LineFingerprint(ghost b: seq<int>)
      requires board.Length == 9 && b == board[..]
      requires 0 <= col < 3
      requires result == LinesFrom(b, minPerm, col + 1)
      modifies this
      ensures Regs() == old(Regs()).(row := -1, index := Reads(old(minPerm), old(col), 0),
                                     result := LinesFrom(b, old(minPerm), old(col)))
    {
      ghost var r0 := Regs();
      ghost var acc := LinesFrom(b, minPerm, col + 1);
      row := 2;
      while row >= 0
        invariant -1 <= row <= 2
        invariant Regs() == r0.(row := row,
                                index := if row < 2 then Reads(r0.minPerm, r0.col, row + 1) else r0.index,
                                result := LineFrom(b, r0.minPerm, r0.col, row, acc))
      {
        CellStep(b, acc);
        row := row - 1;
      }
      assert LinesFrom(b, r0.minPerm, r0.col) == LineFrom(b, r0.minPerm, r0.col, -1, acc);
    }

    /** One pass of MinHash's inner loop: read the cell that (col, row) shows
        under minPerm and shift it into result; (col, row) are restored. */
    method CellStep(ghost b: seq<int>, ghost acc: int)
      requires board.Length == 9 && b == board[..]
      requires 0 <= col < 3 && 0 <= row < 3
      requires result == LineFrom(b, minPerm, col, row, acc)
      modifies this
      ensures Regs() == old(Regs()).(index := Reads(old(minPerm), old(col), old(row)),
                                     result := LineFrom(b, old(minPerm), old(col), old(row) - 1, acc))
    {
      TinyInverse(minPerm, col, row);
      ghost var r0 := Regs();
      ApplyPerm();
      Index();
      assert index == Reads(r0.minPerm, r0.col, r0.row);
      result := result * 3 + board[index];
      InvertPerm();
    }

    /** TinyPlay.Lookup: the move and result of the table's test for minHash;
        with no test matching, move is 0 and error is set (the Trace.Assert
        before it is not fatal here). position is only part of the message. */
    method Lookup(position: int)
      modifies this
      ensures Listed(old(minHash)).Some? ==>
                Regs() == old(Regs()).(move := Listed(old(minHash)).value.0, result := Listed(old(minHash)).value.1)
      ensures Listed(old(minHash)).None? ==>
                Regs() == old(Regs()).(move := 0, error := 1)
    {
      move := 0;
      match Listed(minHash)
      case Some((m, r)) =>
        move, result := m, r;
      case None =>
        error := 1;
    }

    /** TinyPlay.GetComputerMove: the canonical key and code of the board, the
        table's move for it, and that move taken back through the code to a
        cell of the board. */
    method GetComputerMove()
      requires board.Length == 9
      modifies this
      ensures minHash == TinyKey(board[..]) && minPerm == TinyPerm(board[..])
      ensures var l := Listed(minHash);
              var m := if l.Some? then l.value.0 else 0;
              (col, row) == TinyApply(minPerm, TinyDeindex(m).0, TinyDeindex(m).1) &&
              index == TinyCell(minPerm, m) && move == index &&
              result == (if l.Some? then l.value.1 else TinyHashes(board[..])[7]) &&
              error == (if l.Some? then old(error) else 1) && depth == old(depth)
    {
      MinHash();
      Lookup(minHash);
      index := move;
      Deindex();
      ApplyPerm();
      Index();
      move := index;
    }

    /** IPlayer.GetMove: copies the caller's nine cells onto the device's
        board and answers as GetComputerMove does (the source repeats those
        lines here). */
    method GetMove(cells: array<int>) returns (r: Play.Reply)
      requires board.Length == 9 && cells.Length >= 9
      modifies this, board
      ensures board[..] == old(cells[..9])
      ensures var b := old(cells[..9]);
              var t := TinyPerm(b);
              var l := Listed(TinyKey(b));
              var m := if l.Some? then l.value.0 else 0;
              r == Play.Reply(TinyCell(t, m), false) && move == TinyCell(t, m) &&
              minHash == TinyKey(b) && minPerm == t &&
              error == (if l.Some? then old(error) else 1) && depth == old(depth)
    {
      forall i | 0 <= i < 9 {
        board[i] := cells[i];
      }
      assert board[..] == old(cells[..9]);
      GetComputerMove();
      r := Play.Reply(move, false);
    }
  }

  // ---------------------------------------------------------------------------
  // What the device's answers mean

  /** The side to move from the parity of depth is Util's ToMove when depth
      counts the pieces, and DoMove then keeps depth counting them. */
  lemma DoMoveKeepsDepth(b: seq<int>, depth: int, m: int)
    requires ValidBoard(b) && depth == Depth(b)
    requires CountOf(b, Player1) == CountOf(b, Player2) || CountOf(b, Player1) - 1 == CountOf(b, Player2)
    requires 0 <= m < 9 && b[m] == 0
    ensures depth % 2 + 1 == ToMove(b)
    ensures ValidBoard(b[m := depth % 2 + 1]) && Depth(b[m := depth % 2 + 1]) == depth + 1
  {
    DepthCounts(b);
    DepthUpdate(b, m, depth % 2 + 1);
  }

  /** On a valid board whose key the table lists, the device's cell is Util's
      At of the listed move under the matching code: it holds what the
      canonical board holds at the listed move, and playing it is playing the
      listed move on the canonical board. */
  lemma TinyMoveBack(b: seq<int>, p: int)
    requires ValidBoard(b)
    requires Listed(TinyKey(b)).Some?
    requires 0 <= Listed(TinyKey(b)).value.0 < 9
    ensures var t := TinyPerm(b);
            var m := Listed(TinyKey(b)).value.0;
            Listed(MinHash(b).minHash) == Listed(TinyKey(b)) &&
            b[TinyCell(t, m)] == DehashOf(MinHash(b).minHash)[m] &&
            PermutedBoard(TinyCode(t), b[TinyCell(t, m) := p]) == DehashOf(MinHash(b).minHash)[m := p]
  {
    var t := TinyPerm(b);
    var m := Listed(TinyKey(b)).value.0;
    TinyMinIsUtil(b);
    TinyCanonical(b);
    TinyImageIsUtil(t, b);
    TinyCellIsAt(t, m);
    Play.MoveBack(TinyCode(t), b, m, p);
  }
}
