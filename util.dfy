/** Board encoding, the eight board symmetries, the canonical key and the
    terminal-position codes of the tic-tac-toe program (Util.cs).

    A board is a sequence of nine cells in row-major order, each cell 0 (empty),
    1 (player 1) or 2 (player 2). */
module Util {

  /** Piece values of the two players (Node.Player1 and Node.Player2). */
  const Player1 := 1
  const Player2 := 2

  /** Number of boards with cells in {0,1,2}: 3^9. */
  const BoardCount := 19683

  // ---------------------------------------------------------------------------
  // C# integer arithmetic

  /** C# `/` on int: truncates toward zero. */
  function CsDiv(a: int, b: int): int
    requires b > 0
  {
    if a >= 0 then a / b else -((-a) / b)
  }

  /** C# `%` on int: the remainder takes the sign of the dividend. */
  function CsMod(a: int, b: int): int
    requires b > 0
  {
    if a >= 0 then a % b else -((-a) % b)
  }

  // ---------------------------------------------------------------------------
  // Boards and coordinates

  /** Every cell holds 0, 1 or 2. */
  predicate ValidCells(b: seq<int>)
  {
    forall i :: 0 <= i < |b| ==> 0 <= b[i] < 3
  }

  /** A board as the program builds it: nine cells in {0,1,2}. */
  predicate ValidBoard(b: seq<int>)
  {
    |b| == 9 && ValidCells(b)
  }

  /** Row and column in 0..2 to a cell index. */
  function Index(row: int, col: int): int
  {
    col + row * 3
  }

  /** Cell index to (row, column), with C# division. */
  function Deindex(index: int): (int, int)
  {
    (CsDiv(index, 3), CsMod(index, 3))
  }

  lemma DeindexIndex(row: int, col: int)
    requires 0 <= row < 3 && 0 <= col < 3
    ensures 0 <= Index(row, col) < 9
    ensures Deindex(Index(row, col)) == (row, col)
  {
  }

  lemma IndexDeindex(index: int)
    requires 0 <= index < 9
    ensures 0 <= Deindex(index).0 < 3 && 0 <= Deindex(index).1 < 3
    ensures Index(Deindex(index).0, Deindex(index).1) == index
  {
  }

  /** A negative index is split the C# way: Deindex(-1) is (0, -1). */
  lemma DeindexNegative()
    ensures Deindex(-1) == (0, -1)
  {
  }

  // ---------------------------------------------------------------------------
  // Fingerprint

  function Pow3(n: nat): (r: nat)
    ensures r >= 1
  {
    if n == 0 then 1 else 3 * Pow3(n - 1)
  }

  lemma Pow3Nine()
    ensures Pow3(9) == BoardCount
  {
  }

  /** Base-3 value of the cells, cell i weighing 3^i. */
  function HashOf(b: seq<int>): int
  {
    if |b| == 0 then 0 else b[0] + 3 * HashOf(b[1..])
  }

  /** Util.Hash: Horner's rule from the last cell down to the first. */
  method Hash(board: array<int>) returns (hash: int)
    ensures hash == HashOf(board[..])
  {
    hash := 0;
    var i := board.Length - 1;
    while i >= 0
      invariant -1 <= i < board.Length
      invariant hash == HashOf(board[i + 1..])
    {
      assert board[i..][1..] == board[i + 1..];
      hash := 3 * hash + board[i];
      i := i - 1;
    }
    assert board[0..] == board[..];
  }

  /** The low n base-3 digits of h, least significant first, with C# `%` and `/`. */
  function Digits(h: int, n: nat): (r: seq<int>)
    ensures |r| == n
    decreases n
  {
    if n == 0 then [] else [CsMod(h, 3)] + Digits(CsDiv(h, 3), n - 1)
  }

  /** The board whose fingerprint is hash. */
  function DehashOf(hash: int): seq<int>
  {
    Digits(hash, 9)
  }

  /** Util.Dehash: peel off nine base-3 digits. */
  method Dehash(hash: int) returns (board: array<int>)
    ensures fresh(board)
    ensures board[..] == DehashOf(hash)
  {
    board := new int[9];
    ghost var digits := Digits(hash, 9);
    var h := hash;
    var i := 0;
    while i < board.Length
      invariant 0 <= i <= 9
      invariant board[..i] == digits[..i]
      invariant Digits(h, 9 - i) == digits[i..]
    {
      assert digits[i..] == [CsMod(h, 3)] + Digits(CsDiv(h, 3), 9 - i - 1);
      assert digits[i..][1..] == digits[i + 1..];
      board[i] := CsMod(h, 3);
      assert board[..i + 1] == board[..i] + [board[i]];
      assert digits[..i + 1] == digits[..i] + [digits[i]];
      h := CsDiv(h, 3);
      i := i + 1;
    }
    assert board[..9] == board[..];
  }

  lemma {:induction false} HashBounds(b: seq<int>)
    requires ValidCells(b)
    ensures 0 <= HashOf(b) < Pow3(|b|)
  {
    if |b| > 0 {
      HashBounds(b[1..]);
    }
  }

  lemma {:induction false} DigitsOfHash(b: seq<int>)
    requires ValidCells(b)
    ensures Digits(HashOf(b), |b|) == b
  {
    if |b| > 0 {
      HashBounds(b[1..]);
      DigitsOfHash(b[1..]);
      var h := HashOf(b);
      assert CsMod(h, 3) == b[0];
      assert CsDiv(h, 3) == HashOf(b[1..]);
    }
  }

  lemma {:induction false} HashOfDigits(h: int, n: nat)
    requires 0 <= h < Pow3(n)
    ensures ValidCells(Digits(h, n))
    ensures HashOf(Digits(h, n)) == h
  {
    if n > 0 {
      HashOfDigits(h / 3, n - 1);
      assert Digits(h, n)[1..] == Digits(h / 3, n - 1);
    }
  }

  /** Hash is in range and Dehash inverts it on every valid board. */
  lemma HashRoundTrip(b: seq<int>)
    requires ValidBoard(b)
    ensures 0 <= HashOf(b) < BoardCount
    ensures DehashOf(HashOf(b)) == b
  {
    HashBounds(b);
    DigitsOfHash(b);
  }

  /** Dehash yields a valid board that Hash maps back, on every fingerprint. */
  lemma DehashRoundTrip(h: int)
    requires 0 <= h < BoardCount
    ensures ValidBoard(DehashOf(h))
    ensures HashOf(DehashOf(h)) == h
  {
    HashOfDigits(h, 9);
  }

  /** Two valid boards with the same fingerprint are equal. */
  lemma HashInjective(a: seq<int>, b: seq<int>)
    requires ValidBoard(a) && ValidBoard(b)
    requires HashOf(a) == HashOf(b)
    ensures a == b
  {
    HashRoundTrip(a);
    HashRoundTrip(b);
  }

  /** Cell i contributes b[i] * 3^i to the fingerprint. */
  lemma {:induction false} HashWeight(b: seq<int>, i: nat)
    requires i < |b|
    ensures HashOf(b) == HashOf(b[i := 0]) + b[i] * Pow3(i)
  {
    if i > 0 {
      HashWeight(b[1..], i - 1);
      assert b[i := 0][1..] == b[1..][i - 1 := 0];
    }
  }

  // ---------------------------------------------------------------------------
  // Symmetries: 3-bit codes, bit 1 flips the row, bit 2 flips the column,
  // bit 4 transposes, applied in that order. The tests `(perm & k) != 0` are
  // written with Euclidean `/` and `%`, which give two's-complement bits.

  predicate FlipRow(perm: int) { perm % 2 == 1 }
  predicate FlipCol(perm: int) { (perm / 2) % 2 == 1 }
  predicate Transpose(perm: int) { (perm / 4) % 2 == 1 }

  /** Util.ApplyPerm: the cell that symmetry perm reads for (row, col). */
  function ApplyPerm(perm: int, row: int, col: int): (r: (int, int))
    ensures 0 <= row < 3 && 0 <= col < 3 ==> 0 <= r.0 < 3 && 0 <= r.1 < 3
  {
    var pr := if FlipRow(perm) then 2 - row else row;
    var pc := if FlipCol(perm) then 2 - col else col;
    if Transpose(perm) then (pc, pr) else (pr, pc)
  }

  /** Util.InvertPerm: undoes ApplyPerm, the three steps in reverse order. */
  function InvertPerm(perm: int, row: int, col: int): (int, int)
  {
    var (pr, pc) := if Transpose(perm) then (col, row) else (row, col);
    var pc' := if FlipCol(perm) then 2 - pc else pc;
    var pr' := if FlipRow(perm) then 2 - pr else pr;
    (pr', pc')
  }

  lemma PermInverse(perm: int, row: int, col: int)
    ensures InvertPerm(perm, ApplyPerm(perm, row, col).0, ApplyPerm(perm, row, col).1) == (row, col)
    ensures ApplyPerm(perm, InvertPerm(perm, row, col).0, InvertPerm(perm, row, col).1) == (row, col)
  {
  }

  /** The code with the given three bits. */
  function Code(flipRow: bool, flipCol: bool, transpose: bool): int
  {
    (if flipRow then 1 else 0) + (if flipCol then 2 else 0) + (if transpose then 4 else 0)
  }

  lemma CodeBits(flipRow: bool, flipCol: bool, transpose: bool)
    ensures 0 <= Code(flipRow, flipCol, transpose) < 8
    ensures FlipRow(Code(flipRow, flipCol, transpose)) == flipRow
    ensures FlipCol(Code(flipRow, flipCol, transpose)) == flipCol
    ensures Transpose(Code(flipRow, flipCol, transpose)) == transpose
  {
  }

  lemma CodeOfBits(perm: int)
    requires 0 <= perm < 8
    ensures Code(FlipRow(perm), FlipCol(perm), Transpose(perm)) == perm
  {
  }

  /** The code of "apply p, then q" to coordinates: ApplyPerm(q, ApplyPerm(p, x)). */
  function Compose(q: int, p: int): int
  {
    if Transpose(p) then
      Code(FlipCol(q) != FlipRow(p), FlipRow(q) != FlipCol(p), !Transpose(q))
    else
      Code(FlipRow(q) != FlipRow(p), FlipCol(q) != FlipCol(p), Transpose(q))
  }

  /** The code of the symmetry that InvertPerm applies. */
  function InverseCode(q: int): int
  {
    if Transpose(q) then Code(FlipCol(q), FlipRow(q), true)
    else Code(FlipRow(q), FlipCol(q), false)
  }

  lemma ComposeApply(q: int, p: int, row: int, col: int)
    ensures 0 <= Compose(q, p) < 8
    ensures ApplyPerm(q, ApplyPerm(p, row, col).0, ApplyPerm(p, row, col).1)
            == ApplyPerm(Compose(q, p), row, col)
  {
    var a, b, c := FlipRow(q) != FlipRow(p), FlipCol(q) != FlipCol(p), Transpose(q);
    var a', b', c' := FlipCol(q) != FlipRow(p), FlipRow(q) != FlipCol(p), !Transpose(q);
    CodeBits(a, b, c);
    CodeBits(a', b', c');
  }

  lemma InvertPermIsCode(q: int, row: int, col: int)
    ensures 0 <= InverseCode(q) < 8
    ensures InvertPerm(q, row, col) == ApplyPerm(InverseCode(q), row, col)
  {
    CodeBits(FlipCol(q), FlipRow(q), true);
    CodeBits(FlipRow(q), FlipCol(q), false);
  }

  /** Every code t is reached from q by composing with some code. */
  lemma ComposeOnto(q: int, t: int)
    requires 0 <= q < 8 && 0 <= t < 8
    ensures 0 <= Compose(InverseCode(q), t) < 8
    ensures Compose(q, Compose(InverseCode(q), t)) == t
  {
    CodeBits(FlipCol(q), FlipRow(q), true);
    CodeBits(FlipRow(q), FlipCol(q), false);
    var u := InverseCode(q);
    CodeBits(FlipRow(u) != FlipRow(t), FlipCol(u) != FlipCol(t), Transpose(u));
    CodeBits(FlipCol(u) != FlipRow(t), FlipRow(u) != FlipCol(t), !Transpose(u));
    var p := Compose(u, t);
    CodeBits(FlipRow(q) != FlipRow(p), FlipCol(q) != FlipCol(p), Transpose(q));
    CodeBits(FlipCol(q) != FlipRow(p), FlipRow(q) != FlipCol(p), !Transpose(q));
    CodeOfBits(t);
  }

  // ---------------------------------------------------------------------------
  // Board permutation

  /** The cell of the original board that lands on cell i under perm. */
  function At(perm: int, i: int): (j: int)
    ensures 0 <= i < 9 ==> 0 <= j < 9
  {
    var (r, c) := Deindex(i);
    var (r1, c1) := ApplyPerm(perm, r, c);
    Index(r1, c1)
  }

  /** The image of board under symmetry perm: cell (row, col) receives the
      original cell ApplyPerm(perm, row, col). */
  function PermutedBoard(perm: int, board: seq<int>): (b: seq<int>)
    requires |board| == 9
    ensures |b| == 9
  {
    seq(9, i requires 0 <= i < 9 => board[At(perm, i)])
  }

  /** Util.PermuteBoard: fills a fresh board, rows outer, columns inner. */
  method PermuteBoard(perm: int, board: array<int>) returns (b: array<int>)
    requires board.Length == 9
    ensures fresh(b)
    ensures b[..] == PermutedBoard(perm, board[..])
  {
    b := new int[9];
    ghost var image := PermutedBoard(perm, board[..]);
    var row := 0;
    while row < 3
      invariant 0 <= row <= 3
      invariant forall i :: 0 <= i < 3 * row ==> b[i] == image[i]
    {
      var col := 0;
      while col < 3
        invariant 0 <= col <= 3
        invariant forall i :: 0 <= i < 3 * row + col ==> b[i] == image[i]
      {
        var (row1, col1) := ApplyPerm(perm, row, col);
        DeindexIndex(row, col);
        b[Index(row, col)] := board[Index(row1, col1)];
        col := col + 1;
      }
      row := row + 1;
    }
  }

  /** Reading cell (row, col) of the image reads cell ApplyPerm(perm, row, col). */
  lemma PermutedBoardAt(perm: int, board: seq<int>, row: int, col: int)
    requires |board| == 9 && 0 <= row < 3 && 0 <= col < 3
    ensures 0 <= Index(ApplyPerm(perm, row, col).0, ApplyPerm(perm, row, col).1) < 9
    ensures PermutedBoard(perm, board)[Index(row, col)]
            == board[Index(ApplyPerm(perm, row, col).0, ApplyPerm(perm, row, col).1)]
  {
    DeindexIndex(row, col);
  }

  lemma PermutedIdentity(board: seq<int>)
    requires |board| == 9
    ensures PermutedBoard(0, board) == board
  {
  }

  /** Code 1 reverses the order of the rows. */
  lemma PermutedFlipRows(board: seq<int>)
    requires |board| == 9
    ensures PermutedBoard(1, board)
            == board[6..9] + board[3..6] + board[0..3]
  {
  }

  /** Code 2 reverses each row. */
  lemma PermutedFlipCols(board: seq<int>)
    requires |board| == 9
    ensures PermutedBoard(2, board)
            == [board[2], board[1], board[0], board[5], board[4], board[3], board[8], board[7], board[6]]
  {
  }

  /** The two fixed examples of Tests.cs. */
  lemma PermutedExamples()
    ensures PermutedBoard(1, [0, 0, 1, 2, 2, 1, 0, 1, 0]) == [0, 1, 0, 2, 2, 1, 0, 0, 1]
    ensures PermutedBoard(2, [0, 0, 1, 2, 2, 1, 0, 1, 0]) == [1, 0, 0, 1, 2, 2, 0, 1, 0]
  {
    PermutedFlipRows([0, 0, 1, 2, 2, 1, 0, 1, 0]);
    PermutedFlipCols([0, 0, 1, 2, 2, 1, 0, 1, 0]);
  }

  /** Permuting by q, then by p, is permuting by Compose(q, p). */
  lemma PermutedCompose(p: int, q: int, board: seq<int>)
    requires |board| == 9
    ensures PermutedBoard(p, PermutedBoard(q, board)) == PermutedBoard(Compose(q, p), board)
  {
    forall i | 0 <= i < 9
      ensures PermutedBoard(p, PermutedBoard(q, board))[i] == PermutedBoard(Compose(q, p), board)[i]
    {
      IndexDeindex(i);
      var (r, c) := Deindex(i);
      var (r1, c1) := ApplyPerm(p, r, c);
      DeindexIndex(r1, c1);
      ComposeApply(q, p, r, c);
    }
  }

  /** A permuted board holds the same cells, so it stays valid. */
  lemma PermutedValid(perm: int, board: seq<int>)
    requires ValidBoard(board)
    ensures ValidBoard(PermutedBoard(perm, board))
  {
  }

  /** Distinct cells read distinct cells of the original. */
  lemma AtInjective(perm: int, i: int, j: int)
    requires 0 <= i < 9 && 0 <= j < 9
    requires At(perm, i) == At(perm, j)
    ensures i == j
  {
    IndexDeindex(i);
    IndexDeindex(j);
    var (ri, ci) := Deindex(i);
    var (rj, cj) := Deindex(j);
    var (ai, bi) := ApplyPerm(perm, ri, ci);
    var (aj, bj) := ApplyPerm(perm, rj, cj);
    DeindexIndex(ai, bi);
    DeindexIndex(aj, bj);
    PermInverse(perm, ri, ci);
    PermInverse(perm, rj, cj);
  }

  // ---------------------------------------------------------------------------
  // Canonical key

  /** Fingerprint of the image of board under perm. */
  function ImageHash(perm: int, board: seq<int>): int
    requires |board| == 9
  {
    HashOf(PermutedBoard(perm, board))
  }

  /** Smallest image fingerprint over the codes 0..n-1. */
  function MinImage(board: seq<int>, n: nat): (m: int)
    requires |board| == 9 && 1 <= n <= 8
  {
    if n == 1 then ImageHash(0, board)
    else
      var m := MinImage(board, n - 1);
      var h := ImageHash(n - 1, board);
      if h < m then h else m
  }

  /** MinImage is a lower bound of the image fingerprints that one of them reaches. */
  lemma {:induction false} MinImageSpec(board: seq<int>, n: nat)
    requires |board| == 9 && 1 <= n <= 8
    ensures forall p :: 0 <= p < n ==> MinImage(board, n) <= ImageHash(p, board)
    ensures exists p :: 0 <= p < n && MinImage(board, n) == ImageHash(p, board)
  {
    if n == 1 {
      assert MinImage(board, n) == ImageHash(0, board);
    } else {
      MinImageSpec(board, n - 1);
      var p :| 0 <= p < n - 1 && MinImage(board, n - 1) == ImageHash(p, board);
      if ImageHash(n - 1, board) < MinImage(board, n - 1) {
        assert MinImage(board, n) == ImageHash(n - 1, board);
      } else {
        assert MinImage(board, n) == ImageHash(p, board);
      }
    }
  }

  /** First code p' >= p whose image fingerprint is v (8 if none). */
  function FirstPerm(board: seq<int>, v: int, p: nat): (r: nat)
    requires |board| == 9 && p <= 8
    ensures p <= r <= 8
    decreases 8 - p
  {
    if p == 8 then 8
    else if ImageHash(p, board) == v then p
    else FirstPerm(board, v, p + 1)
  }

  /** FirstPerm stops at the first code reaching v; when a code q >= p reaches
      v it stops at or before q. */
  lemma {:induction false} FirstPermSpec(board: seq<int>, v: int, p: nat, q: nat)
    requires |board| == 9 && p <= q < 8 && ImageHash(q, board) == v
    ensures FirstPerm(board, v, p) <= q && ImageHash(FirstPerm(board, v, p), board) == v
    ensures forall k :: p <= k < FirstPerm(board, v, p) ==> ImageHash(k, board) != v
    decreases 8 - p
  {
    var h := ImageHash(p, board);
    if h == v {
      assert FirstPerm(board, v, p) == p;
    } else {
      FirstPermSpec(board, v, p + 1, q);
      var r := FirstPerm(board, v, p + 1);
      assert FirstPerm(board, v, p) == r;
      forall k | p <= k < r
        ensures ImageHash(k, board) != v
      {
        if k == p {
          assert ImageHash(k, board) == h;
        }
      }
    }
  }

  /** Result of Util.MinHash. */
  datatype HashTriple = HashTriple(hash: int, minHash: int, minPerm: int)

  /** Util.MinHash: own fingerprint, the smallest fingerprint over the eight
      images (MinHashSpec), and the first code reaching it. */
  function MinHash(board: seq<int>): (r: HashTriple)
    requires |board| == 9
    ensures r.hash == HashOf(board)
    ensures 0 <= r.minPerm < 8 && r.minHash == ImageHash(r.minPerm, board)
  {
    PermutedIdentity(board);
    var m := MinImage(board, 8);
    MinImageSpec(board, 8);
    var q :| 0 <= q < 8 && m == ImageHash(q, board);
    FirstPermSpec(board, m, 0, q);
    HashTriple(ImageHash(0, board), m, FirstPerm(board, m, 0))
  }

  /** minHash is the smallest image fingerprint and minPerm the first code
      reaching it. */
  lemma MinHashSpec(board: seq<int>)
    requires |board| == 9
    ensures forall p :: 0 <= p < 8 ==> MinHash(board).minHash <= ImageHash(p, board)
    ensures forall p :: 0 <= p < MinHash(board).minPerm ==> ImageHash(p, board) != MinHash(board).minHash
  {
    var m := MinImage(board, 8);
    MinImageSpec(board, 8);
    var q :| 0 <= q < 8 && m == ImageHash(q, board);
    FirstPermSpec(board, m, 0, q);
  }

  /** The canonical board is the image by minPerm: Dehash(minHash) recovers it. */
  lemma CanonicalBoard(board: seq<int>)
    requires ValidBoard(board)
    ensures 0 <= MinHash(board).minHash < BoardCount
    ensures DehashOf(MinHash(board).minHash) == PermutedBoard(MinHash(board).minPerm, board)
  {
    PermutedValid(MinHash(board).minPerm, board);
    HashRoundTrip(PermutedBoard(MinHash(board).minPerm, board));
  }

  /** Boards that are images of each other have the same canonical key. */
  lemma MinHashInvariant(q: int, board: seq<int>)
    requires |board| == 9 && 0 <= q < 8
    ensures MinHash(PermutedBoard(q, board)).minHash == MinHash(board).minHash
  {
    var b' := PermutedBoard(q, board);
    MinHashSpec(board);
    MinHashSpec(b');
    var m, m' := MinHash(board).minHash, MinHash(b').minHash;
    // every image of b' is an image of board
    forall p | 0 <= p < 8
      ensures ImageHash(p, b') == ImageHash(Compose(q, p), board)
    {
      PermutedCompose(p, q, board);
    }
    var p' := MinHash(b').minPerm;
    ComposeApply(q, p', 0, 0);
    assert m <= m';
    // every image of board is an image of b'
    var t := MinHash(board).minPerm;
    ComposeOnto(q, t);
    var p := Compose(InverseCode(q), t);
    assert ImageHash(p, b') == m;
    assert m' <= m;
  }

  /** Canonical key is idempotent: the canonical board is its own canonical form. */
  lemma MinHashIdempotent(board: seq<int>)
    requires ValidBoard(board)
    ensures MinHash(DehashOf(MinHash(board).minHash)).minHash == MinHash(board).minHash
    ensures HashOf(DehashOf(MinHash(board).minHash)) == MinHash(board).minHash
  {
    CanonicalBoard(board);
    MinHashInvariant(MinHash(board).minPerm, board);
    DehashRoundTrip(MinHash(board).minHash);
  }

  /** A board is canonical when no image has a smaller fingerprint. */
  predicate Canonical(board: seq<int>)
    requires |board| == 9
  {
    forall p :: 0 <= p < 8 ==> HashOf(board) <= ImageHash(p, board)
  }

  /** Canonical boards are exactly those whose canonical key is their own
      fingerprint. */
  lemma CanonicalKey(board: seq<int>)
    requires |board| == 9
    ensures Canonical(board) <==> MinHash(board).minHash == HashOf(board)
  {
    MinHashSpec(board);
    PermutedIdentity(board);
    assert ImageHash(0, board) == HashOf(board);
  }

  /** The image by minPerm is canonical and keeps the canonical key. */
  lemma CanonicalImage(board: seq<int>)
    requires |board| == 9
    ensures HashOf(PermutedBoard(MinHash(board).minPerm, board)) == MinHash(board).minHash
    ensures Canonical(PermutedBoard(MinHash(board).minPerm, board))
  {
    var c := PermutedBoard(MinHash(board).minPerm, board);
    MinHashInvariant(MinHash(board).minPerm, board);
    CanonicalKey(c);
  }

  /** Two valid boards with the same canonical key are images of each other. */
  lemma SameKeySymmetric(a: seq<int>, b: seq<int>)
    requires ValidBoard(a) && ValidBoard(b)
    requires MinHash(a).minHash == MinHash(b).minHash
    ensures PermutedBoard(MinHash(a).minPerm, a) == PermutedBoard(MinHash(b).minPerm, b)
  {
    CanonicalBoard(a);
    CanonicalBoard(b);
  }

  // ---------------------------------------------------------------------------
  // Counting, side to move, legal moves

  function Ind(c: bool): nat
  {
    if c then 1 else 0
  }

  /** Number of cells among the first n that equal v. */
  function CountBelow(b: seq<int>, v: int, n: nat): (c: nat)
    requires n <= |b|
    ensures c <= n
  {
    if n == 0 then 0 else CountBelow(b, v, n - 1) + Ind(b[n - 1] == v)
  }

  /** Number of cells equal to v. */
  function CountOf(b: seq<int>, v: int): (n: nat)
    ensures n <= |b|
  {
    CountBelow(b, v, |b|)
  }

  /** Number of non-empty cells among the first n. */
  function NonEmptyBelow(b: seq<int>, n: nat): (c: nat)
    requires n <= |b|
    ensures c <= n
  {
    if n == 0 then 0 else NonEmptyBelow(b, n - 1) + Ind(b[n - 1] != 0)
  }

  /** Util.Depth: moves made so far, the number of non-empty cells. */
  function Depth(b: seq<int>): (d: nat)
    ensures d <= |b|
  {
    NonEmptyBelow(b, |b|)
  }

  lemma {:induction false} DepthCountsBelow(b: seq<int>, n: nat)
    requires n <= |b|
    ensures NonEmptyBelow(b, n) + CountBelow(b, 0, n) == n
    ensures (forall i :: 0 <= i < n ==> 0 <= b[i] < 3) ==>
              NonEmptyBelow(b, n) == CountBelow(b, Player1, n) + CountBelow(b, Player2, n)
  {
    if n > 0 {
      DepthCountsBelow(b, n - 1);
    }
  }

  /** Depth and the number of empty cells add up to the board size; on a valid
      board, Depth counts the cells of both players. */
  lemma DepthCounts(b: seq<int>)
    ensures Depth(b) + CountOf(b, 0) == |b|
    ensures ValidCells(b) ==> Depth(b) == CountOf(b, Player1) + CountOf(b, Player2)
  {
    DepthCountsBelow(b, |b|);
  }

  lemma CountNine(b: seq<int>, v: int)
    requires |b| == 9
    ensures CountOf(b, v) == Ind(b[0] == v) + Ind(b[1] == v) + Ind(b[2] == v) + Ind(b[3] == v) +
                             Ind(b[4] == v) + Ind(b[5] == v) + Ind(b[6] == v) + Ind(b[7] == v) + Ind(b[8] == v)
  {
    assert CountBelow(b, v, 9) == CountBelow(b, v, 8) + Ind(b[8] == v);
    assert CountBelow(b, v, 8) == CountBelow(b, v, 7) + Ind(b[7] == v);
    assert CountBelow(b, v, 7) == CountBelow(b, v, 6) + Ind(b[6] == v);
    assert CountBelow(b, v, 6) == CountBelow(b, v, 5) + Ind(b[5] == v);
    assert CountBelow(b, v, 5) == CountBelow(b, v, 4) + Ind(b[4] == v);
    assert CountBelow(b, v, 4) == CountBelow(b, v, 3) + Ind(b[3] == v);
    assert CountBelow(b, v, 3) == CountBelow(b, v, 2) + Ind(b[2] == v);
  }

  /** At on cells 0..8, with the three bits of the code given directly. */
  function AtBits(flipRow: bool, flipCol: bool, transpose: bool, i: int): int
  {
    var r := i / 3;
    var c := i % 3;
    var pr := if flipRow then 2 - r else r;
    var pc := if flipCol then 2 - c else c;
    if transpose then pc * 3 + pr else pr * 3 + pc
  }

  lemma AtIsBits(perm: int)
    ensures forall i :: 0 <= i < 9 ==> At(perm, i) == AtBits(FlipRow(perm), FlipCol(perm), Transpose(perm), i)
  {
  }

  /** Cell table of the symmetry with the bits of code 0. */
  lemma AtTable0()
    ensures AtBits(false, false, false, 0) == 0 && AtBits(false, false, false, 1) == 1 && AtBits(false, false, false, 2) == 2 && AtBits(false, false, false, 3) == 3 && AtBits(false, false, false, 4) == 4 && AtBits(false, false, false, 5) == 5 && AtBits(false, false, false, 6) == 6 && AtBits(false, false, false, 7) == 7 && AtBits(false, false, false, 8) == 8
  {
  }

  lemma Reorder0(b: seq<int>, pb: seq<int>, v: int)
    requires |b| == 9 && |pb| == 9
    requires pb[0] == b[0] && pb[1] == b[1] && pb[2] == b[2] && pb[3] == b[3] && pb[4] == b[4] && pb[5] == b[5] && pb[6] == b[6] && pb[7] == b[7] && pb[8] == b[8]
    ensures CountOf(pb, v) == CountOf(b, v)
  {
    CountNine(b, v);
    CountNine(pb, v);
  }

  /** Cell table of the symmetry with the bits of code 1. */
  lemma AtTable1()
    ensures AtBits(true, false, false, 0) == 6 && AtBits(true, false, false, 1) == 7 && AtBits(true, false, false, 2) == 8 && AtBits(true, false, false, 3) == 3 && AtBits(true, false, false, 4) == 4 && AtBits(true, false, false, 5) == 5 && AtBits(true, false, false, 6) == 0 && AtBits(true, false, false, 7) == 1 && AtBits(true, false, false, 8) == 2
  {
  }

  lemma Reorder1(b: seq<int>, pb: seq<int>, v: int)
    requires |b| == 9 && |pb| == 9
    requires pb[0] == b[6] && pb[1] == b[7] && pb[2] == b[8] && pb[3] == b[3] && pb[4] == b[4] && pb[5] == b[5] && pb[6] == b[0] && pb[7] == b[1] && pb[8] == b[2]
    ensures CountOf(pb, v) == CountOf(b, v)
  {
    CountNine(b, v);
    CountNine(pb, v);
  }

  /** Cell table of the symmetry with the bits of code 2. */
  lemma AtTable2()
    ensures AtBits(false, true, false, 0) == 2 && AtBits(false, true, false, 1) == 1 && AtBits(false, true, false, 2) == 0 && AtBits(false, true, false, 3) == 5 && AtBits(false, true, false, 4) == 4 && AtBits(false, true, false, 5) == 3 && AtBits(false, true, false, 6) == 8 && AtBits(false, true, false, 7) == 7 && AtBits(false, true, false, 8) == 6
  {
  }

  lemma Reorder2(b: seq<int>, pb: seq<int>, v: int)
    requires |b| == 9 && |pb| == 9
    requires pb[0] == b[2] && pb[1] == b[1] && pb[2] == b[0] && pb[3] == b[5] && pb[4] == b[4] && pb[5] == b[3] && pb[6] == b[8] && pb[7] == b[7] && pb[8] == b[6]
    ensures CountOf(pb, v) == CountOf(b, v)
  {
    CountNine(b, v);
    CountNine(pb, v);
  }

  /** Cell table of the symmetry with the bits of code 3. */
  lemma AtTable3()
    ensures AtBits(true, true, false, 0) == 8 && AtBits(true, true, false, 1) == 7 && AtBits(true, true, false, 2) == 6 && AtBits(true, true, false, 3) == 5 && AtBits(true, true, false, 4) == 4 && AtBits(true, true, false, 5) == 3 && AtBits(true, true, false, 6) == 2 && AtBits(true, true, false, 7) == 1 && AtBits(true, true, false, 8) == 0
  {
  }

  lemma Reorder3(b: seq<int>, pb: seq<int>, v: int)
    requires |b| == 9 && |pb| == 9
    requires pb[0] == b[8] && pb[1] == b[7] && pb[2] == b[6] && pb[3] == b[5] && pb[4] == b[4] && pb[5] == b[3] && pb[6] == b[2] && pb[7] == b[1] && pb[8] == b[0]
    ensures CountOf(pb, v) == CountOf(b, v)
  {
    CountNine(b, v);
    CountNine(pb, v);
  }

  /** Cell table of the symmetry with the bits of code 4. */
  lemma AtTable4()
    ensures AtBits(false, false, true, 0) == 0 && AtBits(false, false, true, 1) == 3 && AtBits(false, false, true, 2) == 6 && AtBits(false, false, true, 3) == 1 && AtBits(false, false, true, 4) == 4 && AtBits(false, false, true, 5) == 7 && AtBits(false, false, true, 6) == 2 && AtBits(false, false, true, 7) == 5 && AtBits(false, false, true, 8) == 8
  {
  }

  lemma Reorder4(b: seq<int>, pb: seq<int>, v: int)
    requires |b| == 9 && |pb| == 9
    requires pb[0] == b[0] && pb[1] == b[3] && pb[2] == b[6] && pb[3] == b[1] && pb[4] == b[4] && pb[5] == b[7] && pb[6] == b[2] && pb[7] == b[5] && pb[8] == b[8]
    ensures CountOf(pb, v) == CountOf(b, v)
  {
    CountNine(b, v);
    CountNine(pb, v);
  }

  /** Cell table of the symmetry with the bits of code 5. */
  lemma AtTable5()
    ensures AtBits(true, false, true, 0) == 2 && AtBits(true, false, true, 1) == 5 && AtBits(true, false, true, 2) == 8 && AtBits(true, false, true, 3) == 1 && AtBits(true, false, true, 4) == 4 && AtBits(true, false, true, 5) == 7 && AtBits(true, false, true, 6) == 0 && AtBits(true, false, true, 7) == 3 && AtBits(true, false, true, 8) == 6
  {
  }

  lemma Reorder5(b: seq<int>, pb: seq<int>, v: int)
    requires |b| == 9 && |pb| == 9
    requires pb[0] == b[2] && pb[1] == b[5] && pb[2] == b[8] && pb[3] == b[1] && pb[4] == b[4] && pb[5] == b[7] && pb[6] == b[0] && pb[7] == b[3] && pb[8] == b[6]
    ensures CountOf(pb, v) == CountOf(b, v)
  {
    CountNine(b, v);
    CountNine(pb, v);
  }

  /** Cell table of the symmetry with the bits of code 6. */
  lemma AtTable6()
    ensures AtBits(false, true, true, 0) == 6 && AtBits(false, true, true, 1) == 3 && AtBits(false, true, true, 2) == 0 && AtBits(false, true, true, 3) == 7 && AtBits(false, true, true, 4) == 4 && AtBits(false, true, true, 5) == 1 && AtBits(false, true, true, 6) == 8 && AtBits(false, true, true, 7) == 5 && AtBits(false, true, true, 8) == 2
  {
  }

  lemma Reorder6(b: seq<int>, pb: seq<int>, v: int)
    requires |b| == 9 && |pb| == 9
    requires pb[0] == b[6] && pb[1] == b[3] && pb[2] == b[0] && pb[3] == b[7] && pb[4] == b[4] && pb[5] == b[1] && pb[6] == b[8] && pb[7] == b[5] && pb[8] == b[2]
    ensures CountOf(pb, v) == CountOf(b, v)
  {
    CountNine(b, v);
    CountNine(pb, v);
  }

  /** Cell table of the symmetry with the bits of code 7. */
  lemma AtTable7()
    ensures AtBits(true, true, true, 0) == 8 && AtBits(true, true, true, 1) == 5 && AtBits(true, true, true, 2) == 2 && AtBits(true, true, true, 3) == 7 && AtBits(true, true, true, 4) == 4 && AtBits(true, true, true, 5) == 1 && AtBits(true, true, true, 6) == 6 && AtBits(true, true, true, 7) == 3 && AtBits(true, true, true, 8) == 0
  {
  }

  lemma Reorder7(b: seq<int>, pb: seq<int>, v: int)
    requires |b| == 9 && |pb| == 9
    requires pb[0] == b[8] && pb[1] == b[5] && pb[2] == b[2] && pb[3] == b[7] && pb[4] == b[4] && pb[5] == b[1] && pb[6] == b[6] && pb[7] == b[3] && pb[8] == b[0]
    ensures CountOf(pb, v) == CountOf(b, v)
  {
    CountNine(b, v);
    CountNine(pb, v);
  }

  /** The image board, with the three bits of the code given directly. */
  function PermutedByBits(flipRow: bool, flipCol: bool, transpose: bool, board: seq<int>): (b: seq<int>)
    requires |board| == 9
    ensures |b| == 9
  {
    seq(9, i requires 0 <= i < 9 => AtBitsIn(flipRow, flipCol, transpose, i); board[AtBits(flipRow, flipCol, transpose, i)])
  }

  lemma AtBitsIn(flipRow: bool, flipCol: bool, transpose: bool, i: int)
    requires 0 <= i < 9
    ensures 0 <= AtBits(flipRow, flipCol, transpose, i) < 9
  {
  }

  lemma PermutedIsBits(perm: int, board: seq<int>)
    requires |board| == 9
    ensures PermutedBoard(perm, board) == PermutedByBits(FlipRow(perm), FlipCol(perm), Transpose(perm), board)
  {
    AtIsBits(perm);
  }

  lemma BitsCount0(b: seq<int>, v: int)
    requires |b| == 9
    ensures CountOf(PermutedByBits(false, false, false, b), v) == CountOf(b, v)
  {
    var pb := PermutedByBits(false, false, false, b);
    AtTable0();
    assert pb[0] == b[0];
    assert pb[1] == b[1];
    assert pb[2] == b[2];
    assert pb[3] == b[3];
    assert pb[4] == b[4];
    assert pb[5] == b[5];
    assert pb[6] == b[6];
    assert pb[7] == b[7];
    assert pb[8] == b[8];
    Reorder0(b, pb, v);
  }

  lemma BitsCount1(b: seq<int>, v: int)
    requires |b| == 9
    ensures CountOf(PermutedByBits(true, false, false, b), v) == CountOf(b, v)
  {
    var pb := PermutedByBits(true, false, false, b);
    AtTable1();
    assert pb[0] == b[6];
    assert pb[1] == b[7];
    assert pb[2] == b[8];
    assert pb[3] == b[3];
    assert pb[4] == b[4];
    assert pb[5] == b[5];
    assert pb[6] == b[0];
    assert pb[7] == b[1];
    assert pb[8] == b[2];
    Reorder1(b, pb, v);
  }

  lemma BitsCount2(b: seq<int>, v: int)
    requires |b| == 9
    ensures CountOf(PermutedByBits(false, true, false, b), v) == CountOf(b, v)
  {
    var pb := PermutedByBits(false, true, false, b);
    AtTable2();
    assert pb[0] == b[2];
    assert pb[1] == b[1];
    assert pb[2] == b[0];
    assert pb[3] == b[5];
    assert pb[4] == b[4];
    assert pb[5] == b[3];
    assert pb[6] == b[8];
    assert pb[7] == b[7];
    assert pb[8] == b[6];
    Reorder2(b, pb, v);
  }

  lemma BitsCount3(b: seq<int>, v: int)
    requires |b| == 9
    ensures CountOf(PermutedByBits(true, true, false, b), v) == CountOf(b, v)
  {
    var pb := PermutedByBits(true, true, false, b);
    AtTable3();
    assert pb[0] == b[8];
    assert pb[1] == b[7];
    assert pb[2] == b[6];
    assert pb[3] == b[5];
    assert pb[4] == b[4];
    assert pb[5] == b[3];
    assert pb[6] == b[2];
    assert pb[7] == b[1];
    assert pb[8] == b[0];
    Reorder3(b, pb, v);
  }

  lemma BitsCount4(b: seq<int>, v: int)
    requires |b| == 9
    ensures CountOf(PermutedByBits(false, false, true, b), v) == CountOf(b, v)
  {
    var pb := PermutedByBits(false, false, true, b);
    AtTable4();
    assert pb[0] == b[0];
    assert pb[1] == b[3];
    assert pb[2] == b[6];
    assert pb[3] == b[1];
    assert pb[4] == b[4];
    assert pb[5] == b[7];
    assert pb[6] == b[2];
    assert pb[7] == b[5];
    assert pb[8] == b[8];
    Reorder4(b, pb, v);
  }

  lemma BitsCount5(b: seq<int>, v: int)
    requires |b| == 9
    ensures CountOf(PermutedByBits(true, false, true, b), v) == CountOf(b, v)
  {
    var pb := PermutedByBits(true, false, true, b);
    AtTable5();
    assert pb[0] == b[2];
    assert pb[1] == b[5];
    assert pb[2] == b[8];
    assert pb[3] == b[1];
    assert pb[4] == b[4];
    assert pb[5] == b[7];
    assert pb[6] == b[0];
    assert pb[7] == b[3];
    assert pb[8] == b[6];
    Reorder5(b, pb, v);
  }

  lemma BitsCount6(b: seq<int>, v: int)
    requires |b| == 9
    ensures CountOf(PermutedByBits(false, true, true, b), v) == CountOf(b, v)
  {
    var pb := PermutedByBits(false, true, true, b);
    AtTable6();
    assert pb[0] == b[6];
    assert pb[1] == b[3];
    assert pb[2] == b[0];
    assert pb[3] == b[7];
    assert pb[4] == b[4];
    assert pb[5] == b[1];
    assert pb[6] == b[8];
    assert pb[7] == b[5];
    assert pb[8] == b[2];
    Reorder6(b, pb, v);
  }

  lemma BitsCount7(b: seq<int>, v: int)
    requires |b| == 9
    ensures CountOf(PermutedByBits(true, true, true, b), v) == CountOf(b, v)
  {
    var pb := PermutedByBits(true, true, true, b);
    AtTable7();
    assert pb[0] == b[8];
    assert pb[1] == b[5];
    assert pb[2] == b[2];
    assert pb[3] == b[7];
    assert pb[4] == b[4];
    assert pb[5] == b[1];
    assert pb[6] == b[6];
    assert pb[7] == b[3];
    assert pb[8] == b[0];
    Reorder7(b, pb, v);
  }

  /** A symmetry keeps the number of cells of each value, hence the depth. */
  lemma PermutedCount(perm: int, b: seq<int>, v: int)
    requires |b| == 9
    ensures CountOf(PermutedBoard(perm, b), v) == CountOf(b, v)
    ensures Depth(PermutedBoard(perm, b)) == Depth(b)
  {
    DepthCounts(b);
    DepthCounts(PermutedBoard(perm, b));
    PermutedIsBits(perm, b);
    if !FlipRow(perm) && !FlipCol(perm) && !Transpose(perm) {
      BitsCount0(b, v);
      BitsCount0(b, 0);
    } else if FlipRow(perm) && !FlipCol(perm) && !Transpose(perm) {
      BitsCount1(b, v);
      BitsCount1(b, 0);
    } else if !FlipRow(perm) && FlipCol(perm) && !Transpose(perm) {
      BitsCount2(b, v);
      BitsCount2(b, 0);
    } else if FlipRow(perm) && FlipCol(perm) && !Transpose(perm) {
      BitsCount3(b, v);
      BitsCount3(b, 0);
    } else if !FlipRow(perm) && !FlipCol(perm) && Transpose(perm) {
      BitsCount4(b, v);
      BitsCount4(b, 0);
    } else if FlipRow(perm) && !FlipCol(perm) && Transpose(perm) {
      BitsCount5(b, v);
      BitsCount5(b, 0);
    } else if !FlipRow(perm) && FlipCol(perm) && Transpose(perm) {
      BitsCount6(b, v);
      BitsCount6(b, 0);
    } else {
      BitsCount7(b, v);
      BitsCount7(b, 0);
    }
  }

  lemma {:induction false} NonEmptyBelowUpdate(b: seq<int>, m: int, v: int, n: nat)
    requires n <= |b| && 0 <= m < |b| && b[m] == 0 && v != 0
    ensures NonEmptyBelow(b[m := v], n) == NonEmptyBelow(b, n) + (if m < n then 1 else 0)
  {
    if n > 0 {
      NonEmptyBelowUpdate(b, m, v, n - 1);
    }
  }

  /** Placing a piece on an empty cell adds one move and removes one empty cell. */
  lemma DepthUpdate(b: seq<int>, m: int, v: int)
    requires 0 <= m < |b| && b[m] == 0 && v != 0
    ensures Depth(b[m := v]) == Depth(b) + 1
    ensures CountOf(b[m := v], 0) + 1 == CountOf(b, 0)
  {
    NonEmptyBelowUpdate(b, m, v, |b|);
    DepthCounts(b);
    DepthCounts(b[m := v]);
  }

  /** Util.ToMove. The Trace.Assert on the piece counts is its precondition. */
  function ToMove(b: seq<int>): (p: int)
    requires CountOf(b, Player1) == CountOf(b, Player2) || CountOf(b, Player1) - 1 == CountOf(b, Player2)
    ensures p == Player1 <==> CountOf(b, Player1) == CountOf(b, Player2)
    ensures p == Player2 <==> CountOf(b, Player1) == CountOf(b, Player2) + 1
  {
    var p1 := CountOf(b, Player1);
    var p2 := CountOf(b, Player2);
    if (p1 + p2) % 2 == 1 then Player2 else Player1
  }

  /** Util.NextPlayer. */
  function NextPlayer(player: int): int
  {
    if player == Player1 then Player2 else Player1
  }

  /** Strictly increasing. */
  predicate Increasing(s: seq<int>)
  {
    forall i, j :: 0 <= i < j < |s| ==> s[i] < s[j]
  }

  /** The indices k < n with b[k] == 0, ascending. */
  function EmptyBelow(b: seq<int>, n: nat): (r: seq<int>)
    requires n <= |b|
    ensures forall m :: m in r <==> 0 <= m < n && b[m] == 0
    ensures Increasing(r)
    ensures |r| + NonEmptyBelow(b, n) == n
  {
    if n == 0 then []
    else
      var rest := EmptyBelow(b, n - 1);
      forall j | 0 <= j < |rest|
        ensures rest[j] < n - 1
      {
        assert rest[j] in rest;
      }
      if b[n - 1] == 0 then rest + [n - 1] else rest
  }

  /** Util.LegalMoves: the empty cells in ascending order. */
  function LegalMoves(b: seq<int>): (r: seq<int>)
    ensures forall m :: m in r <==> 0 <= m < |b| && b[m] == 0
    ensures Increasing(r)
    ensures |r| == |b| - Depth(b)
  {
    EmptyBelow(b, |b|)
  }

  // ---------------------------------------------------------------------------
  // Outcome codes

  /** Util.runs: the eight lines, three cells each: rows, columns, diagonals. */
  const Runs: seq<int> := [0, 1, 2, 3, 4, 5, 6, 7, 8,
                           0, 3, 6, 1, 4, 7, 2, 5, 8,
                           0, 4, 8,
                           2, 4, 6]

  lemma RunsInRange()
    ensures |Runs| == 24
    ensures forall t :: 0 <= t < |Runs| ==> 0 <= Runs[t] < 9
  {
  }

  /** Line k (0..7) holds three equal non-empty cells. */
  predicate RunComplete(b: seq<int>, k: int)
    requires |b| == 9 && 0 <= k < 8
  {
    var (x, y, z) := (b[Runs[3 * k]], b[Runs[3 * k + 1]], b[Runs[3 * k + 2]]);
    x == y && y == z && z != 0
  }

  /** The code for a completed line k: 1 + k, negated for player 2. */
  function LineCode(b: seq<int>, k: int): int
    requires |b| == 9 && 0 <= k < 8
  {
    if LineOwner(b, k) == 2 then -(1 + k) else 1 + k
  }

  /** The first cell of line k. */
  function LineOwner(b: seq<int>, k: int): int
    requires |b| == 9 && 0 <= k < 8
  {
    b[Runs[3 * k]]
  }

  /** The code of the first completed line at or after k, 0 if none. */
  function FirstRun(b: seq<int>, k: nat): int
    requires |b| == 9 && k <= 8
    decreases 8 - k
  {
    if k == 8 then 0
    else if RunComplete(b, k) then LineCode(b, k)
    else FirstRun(b, k + 1)
  }

  /** The outcome code that Util.Outcome returns. */
  function OutcomeCode(b: seq<int>): int
    requires |b| == 9
  {
    if Depth(b) == 9 then 9 else FirstRun(b, 0)
  }

  /** No line k' with k <= k' < j is complete. */
  predicate NoRunIn(b: seq<int>, k: int, j: int)
    requires |b| == 9 && 0 <= k && j <= 8
  {
    forall i :: k <= i < j ==> !RunComplete(b, i)
  }

  /** The line index coded by a non-zero line code. */
  function LineOf(code: int): int
  {
    (if code < 0 then -code else code) - 1
  }

  lemma {:induction false} FirstRunSpec(b: seq<int>, k: nat)
    requires |b| == 9 && k <= 8
    ensures FirstRun(b, k) == 0 <==> NoRunIn(b, k, 8)
    ensures FirstRun(b, k) != 0 ==>
              k <= LineOf(FirstRun(b, k)) < 8 && RunComplete(b, LineOf(FirstRun(b, k))) &&
              FirstRun(b, k) == LineCode(b, LineOf(FirstRun(b, k))) && NoRunIn(b, k, LineOf(FirstRun(b, k)))
    decreases 8 - k
  {
    if k < 8 {
      if RunComplete(b, k) {
        assert LineOf(LineCode(b, k)) == k;
      } else {
        FirstRunSpec(b, k + 1);
        var r := FirstRun(b, k + 1);
        assert FirstRun(b, k) == r;
        NoRunInStep(b, k, 8);
        if r != 0 {
          NoRunInStep(b, k, LineOf(r));
        }
      }
    }
  }

  lemma NoRunInStep(b: seq<int>, k: nat, j: int)
    requires |b| == 9 && k < j <= 8
    ensures NoRunIn(b, k, j) <==> !RunComplete(b, k) && NoRunIn(b, k + 1, j)
  {
  }

  /** What an outcome code means: 9 for a full board, checked first; otherwise
      the code of the first completed line in `runs` order, negative for player 2;
      otherwise 0. */
  lemma OutcomeMeaning(board: seq<int>)
    requires |board| == 9
    ensures Depth(board) == 9 ==> OutcomeCode(board) == 9
    ensures Depth(board) < 9 && OutcomeCode(board) == 0 ==> NoRunIn(board, 0, 8)
    ensures Depth(board) < 9 && OutcomeCode(board) != 0 ==>
              0 <= LineOf(OutcomeCode(board)) < 8 && RunComplete(board, LineOf(OutcomeCode(board))) &&
              (OutcomeCode(board) < 0 <==> LineOwner(board, LineOf(OutcomeCode(board))) == Player2) &&
              NoRunIn(board, 0, LineOf(OutcomeCode(board)))
  {
    FirstRunSpec(board, 0);
  }

  /** Line k read at offset t == 3 * k of Runs, as Util.Outcome's loop reads it. */
  lemma RunAt(b: seq<int>, k: int, t: int)
    requires |b| == 9 && 0 <= k < 8 && t == 3 * k
    ensures t / 3 == k && 0 <= Runs[t] < 9 && 0 <= Runs[t + 1] < 9 && 0 <= Runs[t + 2] < 9
    ensures RunComplete(b, k) <==>
              b[Runs[t]] == b[Runs[t + 1]] && b[Runs[t + 1]] == b[Runs[t + 2]] && b[Runs[t + 2]] != 0
    ensures FirstRun(b, k) ==
              if RunComplete(b, k) then (if b[Runs[t]] == 2 then -(1 + t / 3) else 1 + t / 3)
              else FirstRun(b, k + 1)
  {
    RunsInRange();
  }

  /** Util.Outcome. */
  method Outcome(board: seq<int>) returns (it: int)
    requires |board| == 9
    ensures it == OutcomeCode(board)
  {
    if Depth(board) == 9 {
      return 9;
    }
    var t := 0;
    ghost var k := 0;
    while t < |Runs|
      invariant 0 <= k <= 8 && t == 3 * k
      invariant FirstRun(board, k) == FirstRun(board, 0)
    {
      RunAt(board, k, t);
      var (a, b, c) := (board[Runs[t]], board[Runs[t + 1]], board[Runs[t + 2]]);
      if a == b && b == c && c != 0 {
        it := 1 + t / 3;
        if a == 2 {
          it := -it;
        }
        return;
      }
      t := t + 3;
      k := k + 1;
    }
    it := 0;
  }
}
