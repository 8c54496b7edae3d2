/** The computer players of Play.cs. A table or tree player decides its move on
    the canonical image of the board and maps the move back to the caller's
    orientation; the all-positions player prefers moves to positions it has
    not produced before. */
module Play {
  import opened Util
  import opened Nodes
  import opened Wrappers
  import Misc

  /** IPlayer.GetMove's answer: a cell, and whether to stop the games. */
  datatype Reply = Reply(move: int, exit: bool)

  /** Program.TableEntry: a canonical key, the move to play on the canonical
      board, and the game result. */
  datatype TableEntry = TableEntry(minHash: int, bestMove: int, result: int)

  /** The messages of the exceptions the players can raise: First without a
      match, a dictionary lookup of a missing key, and a list index out of
      range. The runtime writes the missing key between "key" and "was"; the
      model keeps the message without it. */
  const NoMatch := "Sequence contains no matching element"
  const NoKey := "The given key was not present in the dictionary."
  const OutOfRange := "Index was out of range. Must be non-negative and less than the size of the collection. (Parameter 'index')"

  // ---------------------------------------------------------------------------
  // From the canonical board back to the caller's

  /** A move m decided on the image of board under perm is the caller's cell
      At(perm, m): it holds the piece the image shows at m, and playing it then
      taking the image is playing m on the image. */
  lemma MoveBack(perm: int, board: seq<int>, m: int, p: int)
    requires |board| == 9 && 0 <= m < 9
    ensures 0 <= At(perm, m) < 9
    ensures board[At(perm, m)] == PermutedBoard(perm, board)[m]
    ensures PermutedBoard(perm, board[At(perm, m) := p]) == PermutedBoard(perm, board)[m := p]
  {
    var a := At(perm, m);
    var b' := board[a := p];
    forall i | 0 <= i < 9
      ensures PermutedBoard(perm, b')[i] == PermutedBoard(perm, board)[m := p][i]
    {
      if At(perm, i) == a {
        AtInjective(perm, i, m);
      }
    }
  }

  // ---------------------------------------------------------------------------
  // TablePlayer

  /** The first entry at or after i whose key is key; |tbl| when there is none. */
  function FirstEntry(tbl: seq<TableEntry>, key: int, i: nat): (r: nat)
    requires i <= |tbl|
    ensures i <= r <= |tbl|
    decreases |tbl| - i
  {
    if i == |tbl| then i
    else if tbl[i].minHash == key then i
    else FirstEntry(tbl, key, i + 1)
  }

  lemma {:induction false} FirstEntrySpec(tbl: seq<TableEntry>, key: int, i: nat)
    requires i <= |tbl|
    ensures forall j :: i <= j < FirstEntry(tbl, key, i) ==> tbl[j].minHash != key
    ensures FirstEntry(tbl, key, i) < |tbl| ==> tbl[FirstEntry(tbl, key, i)].minHash == key
    decreases |tbl| - i
  {
    if i < |tbl| && tbl[i].minHash != key {
      FirstEntrySpec(tbl, key, i + 1);
    }
  }

  /** The answer of the table for canonical key key and symmetry perm: the
      first entry with that key, its move mapped back through perm. */
  function TableLookup(tbl: seq<TableEntry>, key: int, perm: int): Result<Reply>
  {
    var i := FirstEntry(tbl, key, 0);
    if i == |tbl| then Err(NoMatch)
    else Ok(Reply(At(perm, tbl[i].bestMove), false))
  }

  /** TablePlayer.GetMove: the table's answer for the board's canonical key and
      minPerm. */
  function TableMove(tbl: seq<TableEntry>, board: seq<int>): Result<Reply>
    requires |board| == 9
  {
    var t := MinHash(board);
    TableLookup(tbl, t.minHash, t.minPerm)
  }

  /** The table fails exactly when no entry has the key. */
  lemma TableLookupFails(tbl: seq<TableEntry>, key: int, perm: int)
    ensures TableLookup(tbl, key, perm).Err? <==> forall j :: 0 <= j < |tbl| ==> tbl[j].minHash != key
    ensures TableLookup(tbl, key, perm).Err? ==> TableLookup(tbl, key, perm).message == NoMatch
  {
    FirstEntrySpec(tbl, key, 0);
  }

  /** Otherwise it answers from the first entry that has the key, mapping the
      entry's move back through perm. */
  lemma TableLookupFirst(tbl: seq<TableEntry>, key: int, perm: int)
    requires TableLookup(tbl, key, perm).Ok?
    ensures exists j :: 0 <= j < |tbl| && tbl[j].minHash == key &&
                        (forall i :: 0 <= i < j ==> tbl[i].minHash != key) &&
                        TableLookup(tbl, key, perm).value == Reply(At(perm, tbl[j].bestMove), false)
  {
    FirstEntrySpec(tbl, key, 0);
    var i := FirstEntry(tbl, key, 0);
    assert TableLookup(tbl, key, perm).value == Reply(At(perm, tbl[i].bestMove), false);
  }

  /** Every entry's move is an empty cell of the canonical board of its key. */
  predicate TableValid(tbl: seq<TableEntry>)
  {
    forall j :: 0 <= j < |tbl| ==> 0 <= tbl[j].bestMove < 9 && DehashOf(tbl[j].minHash)[tbl[j].bestMove] == 0
  }

  /** When the table's moves are empty cells of their canonical boards, the
      table player's move is a legal move of the caller's board, and the
      position it leads to is, up to symmetry, the table's. */
  lemma TableMoveLegal(tbl: seq<TableEntry>, board: seq<int>, p: int)
    requires ValidBoard(board) && TableMove(tbl, board).Ok?
    requires TableValid(tbl)
    ensures TableMove(tbl, board).value.move in LegalMoves(board)
    ensures var e := tbl[FirstEntry(tbl, MinHash(board).minHash, 0)];
            PermutedBoard(MinHash(board).minPerm, board[TableMove(tbl, board).value.move := p]) ==
            DehashOf(e.minHash)[e.bestMove := p]
  {
    var t := MinHash(board);
    FirstEntrySpec(tbl, t.minHash, 0);
    var e := tbl[FirstEntry(tbl, t.minHash, 0)];
    CanonicalBoard(board);
    MoveBack(t.minPerm, board, e.bestMove, p);
  }

  // ---------------------------------------------------------------------------
  // TreePlayer

  /** The node TreePlayer.GetMove consults: the one registered under the
      board's own fingerprint, else the one under its canonical key. */
  function Found(nodes: map<int, Node>, t: HashTriple): Option<Node>
  {
    if t.hash in nodes then Some(nodes[t.hash])
    else if t.minHash in nodes then Some(nodes[t.minHash])
    else None
  }

  /** The w-th element of a non-empty list, as ms[rand.Next(ms.Count)] with w
      the random value. */
  function Pick(ms: seq<int>, w: nat): (r: int)
    requires ms != []
    ensures r in ms
  {
    ms[w % |ms|]
  }

  lemma ModSmall(a: nat, n: nat)
    requires a < n
    ensures a % n == a
  {
  }

  /** TreePlayer.GetMove with the random value w: a best move of the node
      found, played as is when it was found by the board's own fingerprint and
      mapped back through minPerm when found by the canonical key. */
  function TreeMove(nodes: map<int, Node>, board: seq<int>, w: nat): (r: Result<Reply>)
    requires |board| == 9
  {
    var t := MinHash(board);
    match Found(nodes, t)
    case None => Err(NoKey)
    case Some(b) =>
      if b.bestMoves == [] then Err(OutOfRange)
      else
        var next := Pick(b.bestMoves, w);
        Ok(Reply(if t.hash in nodes then next else At(t.minPerm, next), false))
  }

  /** The tree player fails with a missing key exactly when neither fingerprint
      is registered, and with an index error exactly when the node found has
      no best move. */
  lemma TreeMoveErrors(nodes: map<int, Node>, board: seq<int>, w: nat)
    requires |board| == 9
    ensures TreeMove(nodes, board, w) == Err(NoKey) <==>
              MinHash(board).hash !in nodes && MinHash(board).minHash !in nodes
    ensures TreeMove(nodes, board, w) == Err(OutOfRange) <==>
              (MinHash(board).hash in nodes && nodes[MinHash(board).hash].bestMoves == []) ||
              (MinHash(board).hash !in nodes && MinHash(board).minHash in nodes && nodes[MinHash(board).minHash].bestMoves == [])
  {
    var t := MinHash(board);
    assert NoKey != OutOfRange;
  }

  /** The tree player's answers are exactly the best moves of the node it
      finds, the t-th for the random value t: as they are for a node found by
      the board's own fingerprint, mapped back through minPerm for one found
      by the canonical key. */
  lemma TreeMoveChoices(nodes: map<int, Node>, board: seq<int>, t: nat)
    requires |board| == 9
    ensures MinHash(board).hash in nodes && t < |nodes[MinHash(board).hash].bestMoves| ==>
              TreeMove(nodes, board, t) == Ok(Reply(nodes[MinHash(board).hash].bestMoves[t], false))
    ensures MinHash(board).hash !in nodes && MinHash(board).minHash in nodes &&
            t < |nodes[MinHash(board).minHash].bestMoves| ==>
              TreeMove(nodes, board, t) ==
                Ok(Reply(At(MinHash(board).minPerm, nodes[MinHash(board).minHash].bestMoves[t]), false))
  {
    var h := MinHash(board);
    match Found(nodes, h)
    case None =>
    case Some(b) =>
      if t < |b.bestMoves| {
        ModSmall(t, |b.bestMoves|);
      }
  }

  /** Every random value gives the answer of one below the number of best
      moves, so TreeMoveChoices lists all the answers. */
  lemma TreeMoveReduced(nodes: map<int, Node>, board: seq<int>, w: nat)
    requires |board| == 9 && TreeMove(nodes, board, w).Ok?
    ensures Found(nodes, MinHash(board)).Some?
    ensures var n := |Found(nodes, MinHash(board)).value.bestMoves|;
            n > 0 && TreeMove(nodes, board, w) == TreeMove(nodes, board, w % n)
  {
    var h := MinHash(board);
    var b := Found(nodes, h).value;
    var u := w % |b.bestMoves|;
    ModSmall(u, |b.bestMoves|);
    assert Pick(b.bestMoves, w) == Pick(b.bestMoves, u);
  }

  /** Every registered node carries a valid board whose fingerprint is its key,
      and its best moves are empty cells of that board. */
  predicate Keyed(nodes: map<int, Node>)
  {
    forall key :: key in nodes ==>
      ValidBoard(nodes[key].board) && HashOf(nodes[key].board) == key &&
      forall t :: 0 <= t < |nodes[key].bestMoves| ==>
        0 <= nodes[key].bestMoves[t] < 9 && nodes[key].board[nodes[key].bestMoves[t]] == 0
  }

  /** Over such a dictionary the tree player's move is legal on the caller's
      board: the node found by the canonical key holds the board's canonical
      image, and the move is mapped back from it. */
  lemma TreeMoveLegal(nodes: map<int, Node>, board: seq<int>, w: nat)
    requires ValidBoard(board) && Keyed(nodes) && TreeMove(nodes, board, w).Ok?
    ensures TreeMove(nodes, board, w).value.move in LegalMoves(board)
  {
    var t := MinHash(board);
    if t.hash in nodes {
      HashInjective(nodes[t.hash].board, board);
      var m := Pick(nodes[t.hash].bestMoves, w);
      assert 0 <= m < 9 && board[m] == 0;
    } else {
      var b := nodes[t.minHash];
      var m := Pick(b.bestMoves, w);
      assert 0 <= m < 9 && b.board[m] == 0;
      CanonicalBoard(board);
      HashRoundTrip(b.board);
      assert b.board == PermutedBoard(t.minPerm, board);
      MoveBack(t.minPerm, board, m, 0);
      assert TreeMove(nodes, board, w).value.move == At(t.minPerm, m);
    }
  }

  // ---------------------------------------------------------------------------
  // RandomPlayer

  /** RandomPlayer: its Random is the stream rand, of which draws values have
      been used. */
  class RandomPlayer {
    const rand: Misc.Oracle
    var draws: nat

    constructor (rand: Misc.Oracle)
      ensures this.rand == rand && draws == 0
    {
      this.rand := rand;
      draws := 0;
    }

    /** RandomPlayer.GetMove: a legal move picked by the next draw; a board
        without legal moves makes the list access fail. */
    method GetMove(board: array<int>) returns (r: Result<Reply>)
      modifies this
      ensures draws == old(draws) + 1
      ensures r.Ok? <==> LegalMoves(board[..]) != []
      ensures r.Ok? ==> r.value.move in LegalMoves(board[..]) && !r.value.exit
      ensures r.Ok? ==> r.value.move == LegalMoves(board[..])[Misc.Draw(rand, old(draws), |LegalMoves(board[..])|)]
      ensures r.Err? ==> r.message == OutOfRange
    {
      var legal := LegalMoves(board[..]);
      var k := draws;
      draws := draws + 1;
      if legal == [] {
        return Err(OutOfRange);
      }
      var w := Misc.Draw(rand, k, |legal|);
      return Ok(Reply(legal[w], false));
    }
  }

  // ---------------------------------------------------------------------------
  // AllPosPlayer

  /** b with piece p at cell m (b itself for a cell off the board). */
  function Placed(b: seq<int>, m: int, p: int): (r: seq<int>)
    ensures |r| == |b|
  {
    if 0 <= m < |b| then b[m := p] else b
  }

  /** The first move of ms whose resulting position has an unseen fingerprint. */
  function FirstUnseen(b: seq<int>, p: int, seen: set<int>, ms: seq<int>): Option<int>
    decreases |ms|
  {
    if ms == [] then None
    else if HashOf(Placed(b, ms[0], p)) !in seen then Some(ms[0])
    else FirstUnseen(b, p, seen, ms[1..])
  }

  /** FirstUnseen finds a move whose position is unseen, every earlier move
      leading to a seen one, and finds none exactly when every move does. */
  lemma {:induction false} FirstUnseenSpec(b: seq<int>, p: int, seen: set<int>, ms: seq<int>)
    ensures FirstUnseen(b, p, seen, ms).None? <==> forall j :: 0 <= j < |ms| ==> HashOf(Placed(b, ms[j], p)) in seen
    ensures FirstUnseen(b, p, seen, ms).Some? ==>
              exists j :: 0 <= j < |ms| && ms[j] == FirstUnseen(b, p, seen, ms).value &&
                          HashOf(Placed(b, ms[j], p)) !in seen &&
                          forall i :: 0 <= i < j ==> HashOf(Placed(b, ms[i], p)) in seen
    decreases |ms|
  {
    if ms != [] && HashOf(Placed(b, ms[0], p)) in seen {
      FirstUnseenSpec(b, p, seen, ms[1..]);
      assert forall j :: 1 <= j < |ms| ==> ms[j] == ms[1..][j - 1];
      if FirstUnseen(b, p, seen, ms[1..]).Some? {
        var j :| 0 <= j < |ms[1..]| && ms[1..][j] == FirstUnseen(b, p, seen, ms[1..]).value &&
                 HashOf(Placed(b, ms[1..][j], p)) !in seen &&
                 forall i :: 0 <= i < j ==> HashOf(Placed(b, ms[1..][i], p)) in seen;
        assert ms[j + 1] == FirstUnseen(b, p, seen, ms).value;
      }
    }
  }

  /** The trial placement of AllPosPlayer.GetMove: the fingerprint of the
      board with p at the empty cell m, the cell emptied again afterwards. */
  method Probe(board: array<int>, m: int, p: int) returns (hash: int)
    requires 0 <= m < board.Length && board[m] == 0
    modifies board
    ensures board[..] == old(board[..])
    ensures hash == HashOf(Placed(old(board[..]), m, p))
  {
    ghost var b := board[..];
    board[m] := p;
    hash := Hash(board);
    assert board[..] == Placed(b, m, p);
    board[m] := 0;
    assert board[..] == b;
  }

  /** AllPosPlayer: the fingerprints of the positions its moves produced. */
  class AllPosPlayer {
    var seen: set<int>

    constructor ()
      ensures seen == {}
    {
      seen := {};
    }

    /** AllPosPlayer.GetMove: tries each legal move in turn on the board itself,
        undoing it again, and plays the first whose position is unseen,
        recording it; with every position seen it plays the first legal move
        and records nothing. The Trace.Assert of ToMove is a precondition. */
    method GetMove(board: array<int>) returns (r: Result<Reply>)
      requires var b := board[..];
               CountOf(b, Player1) == CountOf(b, Player2) || CountOf(b, Player1) - 1 == CountOf(b, Player2)
      modifies this, board
      ensures board[..] == old(board[..])
      ensures var b := old(board[..]);
              var u := FirstUnseen(b, ToMove(b), old(seen), LegalMoves(b));
              u.Some? ==> r == Ok(Reply(u.value, false)) && seen == old(seen) + {HashOf(Placed(b, u.value, ToMove(b)))}
      ensures var b := old(board[..]);
              var u := FirstUnseen(b, ToMove(b), old(seen), LegalMoves(b));
              u.None? ==> seen == old(seen) &&
                          (r.Ok? <==> LegalMoves(b) != []) &&
                          (r.Ok? ==> r.value == Reply(LegalMoves(b)[0], false)) &&
                          (r.Err? ==> r.message == OutOfRange)
    {
      ghost var b := board[..];
      var legal := LegalMoves(board[..]);
      var tm := ToMove(board[..]);
      for j := 0 to |legal|
        invariant board[..] == b && seen == old(seen)
        invariant FirstUnseen(b, tm, seen, legal) == FirstUnseen(b, tm, seen, legal[j..])
      {
        var m := legal[j];
        assert legal[j..] == [m] + legal[j + 1..];
        assert m in legal;
        var hash := Probe(board, m, tm);
        if hash !in seen {
          assert FirstUnseen(b, tm, seen, legal) == Some(m);
          seen := seen + {hash};
          return Ok(Reply(m, false));
        }
      }
      assert legal[|legal|..] == [];
      assert FirstUnseen(b, tm, seen, legal) == None;
      if legal == [] {
        return Err(OutOfRange);
      }
      return Ok(Reply(legal[0], false));
    }
  }
}
