/** The brute-force knight's tour of knightstour.c: a board of move numbers
    (0 for an unvisited square), the move test, the all-visited test and the
    recursive search that numbers squares and undoes its own write when a
    branch fails. */
module KnightsTour {

  /** Board size and starting square of knightstour.c */
  const NUM_FILES: int := 7
  const NUM_RANKS: int := 7
  const INITIAL_FILE: int := 0
  const INITIAL_RANK: int := 0

  /** Number of squares, the length of a complete tour */
  const SQUARES: int := NUM_FILES * NUM_RANKS

  /** The offsets every knight move is built from */
  const JUMP_COORDS: seq<int> := [1, -1, 2, -2]

  /** A square as (file, rank) */
  type Square = (int, int)

  datatype Option<T> = None | Some(value: T)

  predicate OnBoard(file: int, rank: int) {
    0 <= file < NUM_FILES && 0 <= rank < NUM_RANKS
  }

  function Abs(x: int): int {
    if x < 0 then -x else x
  }

  /** One square along one axis and two along the other */
  predicate KnightMove(files: int, ranks: int) {
    (Abs(files) == 1 && Abs(ranks) == 2) || (Abs(files) == 2 && Abs(ranks) == 1)
  }

  /** visitedSpaces has the board's dimensions */
  predicate Shape(visitedSpaces: array2<int>) {
    visitedSpaces.Length0 == NUM_FILES && visitedSpaces.Length1 == NUM_RANKS
  }

  // ----- The board as a value -----

  ghost function AllSquares(): set<Square> {
    set f, r | 0 <= f < NUM_FILES && 0 <= r < NUM_RANKS :: (f, r)
  }

  /** The contents of visitedSpaces, square by square */
  ghost function Snapshot(visitedSpaces: array2<int>): (m: map<Square, int>)
    reads visitedSpaces
    requires Shape(visitedSpaces)
    ensures m.Keys == AllSquares()
    ensures forall f, r :: OnBoard(f, r) ==> m[(f, r)] == visitedSpaces[f, r]
  {
    map f, r | 0 <= f < NUM_FILES && 0 <= r < NUM_RANKS :: (f, r) := visitedSpaces[f, r]
  }

  /** t is the knight's path so far: its i-th square holds i + 1, every other
      square holds 0, and consecutive squares are a knight's move apart. */
  ghost predicate Tour(m: map<Square, int>, t: seq<Square>) {
    Numbered(m, t) && Indexed(m, t) && Steps(t)
  }

  /** The i-th square of t holds i + 1 */
  ghost predicate Numbered(m: map<Square, int>, t: seq<Square>) {
    forall i :: 0 <= i < |t| ==> t[i] in m && m[t[i]] == i + 1
  }

  /** A square holding n > 0 is the n-th square of t */
  ghost predicate Indexed(m: map<Square, int>, t: seq<Square>) {
    forall sq :: sq in m && m[sq] != 0 ==> 1 <= m[sq] <= |t| && t[m[sq] - 1] == sq
  }

  /** Consecutive squares of t are a knight's move apart */
  ghost predicate Steps(t: seq<Square>) {
    forall i :: 0 < i < |t| ==> KnightMove(t[i].0 - t[i - 1].0, t[i].1 - t[i - 1].1)
  }

  /** A knight's tour: every square visited exactly once, in knight moves */
  ghost predicate Complete(m: map<Square, int>, t: seq<Square>) {
    Tour(m, t) && |t| == SQUARES && forall sq :: sq in m ==> m[sq] != 0
  }

  /** full begins with tour */
  ghost predicate Prefix(full: seq<Square>, tour: seq<Square>) {
    |tour| <= |full| && forall i :: 0 <= i < |tour| ==> full[i] == tour[i]
  }

  /** full continues tour with the square next */
  ghost predicate Extends(full: seq<Square>, tour: seq<Square>, next: Square) {
    Prefix(full, tour) && |tour| < |full| && full[|tour|] == next
  }

  lemma ExtendsAppend(tour: seq<Square>, cur: Square)
    ensures Extends(tour + [cur], tour, cur)
  {
    var full := tour + [cur];
    forall i | 0 <= i < |tour| ensures full[i] == tour[i] {
    }
  }

  /** A path beginning with tour + [cur] continues tour with cur */
  lemma ExtendsShorter(full: seq<Square>, tour: seq<Square>, cur: Square)
    requires Prefix(full, tour + [cur])
    ensures Extends(full, tour, cur)
  {
    assert full[|tour|] == (tour + [cur])[|tour|];
    forall i | 0 <= i < |tour| ensures full[i] == tour[i] {
      assert (tour + [cur])[i] == tour[i];
    }
  }

  /** Writing a square and then writing back its old value changes nothing */
  lemma Restore(m: map<Square, int>, sq: Square, v: int)
    requires sq in m
    ensures m[sq := v][sq := m[sq]] == m
  {
  }

  // ----- Counting squares -----

  ghost function RankSquares(f: int, n: int): set<Square> {
    set r | 0 <= r < n :: (f, r)
  }

  ghost function FirstFiles(n: int): set<Square> {
    set f, r | 0 <= f < n && 0 <= r < NUM_RANKS :: (f, r)
  }

  lemma {:induction false} RankCount(f: int, n: int)
    requires 0 <= n
    ensures |RankSquares(f, n)| == n
  {
    if n == 0 {
      assert RankSquares(f, n) == {};
    } else {
      assert RankSquares(f, n) == RankSquares(f, n - 1) + {(f, n - 1)};
      RankCount(f, n - 1);
    }
  }

  lemma {:induction false} FirstFilesCount(n: int)
    requires 0 <= n
    ensures |FirstFiles(n)| == n * NUM_RANKS
  {
    if n == 0 {
      assert FirstFiles(n) == {};
    } else {
      assert FirstFiles(n) == FirstFiles(n - 1) + RankSquares(n - 1, NUM_RANKS);
      assert FirstFiles(n - 1) * RankSquares(n - 1, NUM_RANKS) == {};
      FirstFilesCount(n - 1);
      RankCount(n - 1, NUM_RANKS);
    }
  }

  /** The board has SQUARES squares */
  lemma BoardCount()
    ensures |AllSquares()| == SQUARES
  {
    FirstFilesCount(NUM_FILES);
    assert AllSquares() == FirstFiles(NUM_FILES);
  }

  ghost function Elems(t: seq<Square>): set<Square> {
    set i | 0 <= i < |t| :: t[i]
  }

  /** A sequence without repeats has as many distinct elements as entries */
  lemma {:induction false} DistinctCount(t: seq<Square>)
    requires forall i, j :: 0 <= i < j < |t| ==> t[i] != t[j]
    ensures |Elems(t)| == |t|
  {
    if |t| > 0 {
      var s := t[..|t| - 1];
      assert Elems(t) == Elems(s) + {t[|t| - 1]};
      assert t[|t| - 1] !in Elems(s);
      DistinctCount(s);
    }
  }

  /** A path over the board never exceeds SQUARES squares; it has exactly
      SQUARES when no square is left at 0, fewer when one is. */
  lemma TourLength(m: map<Square, int>, t: seq<Square>)
    requires m.Keys == AllSquares() && Tour(m, t)
    ensures |t| <= SQUARES
    ensures (forall sq :: sq in m ==> m[sq] != 0) <==> |t| == SQUARES
  {
    BoardCount();
    TourCover(m, t);
  }

  /** The same, counted against the squares m numbers */
  lemma TourCover(m: map<Square, int>, t: seq<Square>)
    requires Tour(m, t)
    ensures |t| <= |m.Keys|
    ensures (forall sq :: sq in m ==> m[sq] != 0) <==> |t| == |m.Keys|
  {
    TourElems(m, t);
    var e := Elems(t);
    if forall sq :: sq in m ==> m[sq] != 0 {
      forall sq | sq in m.Keys ensures sq in e {
        assert t[m[sq] - 1] == sq;
      }
      assert e == m.Keys;
    } else {
      var sq :| sq in m && m[sq] == 0;
      forall i | 0 <= i < |t| ensures t[i] != sq {
        assert m[t[i]] == i + 1;
      }
      StrictSubsetCount(e, m.Keys, sq);
    }
  }

  lemma StrictSubsetCount(a: set<Square>, b: set<Square>, x: Square)
    requires a <= b && x in b && x !in a
    ensures |a| < |b|
  {
    var rest := b - a;
    assert b == a + rest && a * rest == {};
    assert x in rest;
  }

  /** The squares of a path are distinct squares of m */
  lemma TourElems(m: map<Square, int>, t: seq<Square>)
    requires Tour(m, t)
    ensures |Elems(t)| == |t| && Elems(t) <= m.Keys
  {
    forall i, j | 0 <= i < j < |t| ensures t[i] != t[j] {
      assert m[t[i]] == i + 1 && m[t[j]] == j + 1;
    }
    DistinctCount(t);
  }

  /** Numbering a fresh square a knight's move on extends the path */
  lemma TourExtend(m: map<Square, int>, t: seq<Square>, sq: Square)
    requires Tour(m, t) && sq in m && m[sq] == 0
    requires |t| > 0 ==> KnightMove(sq.0 - t[|t| - 1].0, sq.1 - t[|t| - 1].1)
    ensures Tour(m[sq := |t| + 1], t + [sq])
  {
    NumberedExtend(m, t, sq);
    IndexedExtend(m, t, sq);
    StepsExtend(t, sq);
  }

  lemma NumberedExtend(m: map<Square, int>, t: seq<Square>, sq: Square)
    requires Numbered(m, t) && sq in m && m[sq] == 0
    ensures Numbered(m[sq := |t| + 1], t + [sq])
  {
    var m', t' := m[sq := |t| + 1], t + [sq];
    forall i | 0 <= i < |t'| ensures t'[i] in m' && m'[t'[i]] == i + 1 {
      if i < |t| {
        assert t'[i] == t[i] && m[t[i]] == i + 1;
      }
    }
  }

  lemma IndexedExtend(m: map<Square, int>, t: seq<Square>, sq: Square)
    requires Indexed(m, t) && sq in m
    ensures Indexed(m[sq := |t| + 1], t + [sq])
  {
    var m', t' := m[sq := |t| + 1], t + [sq];
    forall x | x in m' && m'[x] != 0 ensures 1 <= m'[x] <= |t'| && t'[m'[x] - 1] == x {
      if x != sq {
        assert m'[x] == m[x];
      }
    }
  }

  lemma StepsExtend(t: seq<Square>, sq: Square)
    requires Steps(t)
    requires |t| > 0 ==> KnightMove(sq.0 - t[|t| - 1].0, sq.1 - t[|t| - 1].1)
    ensures Steps(t + [sq])
  {
    var t' := t + [sq];
    forall i | 0 < i < |t'| ensures KnightMove(t'[i].0 - t'[i - 1].0, t'[i].1 - t'[i - 1].1) {
      if i < |t| {
        assert t'[i] == t[i] && t'[i - 1] == t[i - 1];
      }
    }
  }

  // ----- The moves -----

  /** The offset pairs jump tries, those from JUMP_COORDS whose two parts
      differ in size, are exactly the eight knight moves. */
  lemma KnightOffsets()
    ensures forall i, j :: 0 <= i < 4 && 0 <= j < 4 ==>
      (Abs(JUMP_COORDS[i]) != Abs(JUMP_COORDS[j]) <==> KnightMove(JUMP_COORDS[i], JUMP_COORDS[j]))
    ensures forall files, ranks :: KnightMove(files, ranks) ==>
      exists i, j :: 0 <= i < 4 && 0 <= j < 4 && JUMP_COORDS[i] == files && JUMP_COORDS[j] == ranks
  {
    forall files, ranks | KnightMove(files, ranks)
      ensures exists i, j :: 0 <= i < 4 && 0 <= j < 4 && JUMP_COORDS[i] == files && JUMP_COORDS[j] == ranks
    {
      var i := CoordIndex(files);
      var j := CoordIndex(ranks);
    }
  }

  /** One offset pair jump tries is a knight move */
  lemma OffsetMove(i: int, j: int)
    requires 0 <= i < 4 && 0 <= j < 4 && Abs(JUMP_COORDS[i]) != Abs(JUMP_COORDS[j])
    ensures KnightMove(JUMP_COORDS[i], JUMP_COORDS[j])
  {
  }

  /** Where an offset of size 1 or 2 sits in JUMP_COORDS */
  lemma CoordIndex(x: int) returns (i: int)
    requires Abs(x) == 1 || Abs(x) == 2
    ensures 0 <= i < 4 && JUMP_COORDS[i] == x
  {
    i := if x == 1 then 0 else if x == -1 then 1 else if x == 2 then 2 else 3;
  }

  /** jumpValid as the C evaluates it: the square is read before the bounds
      are checked, so an off-board target is read outside visitedSpaces;
      None marks that read. */
  function JumpValidAsWritten(visitedSpaces: array2<int>, currentFile: int, currentRank: int,
                              jumpFiles: int, jumpRanks: int): (v: Option<bool>)
    reads visitedSpaces
    requires Shape(visitedSpaces)
    ensures v.None? <==> !OnBoard(currentFile + jumpFiles, currentRank + jumpRanks)
  {
    var newFile := currentFile + jumpFiles;
    var newRank := currentRank + jumpRanks;
    if !(0 <= newFile < visitedSpaces.Length0 && 0 <= newRank < visitedSpaces.Length1) then None
    else Some(!(visitedSpaces[newFile, newRank] != 0 || newFile < 0 || newFile >= NUM_FILES ||
                newRank < 0 || newRank >= NUM_RANKS))
  }

  /** From the starting square, the offset (-1, 2), one jump tries, makes
      the C read visitedSpaces[-1][2] */
  lemma OffBoardRead(visitedSpaces: array2<int>)
    requires Shape(visitedSpaces)
    ensures Abs(JUMP_COORDS[1]) != Abs(JUMP_COORDS[2])
    ensures JumpValidAsWritten(visitedSpaces, INITIAL_FILE, INITIAL_RANK, JUMP_COORDS[1], JUMP_COORDS[2]).None?
  {
  }

  /** jumpValid with the bounds checked first: the target square is on the
      board and not yet visited. */
  function JumpValid(visitedSpaces: array2<int>, currentFile: int, currentRank: int,
                     jumpFiles: int, jumpRanks: int): (ok: bool)
    reads visitedSpaces
    requires Shape(visitedSpaces)
    ensures ok <==> OnBoard(currentFile + jumpFiles, currentRank + jumpRanks) &&
                    Snapshot(visitedSpaces)[(currentFile + jumpFiles, currentRank + jumpRanks)] == 0
  {
    var newFile := currentFile + jumpFiles;
    var newRank := currentRank + jumpRanks;
    !(newFile < 0 || newFile >= NUM_FILES || newRank < 0 || newRank >= NUM_RANKS ||
      visitedSpaces[newFile, newRank] != 0)
  }

  /** Wherever the C's evaluation stays on the board it gives JumpValid's answer */
  lemma AsWrittenAgrees(visitedSpaces: array2<int>, currentFile: int, currentRank: int,
                        jumpFiles: int, jumpRanks: int)
    requires Shape(visitedSpaces)
    ensures var v := JumpValidAsWritten(visitedSpaces, currentFile, currentRank, jumpFiles, jumpRanks);
      v.Some? ==> v.value == JumpValid(visitedSpaces, currentFile, currentRank, jumpFiles, jumpRanks)
  {
  }

  /** allVisited: no square of the board still holds 0 */
  method AllVisited(visitedSpaces: array2<int>) returns (visited: bool)
    requires Shape(visitedSpaces)
    ensures visited <==> forall sq :: sq in Snapshot(visitedSpaces) ==> Snapshot(visitedSpaces)[sq] != 0
  {
    var file := 0;
    while file < NUM_FILES
      invariant 0 <= file <= NUM_FILES
      invariant forall f, r :: 0 <= f < file && 0 <= r < NUM_RANKS ==> visitedSpaces[f, r] != 0
    {
      var rank := 0;
      while rank < NUM_RANKS
        invariant 0 <= rank <= NUM_RANKS
        invariant forall r :: 0 <= r < rank ==> visitedSpaces[file, r] != 0
      {
        if visitedSpaces[file, rank] == 0 {
          assert Snapshot(visitedSpaces)[(file, rank)] == 0;
          return false;
        }
        rank := rank + 1;
      }
      file := file + 1;
    }
    assert forall sq :: sq in AllSquares() ==> visitedSpaces[sq.0, sq.1] != 0;
    return true;
  }

  /** One write to the board, seen square by square */
  method SetSquare(visitedSpaces: array2<int>, file: int, rank: int, v: int)
    requires Shape(visitedSpaces) && OnBoard(file, rank)
    modifies visitedSpaces
    ensures Snapshot(visitedSpaces) == old(Snapshot(visitedSpaces))[(file, rank) := v]
  {
    visitedSpaces[file, rank] := v;
  }

  /** jump: numbers the square one offset away from the last one, then tries
      every knight move from it; returns SQUARES once a tour is complete,
      otherwise clears its square and returns -1. */
  method Jump(visitedSpaces: array2<int>, lastDepth: int, lastFile: int, lastRank: int,
              filesJumped: int, ranksJumped: int, ghost tour: seq<Square>)
    returns (returnDepth: int, ghost full: seq<Square>)
    requires Shape(visitedSpaces) && Tour(Snapshot(visitedSpaces), tour) && |tour| == lastDepth
    requires OnBoard(lastFile + filesJumped, lastRank + ranksJumped)
    requires visitedSpaces[lastFile + filesJumped, lastRank + ranksJumped] == 0
    requires |tour| > 0 ==> tour[|tour| - 1] == (lastFile, lastRank) && KnightMove(filesJumped, ranksJumped)
    modifies visitedSpaces
    decreases SQUARES - lastDepth, 1
    ensures returnDepth == -1 || returnDepth == SQUARES
    ensures returnDepth == -1 ==> Snapshot(visitedSpaces) == old(Snapshot(visitedSpaces))
    ensures returnDepth == SQUARES ==>
      Complete(Snapshot(visitedSpaces), full) &&
      Extends(full, tour, (lastFile + filesJumped, lastRank + ranksJumped))
  {
    var depth := lastDepth + 1;
    var currentFile := lastFile + filesJumped;
    var currentRank := lastRank + ranksJumped;
    ghost var cur := (lastFile + filesJumped, lastRank + ranksJumped);
    ghost var before := Snapshot(visitedSpaces);
    SetSquare(visitedSpaces, currentFile, currentRank, depth);
    ghost var path := tour + [cur];
    TourExtend(before, tour, cur);

    var visited := AllVisited(visitedSpaces);
    TourLength(Snapshot(visitedSpaces), path);
    if visited {
      ExtendsAppend(tour, cur);
      return depth, path;
    }

    returnDepth, full := TryMoves(visitedSpaces, depth, currentFile, currentRank, path);
    if returnDepth > 0 {
      ExtendsShorter(full, tour, cur);
      return;
    }

    SetSquare(visitedSpaces, currentFile, currentRank, 0);
    Restore(before, cur, depth);
    return -1, tour;
  }

  /** The loops of jump: every offset pair of JUMP_COORDS whose parts differ
      in size, in order, jumping on from (currentFile, currentRank) wherever
      jumpValid allows; stops at the first jump that completes a tour. */
  method TryMoves(visitedSpaces: array2<int>, depth: int, currentFile: int, currentRank: int,
                  ghost path: seq<Square>)
    returns (returnDepth: int, ghost full: seq<Square>)
    requires Shape(visitedSpaces) && Tour(Snapshot(visitedSpaces), path)
    requires 0 < |path| == depth < SQUARES && path[|path| - 1] == (currentFile, currentRank)
    modifies visitedSpaces
    decreases SQUARES - depth + 1, 0
    ensures returnDepth == -1 || returnDepth == SQUARES
    ensures returnDepth == -1 ==> Snapshot(visitedSpaces) == old(Snapshot(visitedSpaces))
    ensures returnDepth == SQUARES ==> Complete(Snapshot(visitedSpaces), full) && Prefix(full, path)
  {
    var i := 0;
    while i < 4
      invariant 0 <= i <= 4
      invariant Snapshot(visitedSpaces) == old(Snapshot(visitedSpaces))
    {
      var j := 0;
      while j < 4
        invariant 0 <= j <= 4
        invariant Snapshot(visitedSpaces) == old(Snapshot(visitedSpaces))
      {
        var filesToJump := JUMP_COORDS[i];
        var ranksToJump := JUMP_COORDS[j];
        if Abs(filesToJump) == Abs(ranksToJump) {
          // not a knight move: skipped
        } else if JumpValid(visitedSpaces, currentFile, currentRank, filesToJump, ranksToJump) {
          OffsetMove(i, j);
          returnDepth, full := Jump(visitedSpaces, depth, currentFile, currentRank, filesToJump, ranksToJump, path);
          if returnDepth > 0 {
            return;
          }
        }
        j := j + 1;
      }
      i := i + 1;
    }
    return -1, path;
  }

  /** The board of main, every square set to 0 */
  method NewBoard() returns (visitedSpaces: array2<int>)
    ensures fresh(visitedSpaces) && Shape(visitedSpaces)
    ensures Blank(Snapshot(visitedSpaces)) && Tour(Snapshot(visitedSpaces), [])
  {
    visitedSpaces := new int[NUM_FILES, NUM_RANKS];
    var file := 0;
    while file < NUM_FILES
      invariant 0 <= file <= NUM_FILES
      invariant forall f, r :: 0 <= f < file && 0 <= r < NUM_RANKS ==> visitedSpaces[f, r] == 0
    {
      var rank := 0;
      while rank < NUM_RANKS
        invariant 0 <= rank <= NUM_RANKS
        invariant forall f, r :: 0 <= f < file && 0 <= r < NUM_RANKS ==> visitedSpaces[f, r] == 0
        invariant forall r :: 0 <= r < rank ==> visitedSpaces[file, r] == 0
      {
        visitedSpaces[file, rank] := 0;
        rank := rank + 1;
      }
      file := file + 1;
    }
    EmptyTour(visitedSpaces);
  }

  /** No square of m is visited */
  ghost predicate Blank(m: map<Square, int>) {
    forall sq :: sq in m ==> m[sq] == 0
  }

  /** An all-zero board is blank and holds the empty path */
  lemma EmptyTour(visitedSpaces: array2<int>)
    requires Shape(visitedSpaces)
    requires forall f, r :: 0 <= f < NUM_FILES && 0 <= r < NUM_RANKS ==> visitedSpaces[f, r] == 0
    ensures Blank(Snapshot(visitedSpaces)) && Tour(Snapshot(visitedSpaces), [])
  {
    var m := Snapshot(visitedSpaces);
    forall sq | sq in m ensures m[sq] == 0 {
      assert m[(sq.0, sq.1)] == visitedSpaces[sq.0, sq.1];
    }
  }

  /** A blank board holds 0 on every square */
  lemma BlankBoard(visitedSpaces: array2<int>)
    requires Shape(visitedSpaces) && Blank(Snapshot(visitedSpaces))
    ensures forall f, r :: OnBoard(f, r) ==> visitedSpaces[f, r] == 0
  {
    var m := Snapshot(visitedSpaces);
    forall f, r | OnBoard(f, r) ensures visitedSpaces[f, r] == 0 {
      assert (f, r) in m;
    }
  }

  /** The search of main: an all-zero board, then jump from the starting
      square; on success the board holds a knight's tour starting there
      with move 1, otherwise the board is left all zero. */
  method SolveTour() returns (numMoves: int, visitedSpaces: array2<int>, ghost tour: seq<Square>)
    ensures Shape(visitedSpaces)
    ensures numMoves == -1 || numMoves == SQUARES
    ensures numMoves == SQUARES ==> Complete(Snapshot(visitedSpaces), tour) && tour[0] == (INITIAL_FILE, INITIAL_RANK)
    ensures numMoves == -1 ==> forall f, r :: OnBoard(f, r) ==> visitedSpaces[f, r] == 0
  {
    visitedSpaces := NewBoard();
    numMoves, tour := Jump(visitedSpaces, 0, INITIAL_FILE, INITIAL_RANK, 0, 0, []);
    if numMoves == SQUARES {
      assert tour[0] == (INITIAL_FILE, INITIAL_RANK);
    } else {
      BlankBoard(visitedSpaces);
    }
  }
}
