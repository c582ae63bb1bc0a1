/** The board evaluator `checkWinner` (server.js:22-37). */
module Board {

  import opened Common

  datatype Mark = X | O

  /** A board cell: `null` or a mark. */
  datatype Cell = Empty | Marked(mark: Mark)

  /** `Array(9).fill(null)` and everything derived from it by writing cells. */
  type Board = b: seq<Cell> | |b| == 9 witness seq(9, _ => Empty)

  /** A board index, 0..8. */
  type Pos = i: int | 0 <= i < 9

  /** What `checkWinner` returns: `'X'`, `'O'`, `'draw'` or `null` (Ongoing). */
  datatype Outcome = Win(mark: Mark) | Draw | Ongoing

  const EmptyBoard: Board := [Empty, Empty, Empty, Empty, Empty, Empty, Empty, Empty, Empty]

  /** The line table: 3 rows, 3 columns, 2 diagonals, in the order they are checked. */
  const Lines: seq<(Pos, Pos, Pos)> :=
    [(0, 1, 2), (3, 4, 5), (6, 7, 8),
     (0, 3, 6), (1, 4, 7), (2, 5, 8),
     (0, 4, 8), (2, 4, 6)]

  /** The test of server.js:31: the first cell is set and all three cells are equal. */
  predicate Complete(b: Board, line: (Pos, Pos, Pos))
  {
    b[line.0] != Empty && b[line.0] == b[line.1] && b[line.0] == b[line.2]
  }

  /** All three cells of `line` hold `m`. */
  predicate HeldBy(b: Board, line: (Pos, Pos, Pos), m: Mark)
  {
    b[line.0] == Marked(m) && b[line.1] == Marked(m) && b[line.2] == Marked(m)
  }

  /** The mark on the first complete line at index `i` or later. */
  function FirstWin(b: Board, i: nat): Option<Mark>
    decreases |Lines| - i
  {
    if i >= |Lines| then None
    else if Complete(b, Lines[i]) then Some(b[Lines[i].0].mark)
    else FirstWin(b, i + 1)
  }

  /** The value `checkWinner(board)` computes. */
  function Evaluate(b: Board): (r: Outcome)
    ensures r == Ongoing ==> Empty in b
    ensures r == Draw ==> Empty !in b
  {
    match FirstWin(b, 0)
    case Some(m) => Win(m)
    case None => if Empty in b then Ongoing else Draw
  }

  /** Number of non-null cells. */
  function Filled(s: seq<Cell>): (n: nat)
    ensures n <= |s|
  {
    if s == [] then 0 else (if s[0] == Empty then 0 else 1) + Filled(s[1..])
  }

  /** `checkWinner`: scans the line table in order, then falls back to draw or ongoing. */
  method CheckWinner(b: Board) returns (r: Outcome)
    ensures r == Evaluate(b)
  {
    for i := 0 to |Lines|
      invariant forall j :: 0 <= j < i ==> !Complete(b, Lines[j])
      invariant FirstWin(b, 0) == FirstWin(b, i)
    {
      var (a, c, d) := Lines[i];
      if b[a] != Empty && b[a] == b[c] && b[a] == b[d] {
        return Win(b[a].mark);
      }
    }
    r := if Empty in b then Ongoing else Draw;
  }

  /** A line table index that holds three equal marks. */
  predicate SomeLine(b: Board)
  {
    exists k :: 0 <= k < |Lines| && Complete(b, Lines[k])
  }

  /** `FirstWin(b, i)` is the mark on the first complete line from index `i` on, and None when there is none. */
  lemma {:induction false} FirstWinSpec(b: Board, i: nat)
    requires i <= |Lines|
    ensures FirstWin(b, i).None? <==> forall k :: i <= k < |Lines| ==> !Complete(b, Lines[k])
    ensures FirstWin(b, i).Some? ==>
      exists k :: i <= k < |Lines| && HeldBy(b, Lines[k], FirstWin(b, i).value)
        && forall j :: i <= j < k ==> !Complete(b, Lines[j])
    decreases |Lines| - i
  {
    if i < |Lines| && !Complete(b, Lines[i]) {
      FirstWinSpec(b, i + 1);
    }
  }

  /**
   * `checkWinner` against its description: a mark wins exactly when one of the 8 lines holds three of it, and
   * the reported mark is that of the first such line in table order; otherwise the board is a draw exactly when
   * no cell is null, and ongoing otherwise. A win takes precedence over a full board.
   */
  lemma EvaluateSpec(b: Board)
    ensures Evaluate(b).Win? <==> SomeLine(b)
    ensures Evaluate(b).Win? ==>
      exists k :: 0 <= k < |Lines| && HeldBy(b, Lines[k], Evaluate(b).mark)
        && forall j :: 0 <= j < k ==> !Complete(b, Lines[j])
    ensures Evaluate(b) == Draw <==> !SomeLine(b) && Empty !in b
    ensures Evaluate(b) == Ongoing <==> !SomeLine(b) && Empty in b
  {
    FirstWinSpec(b, 0);
  }

  /**
   * Writing a mark into a null cell never turns a decided board back into an ongoing one: a complete line
   * stays complete because cells are only ever written when null.
   */
  lemma DecidedStaysDecided(b: Board, p: Pos, m: Mark)
    requires b[p] == Empty && Evaluate(b) != Ongoing
    ensures Evaluate(b[p := Marked(m)]) != Ongoing
  {
    EvaluateSpec(b);
    var k :| 0 <= k < |Lines| && Complete(b, Lines[k]);
    var b' := b[p := Marked(m)];
    assert Complete(b', Lines[k]);
    EvaluateSpec(b');
  }

  /** Filling a null cell adds exactly one to the count of filled cells. */
  lemma {:induction false} FilledWrite(s: seq<Cell>, p: nat, m: Mark)
    requires p < |s| && s[p] == Empty
    ensures Filled(s[p := Marked(m)]) == Filled(s) + 1
  {
    if p > 0 {
      FilledWrite(s[1..], p - 1, m);
      assert s[p := Marked(m)][1..] == s[1..][p - 1 := Marked(m)];
    } else {
      assert s[p := Marked(m)][1..] == s[1..];
    }
  }

  /** A sequence of null cells has no filled cell. */
  lemma {:induction false} FilledNone(s: seq<Cell>)
    requires forall i :: 0 <= i < |s| ==> s[i] == Empty
    ensures Filled(s) == 0
  {
    if s != [] {
      FilledNone(s[1..]);
    }
  }
}
