/** The sliding puzzle of previous works/IsabelleGym1.0/IsabelleGym/sliding_puzzle/puzzle_env.py. */
module SlidingPuzzle {
  import opened Text

  type Board = seq<nat>

  datatype Move = UP | DOWN | LEFT | RIGHT {
    function Opposite(): Move {
      match this
      case UP => DOWN
      case DOWN => UP
      case LEFT => RIGHT
      case RIGHT => LEFT
    }

    function RowOffset(): int {
      match this case UP => -1 case DOWN => 1 case LEFT => 0 case RIGHT => 0
    }

    function ColOffset(): int {
      match this case UP => 0 case DOWN => 0 case LEFT => -1 case RIGHT => 1
    }
  }

  datatype LastMove = NoMove | Last(move: Move)

  // ----- boards --------------------------------------------------------------------------------

  function GoalBoard(size: nat): (b: Board)
    ensures |b| == if size == 0 then 1 else size * size
  {
    var n := size * size;
    seq(if n == 0 then 0 else n - 1, k => k + 1) + [0]
  }

  /** `board.index(0)` */
  function GapIndex(b: Board): (k: nat)
    requires 0 in b
    ensures k < |b| && b[k] == 0 && 0 !in b[..k]
  {
    if b[0] == 0 then 0
    else
      var k := GapIndex(b[1..]);
      assert b[..k + 1] == [b[0]] + b[1..][..k];
      k + 1
  }

  ghost predicate Distinct(b: Board) {
    forall i, j | 0 <= i < j < |b| :: b[i] != b[j]
  }

  /** A board of this size: a permutation of the goal board, whose entries are 0 to size * size - 1. */
  ghost predicate IsBoard(b: Board, size: nat) {
    && size >= 1 && |b| == size * size
    && Distinct(b) && multiset(b) == multiset(GoalBoard(size))
  }

  lemma BoardHasGap(b: Board, size: nat)
    requires IsBoard(b, size)
    ensures 0 in b
  {
    var goal := GoalBoard(size);
    assert goal[|goal| - 1] == 0 && 0 in goal;
    assert 0 in multiset(b);
  }

  lemma MulMono(a: nat, b: nat, k: nat)
    requires a <= b
    ensures a * k <= b * k
  {
  }

  lemma GoalIsBoard(size: nat)
    requires size >= 1
    ensures IsBoard(GoalBoard(size), size)
    ensures forall k | 0 <= k < size * size :: GoalBoard(size)[k] == (k + 1) % (size * size)
  {
    var n := size * size;
    assert n >= 1 by {
      MulMono(1, size, size);
    }
    forall k | 0 <= k < n
      ensures GoalBoard(size)[k] == (k + 1) % n
    {
    }
  }

  function GapRow(b: Board, size: nat): nat
    requires 0 in b && size >= 1
  {
    GapIndex(b) / size
  }

  function GapCol(b: Board, size: nat): nat
    requires 0 in b && size >= 1
  {
    GapIndex(b) % size
  }

  /** The gap can go that way. */
  predicate CanMove(m: Move, b: Board, size: nat)
    requires 0 in b && size >= 1
  {
    match m
    case UP => GapRow(b, size) > 0
    case DOWN => GapRow(b, size) < size - 1
    case LEFT => GapCol(b, size) > 0
    case RIGHT => GapCol(b, size) < size - 1
  }

  method PossibleMoves(b: Board, size: nat, last: LastMove) returns (moves: set<Move>)
    requires 0 in b && size >= 1
    ensures forall m :: m in moves <==> CanMove(m, b, size) && (last.Last? ==> m != last.move.Opposite())
    ensures |b| == size * size ==> (moves == {} <==> size == 1)
  {
    var gapRow, gapCol := GapRow(b, size), GapCol(b, size);
    moves := {};
    if gapRow > 0 {
      moves := moves + {UP};
    }
    if gapRow < size - 1 {
      moves := moves + {DOWN};
    }
    if gapCol > 0 {
      moves := moves + {LEFT};
    }
    if gapCol < size - 1 {
      moves := moves + {RIGHT};
    }
    if last.Last? {
      moves := moves - {last.move.Opposite()};
    }
    ghost var vertical := if gapRow > 0 then UP else DOWN;
    ghost var horizontal := if gapCol > 0 then LEFT else RIGHT;
    assert size >= 2 ==> CanMove(vertical, b, size) && CanMove(horizontal, b, size);
  }

  /** The two cells a move exchanges: the gap's and its neighbour's. */
  function MoveToSwap(m: Move, b: Board, size: nat): (int, int)
    requires 0 in b && size >= 1
  {
    var row, col := GapRow(b, size), GapCol(b, size);
    (row * size + col, (row + m.RowOffset()) * size + (col + m.ColOffset()))
  }

  function Swapped<T>(s: seq<T>, i: nat, j: nat): (r: seq<T>)
    requires i < |s| && j < |s|
    ensures |r| == |s|
  {
    s[i := s[j]][j := s[i]]
  }

  lemma SwappedKeepsElements<T>(s: seq<T>, i: nat, j: nat)
    requires i < |s| && j < |s|
    ensures multiset(Swapped(s, i, j)) == multiset(s)
  {
  }

  lemma SwappedKeepsDistinct(s: Board, i: nat, j: nat)
    requires i < |s| && j < |s| && Distinct(s)
    ensures Distinct(Swapped(s, i, j))
  {
    var r := Swapped(s, i, j);
    forall a, b | 0 <= a < b < |r|
      ensures r[a] != r[b]
    {
      var a', b' := if a == i then j else if a == j then i else a, if b == i then j else if b == j then i else b;
      assert r[a] == s[a'] && r[b] == s[b'] && a' != b';
    }
  }

  lemma DivMod(r: nat, c: nat, size: nat)
    requires c < size
    ensures (r * size + c) / size == r && (r * size + c) % size == c
  {
    var x := r * size + c;
    var q := x / size;
    assert x == q * size + x % size;
    if q < r {
      MulMono(q + 1, r, size);
    } else if q > r {
      MulMono(r + 1, q, size);
    }
  }

  lemma CellOfIndex(g: nat, size: nat)
    requires size >= 1 && g < size * size
    ensures g == (g / size) * size + g % size && g / size < size
  {
    if g / size >= size {
      MulMono(size, g / size, size);
    }
  }

  lemma IndexOfCell(r: nat, c: nat, size: nat)
    requires r < size && c < size
    ensures 0 <= r * size + c < size * size
    ensures (r * size + c) / size == r && (r * size + c) % size == c
  {
    MulMono(r + 1, size, size);
    MulMono(0, r, size);
    DivMod(r, c, size);
  }

  /** The tile's cell stays on the board, at distance one. */
  lemma MoveStaysOnBoard(m: Move, b: Board, size: nat)
    requires 0 in b && size >= 1 && |b| == size * size && CanMove(m, b, size)
    ensures var (g, t) := MoveToSwap(m, b, size);
      && g == GapIndex(b) && 0 <= t < |b| && t != g
      && t / size == GapRow(b, size) + m.RowOffset() && t % size == GapCol(b, size) + m.ColOffset()
  {
    CellOfIndex(GapIndex(b), size);
    IndexOfCell(GapRow(b, size) + m.RowOffset(), GapCol(b, size) + m.ColOffset(), size);
  }

  /** The board after a move. */
  function Moved(m: Move, b: Board, size: nat): (r: Board)
    requires 0 in b && size >= 1 && |b| == size * size && CanMove(m, b, size)
    ensures |r| == |b| && multiset(r) == multiset(b) && 0 in r
  {
    MoveStaysOnBoard(m, b, size);
    var (g, t) := MoveToSwap(m, b, size);
    SwappedKeepsElements(b, g, t);
    assert 0 in multiset(b);
    Swapped(b, g, t)
  }

  /** A move takes the gap one row up or down, or one column left or right, and the tile from there to where the gap
      was; every other tile stays. It is possible exactly if the gap stays on the board. */
  lemma GapMoves(m: Move, b: Board, size: nat)
    requires 0 in b && size >= 1 && |b| == size * size && Distinct(b)
    ensures var row: int, col: int := GapRow(b, size), GapCol(b, size);
      var row' := if m == UP then row - 1 else if m == DOWN then row + 1 else row;
      var col' := if m == LEFT then col - 1 else if m == RIGHT then col + 1 else col;
      && (CanMove(m, b, size) <==> 0 <= row' < size && 0 <= col' < size)
      && (CanMove(m, b, size) ==>
            var (r, g, t) := (Moved(m, b, size), row * size + col, row' * size + col');
            && 0 <= t < |b| && 0 <= g < |b| && r[t] == 0 && r[g] == b[t]
            && (forall k | 0 <= k < |b| && k != g && k != t :: r[k] == b[k])
            && GapRow(r, size) == row' && GapCol(r, size) == col')
  {
    CellOfIndex(GapIndex(b), size);
    if CanMove(m, b, size) {
      MoveStaysOnBoard(m, b, size);
      var (g, t) := MoveToSwap(m, b, size);
      SwappedKeepsDistinct(b, g, t);
      var r := Moved(m, b, size);
      assert r[t] == 0 && GapIndex(r) == t;
    }
  }

  method DoMove(m: Move, board: array<nat>, size: nat)
    requires 0 in board[..] && size >= 1 && board.Length == size * size && CanMove(m, board[..], size)
    modifies board
    ensures board[..] == Moved(m, old(board[..]), size)
  {
    MoveStaysOnBoard(m, board[..], size);
    var (gap, tile) := MoveToSwap(m, board[..], size);
    board[gap], board[tile] := board[tile], board[gap];
  }

  // ----- a move and its opposite ---------------------------------------------------------------

  lemma GapIs(b: Board, t: nat)
    requires t < |b| && b[t] == 0 && Distinct(b)
    ensures 0 in b && GapIndex(b) == t
  {
  }

  lemma MovedIsBoard(m: Move, b: Board, size: nat)
    requires IsBoard(b, size) && 0 in b && CanMove(m, b, size)
    ensures IsBoard(Moved(m, b, size), size)
    ensures GapIndex(Moved(m, b, size)) == MoveToSwap(m, b, size).1
  {
    MoveStaysOnBoard(m, b, size);
    var (g, t) := MoveToSwap(m, b, size);
    SwappedKeepsDistinct(b, g, t);
    GapIs(Moved(m, b, size), t);
  }

  lemma SwapsBack(m: Move, b: Board, r: Board, size: nat)
    requires 0 in b && size >= 1 && |b| == size * size && CanMove(m, b, size)
    requires r == Moved(m, b, size) && CanMove(m.Opposite(), r, size)
    requires GapRow(r, size) == GapRow(b, size) + m.RowOffset() && GapCol(r, size) == GapCol(b, size) + m.ColOffset()
    ensures Moved(m.Opposite(), r, size) == b
  {
    var (g, t) := MoveToSwap(m, b, size);
    assert MoveToSwap(m.Opposite(), r, size) == (t, g);
    MoveStaysOnBoard(m, b, size);
    MoveStaysOnBoard(m.Opposite(), r, size);
    assert Swapped(Swapped(b, g, t), t, g) == b;
  }

  lemma OppositeUndoes(m: Move, b: Board, size: nat)
    requires IsBoard(b, size) && 0 in b && CanMove(m, b, size)
    ensures CanMove(m.Opposite(), Moved(m, b, size), size)
    ensures Moved(m.Opposite(), Moved(m, b, size), size) == b
  {
    MoveStaysOnBoard(m, b, size);
    MovedIsBoard(m, b, size);
    var r := Moved(m, b, size);
    CellOfIndex(GapIndex(b), size);
    assert CanMove(m.Opposite(), r, size);
    SwapsBack(m, b, r, size);
  }

  // ----- runs ----------------------------------------------------------------------------------

  function Step(m: Move, b: Board, size: nat): Option<Board> {
    if size >= 1 && 0 in b && |b| == size * size && CanMove(m, b, size) then Some(Moved(m, b, size)) else None
  }

  /** The board after a sequence of moves, if each of them is legal when it is made. */
  function Run(moves: seq<Move>, b: Board, size: nat): Option<Board> {
    if moves == [] then Some(b)
    else
      match Step(moves[0], b, size)
      case None => None
      case Some(c) => Run(moves[1..], c, size)
  }

  lemma StepOfBoard(m: Move, b: Board, size: nat)
    requires IsBoard(b, size)
    ensures 0 in b && (CanMove(m, b, size) ==> Step(m, b, size) == Some(Moved(m, b, size)))
    ensures Step(m, b, size).Some? ==> CanMove(m, b, size) && IsBoard(Step(m, b, size).value, size)
  {
    BoardHasGap(b, size);
    if CanMove(m, b, size) {
      MovedIsBoard(m, b, size);
    }
  }

  lemma {:induction false} RunAppend(a: seq<Move>, c: seq<Move>, b: Board, size: nat)
    ensures Run(a + c, b, size) ==
            match Run(a, b, size) case None => None case Some(x) => Run(c, x, size)
  {
    if a == [] {
      assert a + c == c;
    } else {
      assert (a + c)[1..] == a[1..] + c;
      match Step(a[0], b, size)
      case None =>
      case Some(x) => RunAppend(a[1..], c, x, size);
    }
  }

  lemma RunOne(m: Move, b: Board, size: nat)
    ensures Run([m], b, size) == Step(m, b, size)
  {
    assert [m][1..] == [];
  }

  lemma {:induction false} RunKeepsBoard(moves: seq<Move>, b: Board, size: nat)
    requires IsBoard(b, size) && Run(moves, b, size).Some?
    ensures IsBoard(Run(moves, b, size).value, size)
  {
    if moves != [] {
      StepOfBoard(moves[0], b, size);
      RunKeepsBoard(moves[1..], Step(moves[0], b, size).value, size);
    }
  }

  /** The moves that lead back. */
  function Back(moves: seq<Move>): (r: seq<Move>)
    ensures |r| == |moves|
  {
    if moves == [] then [] else Back(moves[1..]) + [moves[0].Opposite()]
  }

  /** Every legal run can be undone, in as many moves. */
  lemma {:induction false} BackUndoes(moves: seq<Move>, b: Board, size: nat)
    requires IsBoard(b, size) && Run(moves, b, size).Some?
    ensures Run(Back(moves), Run(moves, b, size).value, size) == Some(b)
  {
    if moves != [] {
      var m := moves[0];
      StepOfBoard(m, b, size);
      var c := Moved(m, b, size);
      BackUndoes(moves[1..], c, size);
      OppositeUndoes(m, b, size);
      StepOfBoard(m.Opposite(), c, size);
      RunOne(m.Opposite(), c, size);
      RunAppend(Back(moves[1..]), [m.Opposite()], Run(moves, b, size).value, size);
    }
  }

  // ----- inversions ----------------------------------------------------------------------------

  function CountBelow(s: Board, x: nat): nat {
    if s == [] then 0 else (if s[0] < x then 1 else 0) + CountBelow(s[1..], x)
  }

  /** The number of pairs in the wrong order. */
  function Inversions(s: Board): nat {
    if s == [] then 0 else CountBelow(s[1..], s[0]) + Inversions(s[1..])
  }

  lemma {:induction false} CountBelowAdjacent(p: Board, x: nat, y: nat, q: Board, h: nat)
    ensures CountBelow(p + [x, y] + q, h) == CountBelow(p + [y, x] + q, h)
  {
    if p == [] {
      assert (p + [x, y] + q)[1..][1..] == q && (p + [y, x] + q)[1..][1..] == q;
    } else {
      CountBelowAdjacent(p[1..], x, y, q, h);
      assert (p + [x, y] + q)[1..] == p[1..] + [x, y] + q;
      assert (p + [y, x] + q)[1..] == p[1..] + [y, x] + q;
    }
  }

  lemma {:induction false} AdjacentFlips(p: Board, x: nat, y: nat, q: Board)
    requires x != y
    ensures (Inversions(p + [x, y] + q) + Inversions(p + [y, x] + q)) % 2 == 1
  {
    var a, b := p + [x, y] + q, p + [y, x] + q;
    if p == [] {
      assert a[1..] == [y] + q && b[1..] == [x] + q;
      assert a[1..][1..] == q && b[1..][1..] == q;
    } else {
      AdjacentFlips(p[1..], x, y, q);
      CountBelowAdjacent(p[1..], x, y, q, p[0]);
      assert a[1..] == p[1..] + [x, y] + q && b[1..] == p[1..] + [y, x] + q;
    }
  }

  lemma AdjacentSwapFlips(b: Board, i: nat)
    requires i + 1 < |b| && b[i] != b[i + 1]
    ensures (Inversions(b) + Inversions(Swapped(b, i, i + 1))) % 2 == 1
  {
    var p, q := b[..i], b[i + 2..];
    AdjacentFlips(p, b[i], b[i + 1], q);
    assert b == p + [b[i], b[i + 1]] + q;
    assert Swapped(b, i, i + 1) == p + [b[i + 1], b[i]] + q;
  }

  lemma ThreeSwaps<T>(b: seq<T>, i: nat, k: nat, j: nat)
    requires i < k < j < |b|
    ensures Swapped(Swapped(Swapped(b, i, k), k, j), i, k) == Swapped(b, i, j)
  {
  }

  lemma FlipThrice(a: nat, b: nat, c: nat, d: nat)
    requires (a + b) % 2 == 1 && (b + c) % 2 == 1 && (c + d) % 2 == 1
    ensures (a + d) % 2 == 1
  {
  }

  /** Every transposition flips the inversion parity. */
  lemma {:induction false} TranspositionFlips(b: Board, i: nat, j: nat)
    requires i < j < |b| && Distinct(b)
    ensures (Inversions(b) + Inversions(Swapped(b, i, j))) % 2 == 1
    decreases j - i
  {
    if j == i + 1 {
      AdjacentSwapFlips(b, i);
    } else {
      var b1 := Swapped(b, i, i + 1);
      var b2 := Swapped(b1, i + 1, j);
      SwappedKeepsDistinct(b, i, i + 1);
      SwappedKeepsDistinct(b1, i + 1, j);
      AdjacentSwapFlips(b, i);
      TranspositionFlips(b1, i + 1, j);
      AdjacentSwapFlips(b2, i);
      ThreeSwaps(b, i, i + 1, j);
      FlipThrice(Inversions(b), Inversions(b1), Inversions(b2), Inversions(Swapped(b, i, j)));
    }
  }

  // ----- the parity invariant ------------------------------------------------------------------

  function Parity(b: Board, size: nat): nat
    requires 0 in b && size >= 1
  {
    (Inversions(b) + GapRow(b, size) + GapCol(b, size)) % 2
  }

  lemma ParityStep(x: nat, y: nat, r: nat, c: nat, r': nat, c': nat)
    requires (x + y) % 2 == 1 && (r + c + r' + c') % 2 == 1
    ensures (x + r + c) % 2 == (y + r' + c') % 2
  {
  }

  lemma MovedIsSwapped(m: Move, b: Board, size: nat)
    requires IsBoard(b, size) && 0 in b && CanMove(m, b, size)
    ensures var (g, t) := MoveToSwap(m, b, size);
      && 0 <= g < |b| && 0 <= t < |b| && g != t && Distinct(b)
      && Moved(m, b, size) == Swapped(b, g, t) == Swapped(b, t, g)
  {
    MoveStaysOnBoard(m, b, size);
    var (g, t) := MoveToSwap(m, b, size);
    assert Swapped(b, g, t) == Swapped(b, t, g);
  }

  lemma MoveFlipsInversions(m: Move, b: Board, size: nat)
    requires IsBoard(b, size) && 0 in b && CanMove(m, b, size)
    ensures (Inversions(b) + Inversions(Moved(m, b, size))) % 2 == 1
  {
    hide Inversions, GapIndex, CanMove, MoveToSwap, Moved, Swapped;
    MovedIsSwapped(m, b, size);
    var (g, t) := MoveToSwap(m, b, size);
    if g < t {
      TranspositionFlips(b, g, t);
    } else {
      TranspositionFlips(b, t, g);
    }
  }

  lemma SizeOfBoard(b: Board, size: nat)
    requires IsBoard(b, size)
    ensures size >= 1 && |b| == size * size
  {
  }

  lemma MoveKeepsParity(m: Move, b: Board, size: nat)
    requires IsBoard(b, size) && 0 in b && CanMove(m, b, size)
    ensures Parity(Moved(m, b, size), size) == Parity(b, size)
  {
    hide IsBoard, Inversions, GapIndex, Moved, MoveToSwap, CanMove;
    SizeOfBoard(b, size);
    MoveStaysOnBoard(m, b, size);
    MovedIsBoard(m, b, size);
    MoveFlipsInversions(m, b, size);
    var r := Moved(m, b, size);
    ParityStep(Inversions(b), Inversions(r), GapRow(b, size), GapCol(b, size), GapRow(r, size), GapCol(r, size));
  }

  /** Over every run of legal moves the inversion parity plus the gap's row and column stays the same. */
  lemma {:induction false} RunKeepsParity(moves: seq<Move>, b: Board, size: nat)
    requires IsBoard(b, size) && Run(moves, b, size).Some?
    ensures var r := Run(moves, b, size).value;
      && 0 in b && 0 in r && IsBoard(r, size)
      && Parity(r, size) == Parity(b, size)
  {
    BoardHasGap(b, size);
    if moves != [] {
      StepOfBoard(moves[0], b, size);
      MoveKeepsParity(moves[0], b, size);
      RunKeepsParity(moves[1..], Moved(moves[0], b, size), size);
    }
  }

  lemma OddDiffers(x: nat, y: nat, d: nat)
    requires (x + y) % 2 == 1
    ensures (x + d) % 2 != (y + d) % 2
  {
  }

  /** Exchanging two tiles and leaving the gap where it is flips the parity. */
  lemma ExchangeFlipsParity(b: Board, i: nat, j: nat, size: nat)
    requires IsBoard(b, size) && i < j < |b| && b[i] != 0 && b[j] != 0
    ensures 0 in b && 0 in Swapped(b, i, j) && Parity(Swapped(b, i, j), size) != Parity(b, size)
  {
    BoardHasGap(b, size);
    TranspositionFlips(b, i, j);
    SwappedKeepsDistinct(b, i, j);
    GapIs(Swapped(b, i, j), GapIndex(b));
    OddDiffers(Inversions(b), Inversions(Swapped(b, i, j)), GapRow(b, size) + GapCol(b, size));
  }

  /** A board with two of its tiles exchanged is never produced from it. */
  lemma ExchangeIsUnreachable(b: Board, i: nat, j: nat, moves: seq<Move>, size: nat)
    requires IsBoard(b, size) && i < j < |b| && b[i] != 0 && b[j] != 0
    ensures Run(moves, b, size) != Some(Swapped(b, i, j))
  {
    ExchangeFlipsParity(b, i, j, size);
    if Run(moves, b, size).Some? {
      RunKeepsParity(moves, b, size);
    }
  }

  /** In particular the goal with two tiles exchanged is not. */
  lemma ExchangedGoalIsUnreachable(i: nat, j: nat, moves: seq<Move>, size: nat)
    requires size >= 1 && i < j < size * size - 1
    ensures Run(moves, GoalBoard(size), size) != Some(Swapped(GoalBoard(size), i, j))
  {
    GoalIsBoard(size);
    ExchangeIsUnreachable(GoalBoard(size), i, j, moves, size);
  }

  lemma BoardFits(b: Board, size: nat)
    requires IsBoard(b, size)
    ensures 0 in b && size >= 1 && |b| == size * size
  {
    BoardHasGap(b, size);
  }

  /** No move takes back the one before it. */
  ghost predicate NeverReturns(run: seq<Move>) {
    forall k | 0 <= k < |run| - 1 :: run[k + 1] != run[k].Opposite()
  }

  lemma NeverReturnsLonger(run: seq<Move>, m: Move)
    requires NeverReturns(run) && (run != [] ==> m != run[|run| - 1].Opposite())
    ensures NeverReturns(run + [m])
  {
  }

  lemma EmptyRun(b: Board, size: nat)
    ensures Run([], b, size) == Some(b) && NeverReturns([])
  {
  }

  // ----- scrambling ----------------------------------------------------------------------------

  datatype ScrambleResult = Scrambled(board: Board) | ZeroDivisionError | IndexError

  /** `random.choice` is any choice among the possible moves; on an empty list it raises. */
  method GenerateScrambledBoard(size: nat, numScrambles: nat) returns (r: ScrambleResult, ghost run: seq<Move>)
    ensures r.ZeroDivisionError? <==> size == 0 && numScrambles > 0
    ensures r.IndexError? <==> size == 1 && numScrambles > 0
    ensures r.Scrambled? && size == 0 ==> r.board == GoalBoard(0)
    ensures r.Scrambled? && size >= 1 ==>
              && IsBoard(r.board, size)
              && |run| == numScrambles && Run(run, GoalBoard(size), size) == Some(r.board)
              && Run(Back(run), r.board, size) == Some(GoalBoard(size))
    ensures NeverReturns(run)
  {
    hide IsBoard, Run, Back, GapIndex, NeverReturns, Moved, CanMove, Step;
    run := [];
    var goal := GoalBoard(size);
    EmptyRun(goal, size);
    if size == 0 {
      r := if numScrambles > 0 then ZeroDivisionError else Scrambled(goal);
      return;
    }
    var board := new nat[|goal|](k requires 0 <= k < |goal| => goal[k]);
    assert board[..] == goal;
    GoalIsBoard(size);
    var last := NoMove;
    for k := 0 to numScrambles
      invariant fresh(board) && IsBoard(board[..], size)
      invariant |run| == k && Run(run, goal, size) == Some(board[..])
      invariant size == 1 ==> k == 0
      invariant last == if k == 0 then NoMove else Last(run[k - 1])
      invariant NeverReturns(run)
    {
      BoardFits(board[..], size);
      var moves := PossibleMoves(board[..], size, last);
      if moves == {} {
        return IndexError, run;
      }
      var next :| next in moves;
      StepOfBoard(next, board[..], size);
      RunOne(next, board[..], size);
      RunAppend(run, [next], goal, size);
      NeverReturnsLonger(run, next);
      DoMove(next, board, size);
      last := Last(next);
      run := run + [next];
    }
    r := Scrambled(board[..]);
    BackUndoes(run, goal, size);
  }
}
