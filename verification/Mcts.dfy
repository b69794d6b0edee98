/** The tree search of previous works/IsabelleGym1.0/IsabelleGym/sliding_puzzle/mcts.py. */
module Mcts {
  import opened SlidingPuzzle
  import opened VisitCounts

  /** What the search asks of the puzzle and of the value network: predicted distances, the boards that the
      environment offers when simulation `i` expands a node, and two functions on reals. */
  datatype Env = Env(predict: Board -> real, nextBoards: nat -> seq<(Move, Board)>,
                     softmax: seq<real> -> seq<real>, sqrt: real -> real) {
    ghost predicate Valid() {
      && (forall i, j, k | 0 <= j < k < |nextBoards(i)| :: nextBoards(i)[j].0 != nextBoards(i)[k].0)
      && (forall xs :: |softmax(xs)| == |xs|)
    }
  }

  class MCTSNode {
    const board: Board
    const parent: MCTSNode?
    const move: LastMove
    const prior: real
    /** The children, in the order in which they were put into the dictionary; each is keyed by its own move. */
    var children: seq<MCTSNode>
    var visitCount: nat
    var valueSum: real
    const value: real
    ghost const depth: nat
    /** How many backpropagations have started here. */
    ghost var started: nat

    constructor (board: Board, parent: MCTSNode?, move: LastMove, prior: real, value: real)
      ensures this.board == board && this.parent == parent && this.move == move && this.prior == prior
      ensures depth == if parent == null then 0 else parent.depth + 1
      ensures children == [] && visitCount == 0 && valueSum == 0.0 && started == 0 && this.value == value
    {
      this.board, this.parent, this.move, this.prior, this.value := board, parent, move, prior, value;
      children, visitCount, valueSum := [], 0, 0.0;
      depth := if parent == null then 0 else parent.depth + 1;
      started := 0;
    }

    function MeanValue(): real
      reads this
    {
      if visitCount == 0 then 0.0 else valueSum / (visitCount as real)
    }
  }

  /** A node and its ancestors, upwards. */
  ghost function Chain(n: MCTSNode): (r: seq<MCTSNode>)
    ensures r != [] && r[0] == n
    decreases n.depth
  {
    if n.parent == null || n.parent.depth >= n.depth then [n] else [n] + Chain(n.parent)
  }

  /** The parent pointers of a set of nodes stay in it and lead up to one root. */
  ghost predicate Rooted(nodes: set<MCTSNode>, root: MCTSNode) {
    && root in nodes && root.parent == null
    && forall n | n in nodes ::
        if n.parent == null then n == root && n.depth == 0 else n.parent in nodes && n.depth == n.parent.depth + 1
  }

  lemma RootIsTop(nodes: set<MCTSNode>, root: MCTSNode)
    requires Rooted(nodes, root)
    ensures root in nodes && root.parent == null && root.depth == 0
  {
  }

  lemma {:induction false} ChainFacts(nodes: set<MCTSNode>, root: MCTSNode, n: MCTSNode)
    requires Rooted(nodes, root) && n in nodes
    ensures var c := Chain(n);
      && |c| == n.depth + 1 && c[n.depth] == root
      && (forall k | 0 <= k < |c| :: c[k] in nodes && c[k].depth == n.depth - k)
      && (forall k | 0 < k < |c| :: c[k - 1].parent == c[k])
    decreases n.depth
  {
    if n.parent != null {
      ChainFacts(nodes, root, n.parent);
      var c := Chain(n);
      assert forall k | 0 < k < |c| :: c[k] == Chain(n.parent)[k - 1];
    }
  }

  /** A node whose parent is an ancestor of `n` and that lies on the chain is the only such child. */
  lemma ChainMeetsOneChild(nodes: set<MCTSNode>, root: MCTSNode, n: MCTSNode, a: MCTSNode)
    requires Rooted(nodes, root) && n in nodes
    ensures a in Chain(n) && a != n ==> exists c :: c in Chain(n) && c.parent == a
    ensures forall c, d | c in Chain(n) && d in Chain(n) && c.parent == a == d.parent :: c == d
    ensures forall c | c in Chain(n) && c.parent == a :: a in Chain(n) && a != n
  {
    ChainFacts(nodes, root, n);
    var ch := Chain(n);
    if a in ch && a != n {
      var k :| 0 <= k < |ch| && ch[k] == a;
      assert ch[k - 1] in ch && ch[k - 1].parent == a;
    }
    forall c, d | c in ch && d in ch && c.parent == a == d.parent
      ensures c == d
    {
      var i, j :| 0 <= i < |ch| && ch[i] == c && 0 <= j < |ch| && ch[j] == d;
    }
    forall c | c in ch && c.parent == a
      ensures a in ch && a != n
    {
      var i :| 0 <= i < |ch| && ch[i] == c;
      assert ch[i + 1] == a;
    }
  }

  // ----- the accounts of a tree, on snapshots of its fields ------------------------------------

  /** The fields of all nodes at one moment. */
  datatype Snapshot = Snapshot(kids: map<MCTSNode, seq<MCTSNode>>, visits: map<MCTSNode, nat>,
                               started: map<MCTSNode, nat>)

  ghost predicate Covers(s: Snapshot, nodes: set<MCTSNode>) {
    && s.kids.Keys == s.visits.Keys == s.started.Keys == nodes
    && forall n, k | n in nodes && 0 <= k < |s.kids[n]| :: s.kids[n][k] in nodes
  }

  /** Parents and children agree, and no two children of a node are made by the same move. */
  ghost predicate Linked(s: Snapshot, nodes: set<MCTSNode>)
    requires Covers(s, nodes)
  {
    && (forall n, k | n in nodes && 0 <= k < |s.kids[n]| :: s.kids[n][k].parent == n)
    && (forall n | n in nodes && n.parent != null && n.parent in nodes :: n in s.kids[n.parent])
    && (forall n, i, j | n in nodes && 0 <= i < j < |s.kids[n]| :: s.kids[n][i].move != s.kids[n][j].move)
  }

  ghost function Counts(kids: seq<MCTSNode>, visits: map<MCTSNode, nat>): (r: seq<nat>)
    requires forall k | 0 <= k < |kids| :: kids[k] in visits
    ensures |r| == |kids| && forall k | 0 <= k < |r| :: r[k] == visits[kids[k]]
  {
    seq(|kids|, k requires 0 <= k < |kids| => visits[kids[k]])
  }

  /** The visits of a node are the backpropagations started there plus the visits of its children. */
  ghost predicate Accounted(s: Snapshot, nodes: set<MCTSNode>, n: MCTSNode)
    requires Covers(s, nodes) && n in nodes
  {
    s.visits[n] == s.started[n] + Sum(Counts(s.kids[n], s.visits))
  }

  ghost predicate TreeOk(s: Snapshot, nodes: set<MCTSNode>, root: MCTSNode) {
    && Rooted(nodes, root) && Covers(s, nodes) && Linked(s, nodes)
    && forall n | n in nodes :: Accounted(s, nodes, n)
  }

  /** What a backpropagation from `leaf` does to the counters. */
  ghost function Bumped(s: Snapshot, leaf: MCTSNode): Snapshot
    requires s.visits.Keys == s.started.Keys
  {
    s.(visits := map n | n in s.visits :: s.visits[n] + (if n in Chain(leaf) then 1 else 0),
       started := map n | n in s.started :: s.started[n] + (if n == leaf then 1 else 0))
  }

  lemma DifferentKids(s: Snapshot, nodes: set<MCTSNode>, n: MCTSNode)
    requires Covers(s, nodes) && Linked(s, nodes) && n in nodes
    ensures forall i, j | 0 <= i < |s.kids[n]| && 0 <= j < |s.kids[n]| && i != j :: s.kids[n][i] != s.kids[n][j]
  {
    forall i, j | 0 <= i < j < |s.kids[n]|
      ensures s.kids[n][i] != s.kids[n][j]
    {
      assert s.kids[n][i].move != s.kids[n][j].move;
    }
  }

  /** Where the chain of `leaf` passes through the children of `n`, or -1. */
  lemma ChildOnChain(s: Snapshot, nodes: set<MCTSNode>, root: MCTSNode, leaf: MCTSNode, n: MCTSNode) returns (k: int)
    requires Rooted(nodes, root) && Covers(s, nodes) && Linked(s, nodes) && leaf in nodes && n in nodes
    ensures if n in Chain(leaf) && n != leaf then 0 <= k < |s.kids[n]| else k == -1
    ensures forall j | 0 <= j < |s.kids[n]| :: s.kids[n][j] in Chain(leaf) <==> j == k
  {
    ChainMeetsOneChild(nodes, root, leaf, n);
    var kids := s.kids[n];
    k := -1;
    if n in Chain(leaf) && n != leaf {
      var c :| c in Chain(leaf) && c.parent == n;
      ChainFacts(nodes, root, leaf);
      assert c in nodes && c in kids;
      k :| 0 <= k < |kids| && kids[k] == c;
      DifferentKids(s, nodes, n);
    } else {
      assert forall j | 0 <= j < |kids| :: kids[j].parent == n;
    }
  }

  /** The counts after a bump that hits the child at `k`, or none of them. */
  lemma CountsAfter(s: Snapshot, leaf: MCTSNode, kids: seq<MCTSNode>, k: int)
    requires s.visits.Keys == s.started.Keys && forall j | 0 <= j < |kids| :: kids[j] in s.visits
    requires k == -1 || 0 <= k < |kids|
    requires forall j | 0 <= j < |kids| :: kids[j] in Chain(leaf) <==> j == k
    ensures var cs, ds := Counts(kids, s.visits), Counts(kids, Bumped(s, leaf).visits);
      ds == if k == -1 then cs else cs[k := cs[k] + 1]
  {
  }

  lemma BumpKeepsAccount(s: Snapshot, nodes: set<MCTSNode>, root: MCTSNode, leaf: MCTSNode, n: MCTSNode)
    requires Rooted(nodes, root) && Covers(s, nodes) && Linked(s, nodes) && leaf in nodes && n in nodes
    requires Accounted(s, nodes, n)
    ensures Covers(Bumped(s, leaf), nodes) && Accounted(Bumped(s, leaf), nodes, n)
    ensures CountStep(Counts(s.kids[n], s.visits), Counts(s.kids[n], Bumped(s, leaf).visits))
  {
    hide Rooted, Linked, Chain;
    var k := ChildOnChain(s, nodes, root, leaf, n);
    CountsAfter(s, leaf, s.kids[n], k);
    if k != -1 {
      SumOfUpdate(Counts(s.kids[n], s.visits), k);
    } else {
      assert n in Chain(leaf) <==> n == leaf;
    }
  }

  /** A backpropagation keeps the accounts and is one step of the root's counts. */
  lemma BumpKeepsAccounts(s: Snapshot, nodes: set<MCTSNode>, root: MCTSNode, leaf: MCTSNode)
    requires TreeOk(s, nodes, root) && leaf in nodes
    ensures TreeOk(Bumped(s, leaf), nodes, root)
    ensures CountStep(Counts(s.kids[root], s.visits), Counts(s.kids[root], Bumped(s, leaf).visits))
    ensures Bumped(s, leaf).visits[root] == s.visits[root] + 1
  {
    forall n | n in nodes
      ensures Covers(Bumped(s, leaf), nodes) && Accounted(Bumped(s, leaf), nodes, n)
    {
      BumpKeepsAccount(s, nodes, root, leaf, n);
    }
    BumpKeepsAccount(s, nodes, root, leaf, root);
    ChainFacts(nodes, root, leaf);
    assert Chain(leaf)[leaf.depth] == root;
  }

  // ----- what a node has been credited with ----------------------------------------------------

  /** The share of node `n` in a simulation that ends at `m`: the distance still expected from the board of `m`, and
      the steps walked down to `m` and back up to `n`. */
  ghost function Share(m: MCTSNode, n: MCTSNode, goal: Board, env: Env): real {
    if n !in Chain(m) then 0.0
    else (if m.board == goal then 0.0 else env.predict(m.board)) + (2 * m.depth - n.depth) as real
  }

  /** The sum of the shares of `n` over the nodes at which simulations have ended. */
  ghost function Shares(log: seq<MCTSNode>, n: MCTSNode, goal: Board, env: Env): real {
    if log == [] then 0.0
    else Shares(log[..|log| - 1], n, goal, env) + Share(log[|log| - 1], n, goal, env)
  }

  /** How many simulations have ended at `n` or below it. */
  ghost function Endings(log: seq<MCTSNode>, n: MCTSNode): nat {
    if log == [] then 0 else Endings(log[..|log| - 1], n) + if n in Chain(log[|log| - 1]) then 1 else 0
  }

  lemma OneMoreShare(log: seq<MCTSNode>, m: MCTSNode, n: MCTSNode, goal: Board, env: Env)
    ensures Shares(log + [m], n, goal, env) == Shares(log, n, goal, env) + Share(m, n, goal, env)
    ensures Endings(log + [m], n) == Endings(log, n) + if n in Chain(m) then 1 else 0
  {
    assert (log + [m])[..|log|] == log;
  }

  /** A node that is not in the tree yet has no share in anything. */
  lemma {:induction false} NoShare(nodes: set<MCTSNode>, root: MCTSNode, log: seq<MCTSNode>, n: MCTSNode, goal: Board,
                                   env: Env)
    requires Rooted(nodes, root) && n !in nodes && forall m | m in log :: m in nodes
    ensures Shares(log, n, goal, env) == 0.0 && Endings(log, n) == 0
  {
    if log != [] {
      var m := log[|log| - 1];
      ChainFacts(nodes, root, m);
      NoShare(nodes, root, log[..|log| - 1], n, goal, env);
    }
  }

  lemma ScaledQuotient(c: real, p: real, q: real, v: real)
    requires c > 0.0 && q > 0.0 && v > 0.0
    ensures c * q > 0.0 && c * p * q / v == (c * q) * (p / v)
  {
    assert c * p * q == (c * q) * p;
  }

  lemma QuotientOrder(c: real, p: real, v: real, q: real, w: real)
    requires c > 0.0 && v > 0.0 && w > 0.0
    ensures v == w ==> (c * (p / v) > c * (q / w) <==> p > q)
    ensures p == q && p > 0.0 ==> (c * (p / v) > c * (q / w) <==> v < w)
  {
    var (x, y) := (p / v, q / w);
    assert x * v == p && y * w == q;
    assert c * x > c * y <==> x > y;
    if v == w {
      assert x > y <==> x * v > y * v;
    }
    if p == q && p > 0.0 {
      assert x > 0.0 && y > 0.0;
      assert x > y ==> v < w;
      assert v < w ==> x > y;
    }
  }

  // ----- growing the tree ----------------------------------------------------------------------

  /** The snapshot after `kids` became the children of a leaf. */
  ghost function Grown(s: Snapshot, leaf: MCTSNode, kids: seq<MCTSNode>): Snapshot {
    var added := set n | n in kids;
    Snapshot(map n | n in s.kids.Keys + added :: if n == leaf then kids else if n in s.kids then s.kids[n] else [],
             map n | n in s.visits.Keys + added :: if n in s.visits then s.visits[n] else 0,
             map n | n in s.started.Keys + added :: if n in s.started then s.started[n] else 0)
  }

  lemma SnapIsGrown(s: Snapshot, t: Snapshot, leaf: MCTSNode, kids: seq<MCTSNode>)
    requires s.kids.Keys == s.visits.Keys == s.started.Keys && leaf in s.kids
    requires t.kids.Keys == t.visits.Keys == t.started.Keys == s.kids.Keys + (set n | n in kids)
    requires forall n | n in s.kids :: t.kids[n] == (if n == leaf then kids else s.kids[n])
               && t.visits[n] == s.visits[n] && t.started[n] == s.started[n]
    requires forall n | n in kids && n !in s.kids :: t.kids[n] == [] && t.visits[n] == 0 && t.started[n] == 0
    ensures t == Grown(s, leaf, kids)
  {
  }

  ghost predicate FreshKids(nodes: set<MCTSNode>, leaf: MCTSNode, kids: seq<MCTSNode>) {
    && (forall k | 0 <= k < |kids| :: kids[k] !in nodes && kids[k].parent == leaf && kids[k].depth == leaf.depth + 1)
    && (forall i, j | 0 <= i < j < |kids| :: kids[i].move != kids[j].move)
  }

  lemma {:induction false} SumOfZeros(cs: seq<nat>)
    requires forall k | 0 <= k < |cs| :: cs[k] == 0
    ensures Sum(cs) == 0
  {
    if cs != [] {
      SumOfZeros(cs[1..]);
    }
  }

  lemma GrowKeepsRoot(nodes: set<MCTSNode>, root: MCTSNode, leaf: MCTSNode, kids: seq<MCTSNode>)
    requires Rooted(nodes, root) && leaf in nodes && FreshKids(nodes, leaf, kids)
    ensures Rooted(nodes + (set n | n in kids), root)
  {
  }

  lemma GrowKeepsCover(s: Snapshot, nodes: set<MCTSNode>, leaf: MCTSNode, kids: seq<MCTSNode>)
    requires Covers(s, nodes) && leaf in nodes
    ensures Covers(Grown(s, leaf, kids), nodes + (set n | n in kids))
  {
  }

  lemma GrownKids(s: Snapshot, leaf: MCTSNode, kids: seq<MCTSNode>)
    ensures var t := Grown(s, leaf, kids);
      && t.kids.Keys == s.kids.Keys + (set n | n in kids)
      && forall n | n in t.kids :: t.kids[n] == if n == leaf then kids else if n in s.kids then s.kids[n] else []
  {
  }

  lemma GrowKeepsShape(s: Snapshot, nodes: set<MCTSNode>, root: MCTSNode, leaf: MCTSNode, kids: seq<MCTSNode>)
    requires Rooted(nodes, root) && Covers(s, nodes) && Linked(s, nodes)
    requires leaf in nodes && s.kids[leaf] == [] && FreshKids(nodes, leaf, kids)
    ensures var t, all := Grown(s, leaf, kids), nodes + (set n | n in kids);
      Rooted(all, root) && Covers(t, all) && Linked(t, all)
  {
    var t, all := Grown(s, leaf, kids), nodes + (set n | n in kids);
    GrowKeepsRoot(nodes, root, leaf, kids);
    GrowKeepsCover(s, nodes, leaf, kids);
    hide Rooted, Grown;
    GrownKids(s, leaf, kids);
    forall n | n in all && n.parent != null && n.parent in all
      ensures n in t.kids[n.parent]
    {
      assert n in nodes ==> n in s.kids[n.parent];
    }
    forall n, k | n in all && 0 <= k < |t.kids[n]|
      ensures t.kids[n][k].parent == n
    {
      assert n in nodes;
    }
    forall n, i, j | n in all && 0 <= i < j < |t.kids[n]|
      ensures t.kids[n][i].move != t.kids[n][j].move
    {
      assert n in nodes;
    }
  }

  /** Expanding a leaf keeps the accounts: new children have no visits yet. */
  lemma GrowKeepsAccounts(s: Snapshot, nodes: set<MCTSNode>, root: MCTSNode, leaf: MCTSNode, kids: seq<MCTSNode>)
    requires TreeOk(s, nodes, root)
    requires leaf in nodes && s.kids[leaf] == [] && FreshKids(nodes, leaf, kids)
    ensures TreeOk(Grown(s, leaf, kids), nodes + (set n | n in kids), root)
  {
    var t, all := Grown(s, leaf, kids), nodes + (set n | n in kids);
    GrowKeepsShape(s, nodes, root, leaf, kids);
    forall n | n in all
      ensures Accounted(t, all, n)
    {
      if n == leaf {
        assert Accounted(s, nodes, n);
        SumOfZeros(Counts(kids, t.visits));
      } else if n in nodes {
        assert Accounted(s, nodes, n);
        assert Counts(t.kids[n], t.visits) == Counts(s.kids[n], s.visits);
      }
    }
  }

  // ----- the search ----------------------------------------------------------------------------

  function VisitList(kids: seq<MCTSNode>): (r: seq<nat>)
    reads kids
    ensures |r| == |kids| && forall k | 0 <= k < |r| :: r[k] == kids[k].visitCount
  {
    seq(|kids|, k requires 0 <= k < |kids| reads kids => kids[k].visitCount)
  }

  /** `sum(child.visit_count for child in ...)` */
  function TotalVisits(kids: seq<MCTSNode>): nat
    reads kids
  {
    if kids == [] then 0 else kids[0].visitCount + TotalVisits(kids[1..])
  }

  lemma {:induction false} TotalIsSum(kids: seq<MCTSNode>)
    ensures TotalVisits(kids) == Sum(VisitList(kids))
  {
    if kids != [] {
      TotalIsSum(kids[1..]);
      assert VisitList(kids)[1..] == VisitList(kids[1..]);
    }
  }

  ghost function MaxDepth(nodes: set<MCTSNode>): (d: nat)
    ensures forall n | n in nodes :: n.depth <= d
  {
    if nodes == {} then 0
    else
      var n :| n in nodes;
      var d := MaxDepth(nodes - {n});
      if n.depth > d then n.depth else d
  }

  class MCTS {
    const goal: Board
    const numSimulations: nat
    const cPuct: real
    const epsilon: real
    var root: MCTSNode
    ghost var nodes: set<MCTSNode>
    /** The leaves to which the simulations have walked, and the nodes that they were charged to. */
    ghost var leaves: seq<MCTSNode>
    ghost var log: seq<MCTSNode>

    ghost function Snap(): Snapshot
      reads this`nodes, nodes
    {
      Snapshot(map n | n in nodes :: n.children, map n | n in nodes :: n.visitCount, map n | n in nodes :: n.started)
    }

    ghost predicate Valid()
      reads this`root, this`nodes, nodes
    {
      TreeOk(Snap(), nodes, root)
    }

    /** What every node shows of the simulations: how many ended at it or below, and the sum of its shares. */
    ghost predicate Credited(env: Env)
      reads this`log, this`nodes, nodes
    {
      && (forall m | m in log :: m in nodes)
      && (forall n | n in nodes && n.board != goal :: n.value == env.predict(n.board))
      && (forall n | n in nodes :: n.visitCount == Endings(log, n) && n.valueSum == Shares(log, n, goal, env))
    }

    /** The visit counts of the root's children. */
    function RootCounts(): seq<nat>
      reads this`root, root, root.children
    {
      VisitList(root.children)
    }

    lemma StartIsValid()
      requires nodes == {root} && root.children == [] && root.visitCount == 0 && root.started == 0
      requires root.parent == null && root.depth == 0
      ensures Valid()
    {
    }

    lemma StartIsCredited(env: Env)
      requires nodes == {root} && log == [] && root.visitCount == 0 && root.valueSum == 0.0
      requires root.value == env.predict(root.board)
      ensures Credited(env)
    {
    }

    /** Construction and `initialize_search`. */
    constructor (board: Board, goal: Board, numSimulations: nat, cPuct: real, epsilon: real, env: Env)
      ensures Valid() && fresh(nodes)
      ensures this.goal == goal && this.numSimulations == numSimulations && root.board == board
      ensures this.cPuct == cPuct && this.epsilon == epsilon
      ensures root.children == [] && root.visitCount == 0 && Credited(env) && leaves == log == []
    {
      hide TreeOk, Credited;
      this.goal, this.numSimulations, this.cPuct, this.epsilon := goal, numSimulations, cPuct, epsilon;
      var r := new MCTSNode(board, null, NoMove, 0.0, env.predict(board));
      root := r;
      nodes, leaves, log := {r}, [], [];
      new;
      StartIsValid();
      StartIsCredited(env);
    }

    function Pucb(exploit: real, prior: real, visits: nat, totalVisits: nat, env: Env): real {
      exploit + cPuct * prior * env.sqrt(epsilon + (totalVisits as real)) / ((1 + visits) as real)
    }

    /** The PUCB score of a child, given the visits of all its siblings together. */
    function Score(child: MCTSNode, totalVisits: nat, env: Env): real
      reads child
    {
      Pucb(if child.visitCount > 0 then child.MeanValue() else 0.0, child.prior, child.visitCount, totalVisits, env)
    }

    function Scores(kids: seq<MCTSNode>, env: Env): (r: seq<real>)
      reads kids
      ensures |r| == |kids|
      ensures var total := Sum(VisitList(kids));
        forall k | 0 <= k < |r| :: r[k] == Score(kids[k], if total < 1 then 1 else total, env)
    {
      TotalIsSum(kids);
      var total := TotalVisits(kids);
      seq(|kids|, k requires 0 <= k < |kids| reads kids => Score(kids[k], if total < 1 then 1 else total, env))
    }

    lemma ScoreParts(child: MCTSNode, totalVisits: nat, env: Env)
      requires cPuct > 0.0 && env.sqrt(epsilon + (totalVisits as real)) > 0.0
      ensures var c := cPuct * env.sqrt(epsilon + (totalVisits as real));
        c > 0.0 && Score(child, totalVisits, env) == child.MeanValue()
            + c * (child.prior / (1 + child.visitCount) as real)
    {
      ScaledQuotient(cPuct, child.prior, env.sqrt(epsilon + (totalVisits as real)), (1 + child.visitCount) as real);
    }

    /** Which of two siblings scores higher: with equal visits and priors the one with the higher mean value, with equal
        means and visits the one with the higher prior, with equal means and priors the one visited less often. */
    lemma ScoreOrder(a: MCTSNode, b: MCTSNode, totalVisits: nat, env: Env)
      requires cPuct > 0.0 && env.sqrt(epsilon + (totalVisits as real)) > 0.0
      ensures a.visitCount == b.visitCount && a.prior == b.prior ==>
                (Score(a, totalVisits, env) > Score(b, totalVisits, env) <==> a.MeanValue() > b.MeanValue())
      ensures a.MeanValue() == b.MeanValue() && a.visitCount == b.visitCount ==>
                (Score(a, totalVisits, env) > Score(b, totalVisits, env) <==> a.prior > b.prior)
      ensures a.MeanValue() == b.MeanValue() && a.prior == b.prior && a.prior > 0.0 ==>
                (Score(a, totalVisits, env) > Score(b, totalVisits, env) <==> a.visitCount < b.visitCount)
    {
      hide Score, MCTSNode.MeanValue;
      var root := env.sqrt(epsilon + (totalVisits as real));
      var (v, w) := ((1 + a.visitCount) as real, (1 + b.visitCount) as real);
      assert v < w <==> a.visitCount < b.visitCount;
      ScoreParts(a, totalVisits, env);
      ScoreParts(b, totalVisits, env);
      QuotientOrder(cPuct * root, a.prior, v, b.prior, w);
    }

    /** The mean value of a visited node is the average of its shares. */
    lemma MeanIsAverage(node: MCTSNode, env: Env)
      requires Credited(env) && node in nodes && node.visitCount > 0
      ensures Endings(log, node) > 0 && node.MeanValue() == Shares(log, node, goal, env) / (Endings(log, node) as real)
    {
    }

    predicate Undoes(child: MCTSNode, last: LastMove) {
      last.Last? && child.move == Last(last.move.Opposite())
    }

    /** Among the first `n` children that do not undo the last move, `k` is the first of the highest score. */
    ghost predicate IsBest(scores: seq<real>, kids: seq<MCTSNode>, last: LastMove, n: nat, k: nat)
      requires n <= |kids| == |scores| && k < |kids|
    {
      && (forall j | 0 <= j < n && !Undoes(kids[j], last) :: scores[j] <= scores[k])
      && (forall j | 0 <= j < n && j < k && !Undoes(kids[j], last) :: scores[j] < scores[k])
    }

    /** The choice of a child: the first of those with the highest score that do not undo the last move; the first child
        if all of them do. */
    ghost predicate Picks(scores: seq<real>, kids: seq<MCTSNode>, k: nat, last: LastMove)
      requires k < |kids| == |scores|
    {
      && ((forall c | c in kids :: Undoes(c, last)) ==> k == 0)
      && ((exists c :: c in kids && !Undoes(c, last)) ==>
            !Undoes(kids[k], last) && IsBest(scores, kids, last, |kids|, k))
    }

    /** The child with the highest score among those that do not undo the last move, the first one on ties; if
        all of them undo it, the first child. */
    method SelectChild(node: MCTSNode, last: LastMove, env: Env) returns (best: MCTSNode, ghost k: nat)
      requires node.children != []
      ensures k < |node.children| && best == node.children[k]
      ensures Picks(Scores(node.children, env), node.children, k, last)
    {
      var kids := node.children;
      var scores := Scores(kids, env);
      var found, bestScore := false, 0.0;
      best, k := kids[0], 0;
      for i := 0 to |kids|
        invariant k < |kids| && best == kids[k] && (found ==> k < i)
        invariant !found ==> k == 0 && forall j | 0 <= j < i :: Undoes(kids[j], last)
        invariant found ==> !Undoes(best, last) && bestScore == scores[k] && IsBest(scores, kids, last, i, k)
      {
        if Undoes(kids[i], last) {
          continue;
        }
        if !found || scores[i] > bestScore {
          found, bestScore, best := true, scores[i], kids[i];
          k := i;
        }
      }
    }

    /** The part of the invariant that the walk down the tree needs. */
    ghost predicate Wired()
      reads this, nodes
    {
      Rooted(nodes, root) && forall n, c | n in nodes && c in n.children :: c in nodes && c.parent == n
    }

    lemma ValidIsWired()
      requires Valid()
      ensures Wired()
    {
      forall n, c | n in nodes && c in n.children
        ensures c in nodes && c.parent == n
      {
        assert Snap().kids[n] == n.children;
      }
    }

    /** Every strict ancestor of the node is expanded and does not hold the goal board. */
    ghost predicate Open(node: MCTSNode)
      reads this, nodes
    {
      forall n | n in Chain(node) && n != node :: n in nodes && n.children != [] && n.board != goal
    }

    function LastAt(node: MCTSNode, last: LastMove): LastMove
      reads this`root
    {
      if node == root then last else node.move
    }

    /** The step from a node down to its child `c` goes to the child that is chosen there. */
    ghost predicate StepsDown(c: MCTSNode, last: LastMove, env: Env)
      reads this, nodes
    {
      c.parent != null ==>
        && c.parent in nodes && (forall x | x in c.parent.children :: x in nodes)
        && exists k ::
             && 0 <= k < |c.parent.children| && c.parent.children[k] == c
             && Picks(Scores(c.parent.children, env), c.parent.children, k, LastAt(c.parent, last))
    }

    /** A walk from the root that chooses at every node comes here. */
    ghost predicate Descends(node: MCTSNode, last: LastMove, env: Env)
      reads this, nodes
    {
      node in nodes && Open(node) && forall c | c in Chain(node) :: StepsDown(c, last, env)
    }

    /** And it ends here. */
    ghost predicate Reached(leaf: MCTSNode, last: LastMove, env: Env)
      reads this, nodes
    {
      Descends(leaf, last, env) && (leaf.children == [] || leaf.board == goal)
    }

    lemma RootDescends(last: LastMove, env: Env)
      requires Wired()
      ensures Descends(root, last, env) && root.depth == 0
    {
    }

    lemma DescendsFacts(node: MCTSNode, last: LastMove, env: Env)
      requires Descends(node, last, env)
      ensures node in nodes
    {
    }

    lemma OpenBelow(node: MCTSNode, child: MCTSNode)
      requires Wired() && node in nodes && child in node.children && Open(node) && node.board != goal
      ensures child in nodes && child.depth == node.depth + 1 && child != root && Open(child)
    {
      assert Chain(child) == [child] + Chain(node);
    }

    lemma ChosenBelow(node: MCTSNode, child: MCTSNode, k: nat, last: LastMove, env: Env)
      requires Wired() && Descends(node, last, env) && node.board != goal
      requires k < |node.children| && child == node.children[k]
      requires Picks(Scores(node.children, env), node.children, k, LastAt(node, last))
      ensures child in nodes && child.depth == node.depth + 1 && LastAt(child, last) == child.move
      ensures Descends(child, last, env)
    {
      hide Picks, Rooted;
      OpenBelow(node, child);
      assert Chain(child) == [child] + Chain(node);
      assert StepsDown(child, last, env) by {
        assert forall x | x in node.children :: x in nodes;
      }
    }

    /** Down the tree to a node that is not expanded or holds the goal board. */
    method SelectLeaf(last: LastMove, env: Env) returns (leaf: MCTSNode, pathLength: nat, lastMove: LastMove)
      requires Wired()
      ensures Reached(leaf, last, env)
      ensures pathLength == leaf.depth && lastMove == LastAt(leaf, last)
    {
      hide Picks, StepsDown, Descends, Wired, Chain;
      leaf, pathLength, lastMove := root, 0, last;
      RootDescends(last, env);
      DescendsFacts(root, last, env);
      ghost var bound := MaxDepth(nodes);
      while leaf.children != [] && leaf.board != goal
        invariant Descends(leaf, last, env) && pathLength == leaf.depth && lastMove == LastAt(leaf, last)
        decreases bound - leaf.depth
      {
        var child, k := SelectChild(leaf, lastMove, env);
        ChosenBelow(leaf, child, k, last, env);
        leaf, lastMove := child, child.move;
        pathLength := pathLength + 1;
      }
    }

    /** One more visit, and the value with the distance walked, for the node and each of its ancestors. */
    method Backpropagate(node: MCTSNode, value: real, pathLength: int)
      requires Rooted(nodes, root) && node in nodes
      modifies nodes`visitCount, nodes`valueSum, nodes`started
      ensures forall n | n in nodes :: n.started == old(n.started) + (if n == node then 1 else 0)
      ensures forall n | n in nodes :: n.visitCount == old(n.visitCount) + (if n in Chain(node) then 1 else 0)
      ensures forall n | n in nodes :: n.valueSum == old(n.valueSum) +
                (if n in Chain(node) then value + (pathLength + node.depth - n.depth) as real else 0.0)
    {
      hide Rooted, Chain;
      RootIsTop(nodes, root);
      ChainFacts(nodes, root, node);
      ghost var chain := Chain(node);
      node.started := node.started + 1;
      var current: MCTSNode? := node;
      var length := pathLength;
      ghost var done: set<MCTSNode> := {};
      ghost var up: nat := 0;
      while current != null
        invariant up <= |chain| && (if current == null then up == |chain| else up < |chain| && current == chain[up])
        invariant length == pathLength + up
        invariant forall n :: n in done <==> n in chain[..up]
        invariant forall n | n in nodes :: n.started == old(n.started) + (if n == node then 1 else 0)
        invariant forall n | n in nodes :: n.visitCount == old(n.visitCount) + (if n in done then 1 else 0)
        invariant forall n | n in nodes :: n.valueSum == old(n.valueSum) +
                    (if n in done then value + (pathLength + node.depth - n.depth) as real else 0.0)
        decreases |chain| - up
      {
        assert current !in done by {
          assert forall k | 0 <= k < up :: chain[k].depth != chain[up].depth;
        }
        assert current in nodes && current.depth == node.depth - up;
        current.visitCount := current.visitCount + 1;
        current.valueSum := current.valueSum + (value + length as real);
        done := done + {current};
        length := length + 1;
        up := up + 1;
        assert up < |chain| ==> chain[up - 1].parent == chain[up];
        current := current.parent;
      }
      assert chain[..up] == chain;
    }

    // ----- expansion -----------------------------------------------------------------------------

    /** What one offered board becomes. */
    ghost predicate IsKid(kid: MCTSNode, leaf: MCTSNode, offer: (Move, Board), prior: real, value: real)
    {
      && kid.parent == leaf && kid.depth == leaf.depth + 1
      && kid.move == Last(offer.0) && kid.board == offer.1 && kid.prior == prior && kid.value == value
    }

    ghost predicate Untouched(n: MCTSNode)
      reads n
    {
      n.children == [] && n.visitCount == 0 && n.started == 0 && n.valueSum == 0.0
    }

    /** The negated predictions of the boards offered: the smaller the distance, the larger the prior. */
    function Priors(offers: seq<(Move, Board)>, env: Env): (r: seq<real>)
      ensures |r| == |offers| && forall k | 0 <= k < |r| :: r[k] == -env.predict(offers[k].1)
    {
      seq(|offers|, k requires 0 <= k < |offers| => -env.predict(offers[k].1))
    }

    ghost predicate OffersGoal(offers: seq<(Move, Board)>) {
      exists k :: 0 <= k < |offers| && offers[k].1 == goal
    }

    /** The children that a leaf gets: if the goal board is offered, it is the only child; otherwise each board offered
        becomes a child. */
    ghost predicate IsExpanded(leaf: MCTSNode, kids: seq<MCTSNode>, offers: seq<(Move, Board)>, env: Env)
      requires env.Valid()
    {
      if OffersGoal(offers) then
        |kids| == 1 && exists k ::
          && 0 <= k < |offers| && offers[k].1 == goal && (forall j | 0 <= j < k :: offers[j].1 != goal)
          && IsKid(kids[0], leaf, offers[k], 1.0, 0.0)
      else
        |kids| == |offers| && forall k | 0 <= k < |kids| ::
          IsKid(kids[k], leaf, offers[k], env.softmax(Priors(offers, env))[k], env.predict(offers[k].1))
    }

    method Expand(leaf: MCTSNode, offers: seq<(Move, Board)>, env: Env) returns (goalNode: MCTSNode?)
      requires leaf in nodes && leaf.children == []
      requires env.Valid() && forall i, j | 0 <= i < j < |offers| :: offers[i].0 != offers[j].0
      modifies this`nodes, leaf`children
      ensures nodes == old(nodes) + (set n | n in leaf.children) && fresh(nodes - old(nodes))
      ensures IsExpanded(leaf, leaf.children, offers, env) && FreshKids(old(nodes), leaf, leaf.children)
      ensures forall c | c in leaf.children :: Untouched(c)
      ensures goalNode != null <==> OffersGoal(offers)
      ensures goalNode != null ==>
                leaf.children == [goalNode] && goalNode.board == goal && goalNode.depth == leaf.depth + 1
    {
      goalNode := null;
      for k := 0 to |offers|
        invariant goalNode == null && nodes == old(nodes) && leaf.children == []
        invariant forall j | 0 <= j < k :: offers[j].1 != goal
      {
        if offers[k].1 == goal {
          goalNode := new MCTSNode(offers[k].1, leaf, Last(offers[k].0), 1.0, 0.0);
          leaf.children := [goalNode];
          nodes := nodes + {goalNode};
          return;
        }
      }
      var priors := env.softmax(Priors(offers, env));
      var kids: seq<MCTSNode> := [];
      for k := 0 to |offers|
        invariant |kids| == k && leaf.children == [] && nodes == old(nodes)
        invariant forall j | 0 <= j < k :: fresh(kids[j]) && Untouched(kids[j])
        invariant forall j | 0 <= j < k :: IsKid(kids[j], leaf, offers[j], priors[j], env.predict(offers[j].1))
      {
        var kid := new MCTSNode(offers[k].1, leaf, Last(offers[k].0), priors[k], env.predict(offers[k].1));
        kids := kids + [kid];
      }
      leaf.children := kids;
      nodes := nodes + (set n | n in kids);
    }

    // ----- one simulation, and the whole search --------------------------------------------------

    lemma ValidIsRooted()
      requires Valid()
      ensures Rooted(nodes, root) && Covers(Snap(), nodes)
    {
    }

    lemma KidsHaveNoShare(before: set<MCTSNode>, leaf: MCTSNode, offers: seq<(Move, Board)>, env: Env)
      requires Rooted(before, root) && (forall m | m in log :: m in before) && leaf in before && env.Valid()
      requires nodes == before + (set n | n in leaf.children) && FreshKids(before, leaf, leaf.children)
      requires IsExpanded(leaf, leaf.children, offers, env) && forall c | c in leaf.children :: Untouched(c)
      requires forall n | n in before && n.board != goal :: n.value == env.predict(n.board)
      requires forall n | n in before :: n.visitCount == Endings(log, n) && n.valueSum == Shares(log, n, goal, env)
      ensures Credited(env)
    {
      forall n | n in nodes
        ensures n.board != goal ==> n.value == env.predict(n.board)
        ensures n.visitCount == Endings(log, n) && n.valueSum == Shares(log, n, goal, env)
      {
        if n !in before {
          NoShare(before, root, log, n, goal, env);
          var k :| 0 <= k < |leaf.children| && leaf.children[k] == n;
        }
      }
    }

    /** Expansion keeps what the nodes show. */
    method AddKids(leaf: MCTSNode, offers: seq<(Move, Board)>, env: Env) returns (goalNode: MCTSNode?)
      requires Rooted(nodes, root) && Credited(env) && leaf in nodes && leaf.children == []
      requires env.Valid() && forall i, j | 0 <= i < j < |offers| :: offers[i].0 != offers[j].0
      modifies this`nodes, leaf`children
      ensures Credited(env) && fresh(nodes - old(nodes))
      ensures nodes == old(nodes) + (set n | n in leaf.children)
      ensures IsExpanded(leaf, leaf.children, offers, env) && FreshKids(old(nodes), leaf, leaf.children)
      ensures forall c | c in leaf.children :: Untouched(c)
      ensures goalNode != null <==> OffersGoal(offers)
      ensures goalNode != null ==>
                leaf.children == [goalNode] && goalNode.board == goal && goalNode.depth == leaf.depth + 1
    {
      hide IsExpanded, Shares, Endings, Rooted, FreshKids, OffersGoal;
      goalNode := Expand(leaf, offers, env);
      KidsHaveNoShare(old(nodes), leaf, offers, env);
    }

    /** Expansion keeps the tree valid, and what its nodes show. */
    method Grow(leaf: MCTSNode, offers: seq<(Move, Board)>, env: Env) returns (goalNode: MCTSNode?)
      requires Valid() && Credited(env) && leaf in nodes && leaf.children == []
      requires env.Valid() && forall i, j | 0 <= i < j < |offers| :: offers[i].0 != offers[j].0
      modifies this`nodes, leaf`children
      ensures Valid() && Credited(env) && fresh(nodes - old(nodes))
      ensures nodes == old(nodes) + (set n | n in leaf.children)
      ensures IsExpanded(leaf, leaf.children, offers, env) && forall c | c in leaf.children :: c.children == []
      ensures goalNode != null <==> OffersGoal(offers)
      ensures goalNode != null ==>
                leaf.children == [goalNode] && goalNode.board == goal && goalNode.depth == leaf.depth + 1
      ensures root.visitCount == old(root.visitCount)
      ensures old(root.children) != [] ==> root.children == old(root.children) && RootCounts() == old(RootCounts())
    {
      hide TreeOk, IsExpanded, Credited, OffersGoal;
      ghost var s := Snap();
      ValidIsRooted();
      goalNode := AddKids(leaf, offers, env);
      GrowKeepsAccounts(s, old(nodes), root, leaf, leaf.children);
      hide FreshKids, Rooted;
      SnapIsGrown(s, Snap(), leaf, leaf.children);
    }

    /** Backpropagation gives each node its share. */
    method PayShares(node: MCTSNode, value: real, pathLength: int, ghost env: Env)
      requires Rooted(nodes, root) && Credited(env) && node in nodes
      requires value == (if node.board == goal then 0.0 else env.predict(node.board)) && pathLength == node.depth
      modifies this`log, nodes`visitCount, nodes`valueSum, nodes`started
      ensures Credited(env) && log == old(log) + [node]
      ensures forall n | n in nodes :: n.started == old(n.started) + (if n == node then 1 else 0)
      ensures forall n | n in nodes :: n.visitCount == old(n.visitCount) + (if n in Chain(node) then 1 else 0)
    {
      hide Rooted, Chain, Shares, Endings;
      Backpropagate(node, value, pathLength);
      log := log + [node];
      forall n | n in nodes
        ensures n.visitCount == Endings(log, n) && n.valueSum == Shares(log, n, goal, env)
      {
        OneMoreShare(old(log), node, n, goal, env);
      }
    }

    /** Backpropagation keeps the tree valid, gives each node its share, and adds one visit to at most one child of the
        root. */
    method Credit(node: MCTSNode, value: real, pathLength: int, ghost env: Env)
      requires Valid() && Credited(env) && node in nodes
      requires value == (if node.board == goal then 0.0 else env.predict(node.board)) && pathLength == node.depth
      modifies this`log, nodes`visitCount, nodes`valueSum, nodes`started
      ensures Valid() && Credited(env) && log == old(log) + [node]
      ensures root.visitCount == old(root.visitCount) + 1
      ensures CountStep(old(RootCounts()), RootCounts())
    {
      hide TreeOk, Credited, Chain, Rooted, CountStep;
      ghost var s := Snap();
      ValidIsRooted();
      PayShares(node, value, pathLength, env);
      BumpKeepsAccounts(s, nodes, root, node);
      assert Snap() == Bumped(s, node);
      assert RootCounts() == Counts(s.kids[root], Bumped(s, node).visits);
      assert old(RootCounts()) == Counts(s.kids[root], s.visits);
    }

    // ----- the history of a search ---------------------------------------------------------------

    /** The mean value that a node has after the simulations of a log. */
    ghost function LoggedMean(log: seq<MCTSNode>, n: MCTSNode, env: Env): real {
      if Endings(log, n) == 0 then 0.0 else Shares(log, n, goal, env) / (Endings(log, n) as real)
    }

    ghost function EndingsOf(log: seq<MCTSNode>, kids: seq<MCTSNode>): (r: seq<nat>)
      ensures |r| == |kids| && forall k | 0 <= k < |r| :: r[k] == Endings(log, kids[k])
    {
      seq(|kids|, k requires 0 <= k < |kids| => Endings(log, kids[k]))
    }

    /** The scores of some children after the simulations of a log. */
    ghost function LoggedScores(log: seq<MCTSNode>, kids: seq<MCTSNode>, env: Env): (r: seq<real>)
      ensures |r| == |kids|
    {
      var total := Sum(EndingsOf(log, kids));
      seq(|kids|, k requires 0 <= k < |kids| =>
            Pucb(LoggedMean(log, kids[k], env), kids[k].prior, Endings(log, kids[k]), if total < 1 then 1
                else total, env))
    }

    lemma ScoresAreLogged(kids: seq<MCTSNode>, env: Env)
      requires Credited(env) && forall c | c in kids :: c in nodes
      ensures Scores(kids, env) == LoggedScores(log, kids, env)
    {
      hide Endings, Shares, Sum, Pucb;
      assert forall k | 0 <= k < |kids| :: kids[k] in kids;
      assert VisitList(kids) == EndingsOf(log, kids);
    }

    /** Of the children of its parent, node `c` is the one to go down to after the simulations of a log. */
    ghost predicate GoesDown(kids: map<MCTSNode, seq<MCTSNode>>, log: seq<MCTSNode>, c: MCTSNode, last: LastMove,
                             env: Env)
      reads this`root
    {
      c.parent != null ==>
        c.parent in kids && exists k ::
          && 0 <= k < |kids[c.parent]| && kids[c.parent][k] == c
          && Picks(LoggedScores(log, kids[c.parent], env), kids[c.parent], k, LastAt(c.parent, last))
    }

    /** The walk that follows the simulations of a log comes to this node. */
    ghost predicate Walks(kids: map<MCTSNode, seq<MCTSNode>>, log: seq<MCTSNode>, leaf: MCTSNode, last: LastMove,
                          env: Env)
      reads this`root
    {
      leaf in kids && forall c | c in Chain(leaf) :: GoesDown(kids, log, c, last, env)
    }

    lemma ReachedIsWalked(leaf: MCTSNode, last: LastMove, env: Env)
      requires Credited(env) && Reached(leaf, last, env)
      ensures Walks(Snap().kids, log, leaf, last, env)
    {
      hide Credited, Scores, LoggedScores, Picks;
      forall c | c in Chain(leaf)
        ensures GoesDown(Snap().kids, log, c, last, env)
      {
        assert StepsDown(c, last, env);
        if c.parent != null {
          ScoresAreLogged(c.parent.children, env);
        }
      }
    }

    /** What one simulation has done: it has walked down by the scores that the simulations before it had left;
        unless it met the goal, it has expanded the leaf with the boards offered to it; and it was charged to the
        leaf, or to the goal found below it. */
    ghost predicate Simulated(kids: map<MCTSNode, seq<MCTSNode>>, log: seq<MCTSNode>, leaf: MCTSNode, end: MCTSNode,
                              offers: seq<(Move, Board)>, last: LastMove, env: Env)
      requires env.Valid()
      reads this`root
    {
      && Walks(kids, log, leaf, last, env)
      && if leaf.board == goal then end == leaf
         else
           && (offers != [] ==> IsExpanded(leaf, kids[leaf], offers, env))
           && end == if OffersGoal(offers) && kids[leaf] != [] then kids[leaf][0] else leaf
    }

    /** A whole history of simulations, one for each number from 0 on. No leaf is expanded twice. */
    ghost predicate History(kids: map<MCTSNode, seq<MCTSNode>>, leaves: seq<MCTSNode>, log: seq<MCTSNode>,
                            last: LastMove, env: Env)
      requires env.Valid()
      reads this`root
    {
      && |leaves| == |log|
      && (forall t: nat {:trigger log[t]} | t < |log| ::
            Simulated(kids, log[..t], leaves[t], log[t], env.nextBoards(t), last, env))
      && forall r: nat, t: nat {:trigger leaves[r], log[t]} | r < t < |log| ::
           leaves[r] != leaves[t] || leaves[t].board == goal || env.nextBoards(r) == []
    }

    ghost predicate Replays(last: LastMove, env: Env)
      requires env.Valid()
      reads this, nodes
    {
      History(Snap().kids, leaves, log, last, env)
    }

    lemma NoHistory(last: LastMove, env: Env)
      requires env.Valid() && leaves == log == []
      ensures Replays(last, env)
    {
    }

    /** Children that come later do not change what a simulation has done. */
    lemma SimulatedStays(kids: map<MCTSNode, seq<MCTSNode>>, more: map<MCTSNode, seq<MCTSNode>>, log: seq<MCTSNode>,
                         leaf: MCTSNode, end: MCTSNode, offers: seq<(Move, Board)>, last: LastMove, env: Env)
      requires env.Valid() && Simulated(kids, log, leaf, end, offers, last, env)
      requires forall n | n in kids :: n in more && (kids[n] != [] ==> more[n] == kids[n])
      ensures Simulated(more, log, leaf, end, offers, last, env)
    {
      hide Picks, LoggedScores, IsKid;
      forall c | c in Chain(leaf)
        ensures GoesDown(more, log, c, last, env)
      {
        assert GoesDown(kids, log, c, last, env);
      }
    }

    lemma ExpandedOnce(kids: map<MCTSNode, seq<MCTSNode>>, log: seq<MCTSNode>, leaf: MCTSNode, end: MCTSNode,
                       offers: seq<(Move, Board)>, last: LastMove, env: Env)
      requires env.Valid() && Simulated(kids, log, leaf, end, offers, last, env)
      requires kids[leaf] == [] || leaf.board == goal
      ensures leaf.board == goal || offers == []
    {
    }

    lemma OneMoreSimulation(kids: map<MCTSNode, seq<MCTSNode>>, more: map<MCTSNode, seq<MCTSNode>>,
                            leaves: seq<MCTSNode>, log: seq<MCTSNode>, leaf: MCTSNode, end: MCTSNode, last: LastMove,
                            env: Env)
      requires env.Valid() && History(kids, leaves, log, last, env)
      requires forall n | n in kids :: n in more && (kids[n] != [] ==> more[n] == kids[n])
      requires Simulated(more, log, leaf, end, env.nextBoards(|log|), last, env)
      requires leaf in kids && (kids[leaf] == [] || leaf.board == goal)
      ensures History(more, leaves + [leaf], log + [end], last, env)
    {
      hide Simulated;
      var (ls, es) := (leaves + [leaf], log + [end]);
      forall t: nat | t < |es|
        ensures Simulated(more, es[..t], ls[t], es[t], env.nextBoards(t), last, env)
      {
        if t < |log| {
          assert es[..t] == log[..t] && es[t] == log[t];
          SimulatedStays(kids, more, log[..t], leaves[t], log[t], env.nextBoards(t), last, env);
        } else {
          assert es[..t] == log;
        }
      }
      forall r: nat | r < |log|
        ensures leaves[r] != leaf || leaf.board == goal || env.nextBoards(r) == []
      {
        assert log[r] in log;
        if leaves[r] == leaf {
          ExpandedOnce(kids, log[..r], leaf, log[r], env.nextBoards(r), last, env);
        }
      }
    }

    lemma ValueOfLeaf(node: MCTSNode, env: Env)
      requires Credited(env) && node in nodes && node.board != goal
      ensures node.value == env.predict(node.board)
    {
    }

    /** One simulation: the walk ends at `leaf`, the leaf is expanded unless it holds the goal, and the node that the
        simulation is charged to is the new child with the goal board, if there is one, and else the leaf. */
    method WalkAndCharge(i: nat, last: LastMove, env: Env) returns (ghost leaf: MCTSNode)
      requires Valid() && Credited(env) && env.Valid()
      modifies this`nodes, this`log, nodes
      ensures Valid() && Credited(env) && fresh(nodes - old(nodes)) && old(nodes) <= nodes
      ensures Walks(old(Snap().kids), old(log), leaf, last, env)
      ensures leaf in old(nodes) && old(Reached(leaf, last, env))
      ensures forall n | n in old(nodes) && (n != leaf || leaf.board == goal) :: n.children == old(n.children)
      ensures if leaf.board == goal then nodes == old(nodes) && log == old(log) + [leaf]
              else
                && nodes == old(nodes) + (set n | n in leaf.children)
                && IsExpanded(leaf, leaf.children, env.nextBoards(i), env)
                && (forall c | c in leaf.children :: c.children == [])
                && log == old(log) + [if OffersGoal(env.nextBoards(i)) then leaf.children[0] else leaf]
      ensures root.visitCount == old(root.visitCount) + 1
      ensures old(root.children) != [] ==>
                root.children == old(root.children) && CountStep(old(RootCounts()), RootCounts())
    {
      hide TreeOk, Wired, Open, Descends, Credited, OffersGoal, IsExpanded, Walks;
      ValidIsWired();
      var end, pathLength, lastAction := SelectLeaf(last, env);
      leaf := end;
      ReachedIsWalked(end, last, env);
      DescendsFacts(end, last, env);
      if end.board == goal {
        Credit(end, 0.0, pathLength, env);
        return;
      }
      var goalNode := Grow(end, env.nextBoards(i), env);
      if goalNode != null {
        Credit(goalNode, 0.0, pathLength + 1, env);
      } else {
        ValueOfLeaf(end, env);
        Credit(end, end.value, pathLength, env);
      }
    }

    lemma LastSimulation(kids: map<MCTSNode, seq<MCTSNode>>, log: seq<MCTSNode>, leaf: MCTSNode, end: MCTSNode,
                         offers: seq<(Move, Board)>, last: LastMove, env: Env)
      requires env.Valid() && Walks(kids, log, leaf, last, env) && leaf in nodes
      requires forall n | n in kids :: n in nodes && (kids[n] != [] ==> n.children == kids[n])
      requires if leaf.board == goal then end == leaf
               else
                 && IsExpanded(leaf, leaf.children, offers, env)
                 && end == if OffersGoal(offers) then leaf.children[0] else leaf
      ensures Simulated(Snap().kids, log, leaf, end, offers, last, env)
    {
      hide Picks, LoggedScores, IsKid;
      forall c | c in Chain(leaf)
        ensures GoesDown(Snap().kids, log, c, last, env)
      {
        assert GoesDown(kids, log, c, last, env);
      }
    }

    /** One simulation is one more entry of the history. */
    method Simulate(i: nat, last: LastMove, env: Env) returns (ghost leaf: MCTSNode)
      requires Valid() && Credited(env) && env.Valid() && Replays(last, env) && i == |log|
      modifies this`nodes, this`leaves, this`log, nodes
      ensures Valid() && Credited(env) && fresh(nodes - old(nodes)) && old(nodes) <= nodes
      ensures Replays(last, env) && leaves == old(leaves) + [leaf]
      ensures |log| == i + 1
      ensures root.visitCount == old(root.visitCount) + 1
      ensures old(root.children) != [] ==>
                root.children == old(root.children) && CountStep(old(RootCounts()), RootCounts())
    {
      hide TreeOk, Descends, Credited, IsExpanded, Walks, OffersGoal, History, CountStep, RootCounts, Simulated;
      ghost var kids := Snap().kids;
      leaf := WalkAndCharge(i, last, env);
      leaves := leaves + [leaf];
      LastSimulation(kids, old(log), leaf, log[i], env.nextBoards(i), last, env);
      OneMoreSimulation(kids, Snap().kids, old(leaves), old(log), leaf, log[i], last, env);
    }

    /** The lead over the next child is larger than `left`. */
    ghost predicate Leads(left: nat)
      reads this`root, root, root.children
    {
      root.children != [] && Lead(RootCounts()) > left
    }

    /** The first child with the most visits; `NoMove` if there are no children. */
    ghost predicate IsAnswer(best: LastMove)
      reads this`root, root, root.children
    {
      if root.children == [] then best == NoMove else best == root.children[Best(RootCounts())].move
    }

    /** However up to `left` more simulations change the counts, the answer stays the same. */
    ghost predicate Settled(left: nat)
      reads this`root, root, root.children
    {
      forall trace | CountRun(trace) && trace[0] == RootCounts() && trace[0] != [] && |trace| <= left + 1 ::
        trace[|trace| - 1] != [] && Best(trace[|trace| - 1]) == Best(trace[0])
    }

    /** `run`: `NoMove` stands for the error that `max` raises when the root has no children. `left` simulations
        are not run; however they would have gone, they would not have changed the answer. */
    method Run(last: LastMove, env: Env) returns (best: LastMove, ghost left: nat)
      requires Valid() && Credited(env) && env.Valid() && root.visitCount == 0 && leaves == log == []
      modifies this`nodes, this`leaves, this`log, nodes
      ensures Valid() && Credited(env) && Replays(last, env) && |log| == root.visitCount
      ensures left + root.visitCount == numSimulations
      ensures (left > 0 ==> Leads(left)) && Settled(left) && IsAnswer(best)
    {
      hide TreeOk, Credited, Replays, Reached, IsExpanded, OffersGoal;
      NoHistory(last, env);
      left := numSimulations;
      var i := 0;
      while i < numSimulations
        invariant Valid() && Credited(env) && fresh(nodes - old(nodes)) && old(nodes) <= nodes
        invariant Replays(last, env)
        invariant i <= numSimulations && |log| == root.visitCount == i && left == numSimulations - i
      {
        var remaining := numSimulations - i;
        var counts := RootCounts();
        if counts != [] && Lead(counts) > remaining {
          break;
        }
        var _ := Simulate(i, last, env);
        i := i + 1;
        left := left - 1;
      }
      forall trace | CountRun(trace) && trace[0] == RootCounts() && trace[0] != [] && |trace| <= left + 1
        ensures trace[|trace| - 1] != [] && Best(trace[|trace| - 1]) == Best(trace[0])
      {
        if left > 0 {
          EarlyStopIsSound(trace, left);
        }
      }
      best := if root.children == [] then NoMove else root.children[Best(RootCounts())].move;
    }

    /** The simulations that an early stop skips, run after all: the answer stays the same. */
    method RunOn(first: nat, remaining: nat, last: LastMove, env: Env)
      requires Valid() && Credited(env) && env.Valid() && Replays(last, env) && |log| == first
      requires root.children != [] && Lead(RootCounts()) > remaining
      modifies this`nodes, this`leaves, this`log, nodes
      ensures Valid() && Credited(env) && Replays(last, env) && |log| == first + remaining
      ensures root.children == old(root.children)
      ensures RootCounts() != [] && Best(RootCounts()) == old(Best(RootCounts()))
    {
      hide TreeOk, Credited, Replays, Reached, IsExpanded, OffersGoal;
      ghost var trace := [RootCounts()];
      for k := 0 to remaining
        invariant Valid() && Credited(env) && fresh(nodes - old(nodes)) && old(nodes) <= nodes
        invariant Replays(last, env) && |log| == first + k && root.children == old(root.children)
        invariant |trace| == k + 1 && CountRun(trace) && trace[0] == old(RootCounts()) && trace[k] == RootCounts()
      {
        var _ := Simulate(first + k, last, env);
        trace := trace + [RootCounts()];
      }
      EarlyStopIsSound(trace, remaining);
    }
  }
}
