/** The solver of `modules/solver.js`: the pruning rule for consecutive
    moves, the move graph built from the allowed rotations, the memoised
    count of walks through it, and the bounded depth-first search. */
module Solver {
  import opened Wrappers
  import opened Rubik

  // ---------------------------------------------------------------------
  // Pruning: `get_axis` and `move_allowed`

  /** `get_axis`: F/B are axis 0, R/L axis 1, U/D axis 2; every other base
      (the slices and the whole-cube rotations) has no axis (`undefined`). */
  function GetAxis(rotation: int): (axis: Option<int>)
    ensures axis.Some? ==> 0 <= axis.value <= 2
  {
    var base := BaseRotation(rotation);
    if base == F || base == B then Some(0)
    else if base == R || base == L then Some(1)
    else if base == U || base == D then Some(2)
    else None
  }

  /** `move_allowed(rotation, last_move)`, with `null` as None.  A move may
      never follow one on its own base, and may follow one on its own axis
      only when that one's base is the greater. */
  predicate MoveAllowed(rotation: int, last: Option<int>): (ok: bool)
    ensures ok && last.Some? ==> BaseRotation(rotation) != BaseRotation(last.value)
    ensures ok && last.Some? && GetAxis(rotation) == GetAxis(last.value)
            ==> BaseRotation(rotation) < BaseRotation(last.value)
    ensures last.Some? && GetAxis(rotation) != GetAxis(last.value) ==> ok
  {
    match last
    case None => true
    case Some(lastMove) =>
      var axis := GetAxis(rotation);
      var base := BaseRotation(rotation);
      var lastAxis := GetAxis(lastMove);
      var lastBase := BaseRotation(lastMove);
      if lastAxis != axis then true
      else if lastBase == base then false
      else lastBase > base
  }

  /** The axes of the twelve base moves: the six face moves pair up, and all
      slices and whole-cube rotations share "no axis". */
  lemma AxisOfBases(b: int)
    requires IsBase(b)
    ensures GetAxis(b).None? <==> b >= M
    ensures GetAxis(b) == Some(0) <==> b == F || b == B
    ensures GetAxis(b) == Some(1) <==> b == R || b == L
    ensures GetAxis(b) == Some(2) <==> b == U || b == D
  {
  }

  /** A code, its inverse and its double share base and axis. */
  lemma AxisOfCodes(b: int)
    requires IsBase(b)
    ensures GetAxis(-b) == GetAxis(b) && GetAxis(2 * b) == GetAxis(b)
  {
  }

  /** Any first move is allowed; a move on the base of the previous move
      never is. */
  lemma AllowedFirstNotSame(rotation: int, last: int)
    ensures MoveAllowed(rotation, None)
    ensures BaseRotation(rotation) == BaseRotation(last) ==> !MoveAllowed(rotation, Some(last))
  {
  }

  /** A move on another axis is always allowed; of two different bases on one
      axis, exactly one order is allowed, the one that puts the higher base
      first. */
  lemma AllowedOrder(r1: int, r2: int)
    ensures GetAxis(r1) != GetAxis(r2) ==> MoveAllowed(r1, Some(r2)) && MoveAllowed(r2, Some(r1))
    ensures GetAxis(r1) == GetAxis(r2) && BaseRotation(r1) != BaseRotation(r2)
            ==> (MoveAllowed(r1, Some(r2)) <==> !MoveAllowed(r2, Some(r1)))
    ensures GetAxis(r1) == GetAxis(r2) ==> (MoveAllowed(r1, Some(r2)) <==> BaseRotation(r2) > BaseRotation(r1))
  {
  }

  // ---------------------------------------------------------------------
  // The move graph

  /** A node per previous move (None for the root); a node's edges are the
      moves allowed next, and the edge r leads to node Some(r). */
  type Graph = map<Option<int>, seq<int>>

  function Edges(g: Graph, node: Option<int>): seq<int> {
    if node in g then g[node] else []
  }

  /** Setting key r on a JavaScript object: a new key goes last, an existing
      key keeps its place. */
  function Append(edges: seq<int>, r: int): (r': seq<int>)
    ensures r in r'
    ensures forall x :: x in r' <==> x in edges || x == r
  {
    if r in edges then edges else edges + [r]
  }

  function AppendAll(edges: seq<int>, rs: seq<int>): seq<int> {
    if rs == [] then edges else Append(AppendAll(edges, rs[..|rs| - 1]), rs[|rs| - 1])
  }

  /** Followers are drawn from the allowed moves. */
  lemma {:induction false} FollowersWithin(allowed: seq<int>, last: Option<int>)
    ensures forall x :: x in Followers(allowed, last) ==> x in allowed
  {
    if allowed != [] {
      FollowersWithin(allowed[..|allowed| - 1], last);
      assert allowed == allowed[..|allowed| - 1] + [allowed[|allowed| - 1]];
    }
  }

  /** Setting keys adds exactly those keys. */
  lemma {:induction false} AppendAllMembers(edges: seq<int>, rs: seq<int>)
    ensures forall x :: x in AppendAll(edges, rs) <==> x in edges || x in rs
  {
    if rs != [] {
      AppendAllMembers(edges, rs[..|rs| - 1]);
      assert rs == rs[..|rs| - 1] + [rs[|rs| - 1]];
    }
  }

  /** No move occurs twice: the last is not among the others, which have
      no duplicates either. */
  predicate NoDuplicates(s: seq<int>) {
    s == [] || (NoDuplicates(s[..|s| - 1]) && s[|s| - 1] !in s[..|s| - 1])
  }

  /** A move of a list without duplicates is not found earlier in it. */
  lemma {:induction false} NotEarlier(s: seq<int>, j: int)
    requires NoDuplicates(s) && 0 <= j < |s|
    ensures s[j] !in s[..j]
  {
    if j < |s| - 1 {
      var init := s[..|s| - 1];
      NotEarlier(init, j);
      assert init[..j] == s[..j];
    }
  }

  lemma {:induction false} AppendAllNoDuplicates(edges: seq<int>, rs: seq<int>)
    requires NoDuplicates(edges)
    ensures NoDuplicates(AppendAll(edges, rs))
  {
    if rs != [] {
      var x := AppendAll(edges, rs[..|rs| - 1]);
      AppendAllNoDuplicates(edges, rs[..|rs| - 1]);
      assert (x + [rs[|rs| - 1]])[..|x|] == x;
    }
  }

  /** Setting keys that are all present already changes nothing. */
  lemma {:induction false} AppendAllPresent(edges: seq<int>, rs: seq<int>)
    requires forall x :: x in rs ==> x in edges
    ensures AppendAll(edges, rs) == edges
  {
    if rs != [] {
      assert rs == rs[..|rs| - 1] + [rs[|rs| - 1]];
      AppendAllPresent(edges, rs[..|rs| - 1]);
      AppendAllMembers(edges, rs[..|rs| - 1]);
    }
  }

  /** The moves of `allowed` that may follow `last`, in order. */
  function Followers(allowed: seq<int>, last: Option<int>): seq<int> {
    if allowed == [] then []
    else
      var init := Followers(allowed[..|allowed| - 1], last);
      var x := allowed[|allowed| - 1];
      if MoveAllowed(x, last) then init + [x] else init
  }

  /** The followers are the allowed moves that may follow `last`. */
  lemma {:induction false} FollowersMembers(allowed: seq<int>, last: Option<int>)
    ensures forall x :: x in Followers(allowed, last) <==> x in allowed && MoveAllowed(x, last)
  {
    if allowed != [] {
      FollowersMembers(allowed[..|allowed| - 1], last);
      assert allowed == allowed[..|allowed| - 1] + [allowed[|allowed| - 1]];
    }
  }

  /** `get_move_data(move)`: the node for `move`, created empty if absent. */
  function Ensure(g: Graph, node: Option<int>): (g': Graph)
    ensures node in g'
  {
    if node in g then g else g[node := []]
  }

  /** `move_data[rotation] = get_move_data(rotation)` with `move_data` the
      node of `last`: create node Some(rotation), then add the edge. */
  function Link(g: Graph, last: Option<int>, rotation: int): Graph {
    var g1 := Ensure(g, Some(rotation));
    g1[last := Append(Edges(g1, last), rotation)]
  }

  /** `construct_impl(last, depth)` as a function of the graph built so far. */
  function Construct(allowed: seq<int>, g: Graph, last: Option<int>, depth: nat): Graph
    decreases depth, 1, 0
  {
    if depth == 0 then g else Pass(allowed, g, last, depth, |allowed|)
  }

  /** The first i iterations of the loop of `construct_impl(last, depth)`. */
  function Pass(allowed: seq<int>, g: Graph, last: Option<int>, depth: nat, i: nat): Graph
    requires depth > 0 && i <= |allowed|
    decreases depth, 0, i
  {
    if i == 0 then g
    else
      var g1 := Pass(allowed, g, last, depth, i - 1);
      var rotation := allowed[i - 1];
      if !MoveAllowed(rotation, last) then g1
      else Construct(allowed, Link(Ensure(g1, last), last, rotation), Some(rotation), depth - 1)
  }

  /** An iteration of the loop of `construct_impl(last, depth)` whose
      rotation may follow `last` links the two and recurses. */
  lemma PassTaken(allowed: seq<int>, g: Graph, last: Option<int>, depth: nat, i: nat, before: Graph, after: Graph)
    requires depth > 0 && i < |allowed| && MoveAllowed(allowed[i], last)
    requires before == Pass(allowed, g, last, depth, i)
    requires after == Construct(allowed, Link(Ensure(before, last), last, allowed[i]), Some(allowed[i]), depth - 1)
    ensures after == Pass(allowed, g, last, depth, i + 1)
  {
  }

  /** An iteration whose rotation may not follow `last` changes nothing. */
  lemma PassSkipped(allowed: seq<int>, g: Graph, last: Option<int>, depth: nat, i: nat)
    requires depth > 0 && i < |allowed| && !MoveAllowed(allowed[i], last)
    ensures Pass(allowed, g, last, depth, i + 1) == Pass(allowed, g, last, depth, i)
  {
  }

  /** The state that `construct_move_set` builds: `construct_impl(null, 2)`,
      then the root node, created if no rotation was allowed. */
  function MoveSet(allowed: seq<int>): Graph {
    Ensure(Construct(allowed, map[], None, 2), None)
  }

  /** `construct_move_set`'s builder: the `move_set` object that its nested
      functions fill in. */
  class MoveSetBuilder {
    const allowed: seq<int>
    var moveSet: Graph

    constructor (allowed: seq<int>)
      ensures this.allowed == allowed && moveSet == map[]
    {
      this.allowed := allowed;
      moveSet := map[];
    }

    /** `get_move_data`. */
    method GetMoveData(move: Option<int>) returns (edges: seq<int>)
      modifies this
      ensures moveSet == Ensure(old(moveSet), move)
      ensures edges == moveSet[move]
    {
      if move !in moveSet {
        moveSet := moveSet[move := []];
      }
      edges := moveSet[move];
    }

    /** `construct_impl(last_move, max_depth)`. */
    method ConstructImpl(last: Option<int>, maxDepth: nat)
      modifies this
      decreases maxDepth, 1
      ensures moveSet == Construct(allowed, old(moveSet), last, maxDepth)
    {
      if maxDepth == 0 {
        return;
      }
      for i := 0 to |allowed|
        invariant moveSet == Pass(allowed, old(moveSet), last, maxDepth, i)
      {
        var rotation := allowed[i];
        if MoveAllowed(rotation, last) {
          AddMove(last, rotation, maxDepth, old(moveSet), i);
        } else {
          PassSkipped(allowed, old(moveSet), last, maxDepth, i);
        }
      }
    }

    /** The body of the loop of `construct_impl(last_move, max_depth)` for a
        rotation that may follow `last_move`: link the two nodes, then
        recurse one level deeper from the rotation. */
    method AddMove(last: Option<int>, rotation: int, maxDepth: nat, ghost start: Graph, ghost i: nat)
      requires maxDepth > 0 && i < |allowed| && allowed[i] == rotation && MoveAllowed(rotation, last)
      requires moveSet == Pass(allowed, start, last, maxDepth, i)
      modifies this
      decreases maxDepth, 0
      ensures moveSet == Pass(allowed, start, last, maxDepth, i + 1)
    {
      ghost var before := moveSet;
      var moveData := GetMoveData(last);
      var child := GetMoveData(Some(rotation));
      moveSet := moveSet[last := Append(Edges(moveSet, last), rotation)];
      ConstructImpl(Some(rotation), maxDepth - 1);
      PassTaken(allowed, start, last, maxDepth, i, before, moveSet);
    }
  }

  /** `construct_move_set(allowed_rotations)`: the whole graph (its root is
      the node None). */
  method ConstructMoveSet(allowed: seq<int>) returns (g: Graph)
    ensures g == MoveSet(allowed)
    ensures MoveSetShape(allowed, g)
  {
    var builder := new MoveSetBuilder(allowed);
    builder.ConstructImpl(None, 2);
    var root := builder.GetMoveData(None);
    g := builder.moveSet;
    MoveSetCharacterised(allowed);
  }

  /** What the graph is: a node for the root and for every allowed rotation;
      the root's edges are the allowed rotations, node r's edges are the
      allowed rotations that may follow r; no node lists an edge twice. */
  ghost predicate MoveSetShape(allowed: seq<int>, g: Graph) {
    && g.Keys == {None} + (set r | r in allowed :: Some(r))
    && (forall r :: r in Edges(g, None) <==> r in allowed)
    && (forall r, r2 :: r in allowed ==> (r2 in Edges(g, Some(r)) <==> r2 in allowed && MoveAllowed(r2, Some(r))))
    && (forall node :: node in g ==> NoDuplicates(g[node]))
  }

  /** One edge added from node `last` to a follower y. */
  lemma LinkFacts(g: Graph, last: Option<int>, y: int)
    requires last in g && last != Some(y)
    ensures var g' := Link(g, last, y);
            && (forall k :: k in g' <==> k in g || k == Some(y))
            && g'[last] == Append(g[last], y)
            && (forall k :: k in g && k != last ==> g'[k] == g[k])
            && (Some(y) !in g ==> g'[Some(y)] == [])
  {
  }

  /** The loop of `construct_impl(Some(x), 1)`: node x gains the allowed
      followers of x, each follower gets a (possibly new, empty) node, and
      nothing else changes. */
  lemma {:induction false} PassLeaf(allowed: seq<int>, g: Graph, x: int, i: nat)
    requires Some(x) in g && i <= |allowed|
    ensures LeafPassed(g, Pass(allowed, g, Some(x), 1, i), x, Followers(allowed[..i], Some(x)))
  {
    if i > 0 {
      PassLeaf(allowed, g, x, i - 1);
      var y := allowed[i - 1];
      assert allowed[..i][..i - 1] == allowed[..i - 1];
      var fs := Followers(allowed[..i - 1], Some(x));
      if MoveAllowed(y, Some(x)) {
        assert y != x;
        assert Followers(allowed[..i], Some(x)) == fs + [y];
        LeafStep(g, Pass(allowed, g, Some(x), 1, i - 1), x, fs, y);
      } else {
        assert Followers(allowed[..i], Some(x)) == fs;
      }
    }
  }

  /** One more follower y of x: node y is created empty if absent and x
      gains the edge. */
  lemma LeafStep(g1: Graph, g2: Graph, x: int, fs: seq<int>, y: int)
    requires LeafPassed(g1, g2, x, fs) && y != x
    ensures LeafPassed(g1, Link(g2, Some(x), y), x, fs + [y])
  {
    LinkFacts(g2, Some(x), y);
    assert (fs + [y])[..|fs|] == fs;
  }

  /** The invariant of the root loop of `construct_impl(null, 2)` after i
      iterations: which nodes exist, the root's edges, the other nodes'
      edges. */
  ghost predicate RootPassed(allowed: seq<int>, g: Graph, i: nat)
    requires i <= |allowed|
  {
    RootKeys(allowed, g, i) && RootEdges(allowed, g, i) && NodeEdges(allowed, g, i)
  }

  ghost predicate RootKeys(allowed: seq<int>, g: Graph, i: nat)
    requires i <= |allowed|
  {
    && (forall k :: k in g ==> k == None || (k.Some? && k.value in allowed))
    && (forall r :: r in allowed[..i] ==> Some(r) in g)
    && (i > 0 ==> None in g)
  }

  ghost predicate RootEdges(allowed: seq<int>, g: Graph, i: nat)
    requires i <= |allowed|
  {
    Edges(g, None) == AppendAll([], allowed[..i])
  }

  ghost predicate NodeEdges(allowed: seq<int>, g: Graph, i: nat)
    requires i <= |allowed|
  {
    && (forall r :: r in allowed[..i] ==> Some(r) in g && g[Some(r)] == AppendAll([], Followers(allowed, Some(r))))
    && (forall r :: Some(r) in g && r !in allowed[..i] ==> g[Some(r)] == [])
  }

  lemma {:induction false} RootPass(allowed: seq<int>, i: nat)
    requires i <= |allowed|
    ensures RootPassed(allowed, Pass(allowed, map[], None, 2, i), i)
  {
    if i > 0 {
      RootPass(allowed, i - 1);
      RootIterate(allowed, i);
    }
  }

  /** Iteration i of the root loop keeps the loop's invariant. */
  lemma RootIterate(allowed: seq<int>, i: nat)
    requires 0 < i <= |allowed|
    requires RootPassed(allowed, Pass(allowed, map[], None, 2, i - 1), i - 1)
    ensures RootPassed(allowed, Pass(allowed, map[], None, 2, i), i)
  {
    var g0 := Pass(allowed, map[], None, 2, i - 1);
    var x := allowed[i - 1];
    var g1 := Link(Ensure(g0, None), None, x);
    var g2 := Pass(allowed, g1, Some(x), 1, |allowed|);
    IterationLink(g0, x);
    IterationLeaf(allowed, g1, x);
    RootStep(allowed, i, g0, g1, g2);
    RootUnfold(allowed, i, g0, g1, g2);
  }

  /** Iteration i of the root loop of `construct_impl(null, 2)`. */
  lemma RootUnfold(allowed: seq<int>, i: nat, g0: Graph, g1: Graph, g2: Graph)
    requires 0 < i <= |allowed|
    requires g0 == Pass(allowed, map[], None, 2, i - 1)
    requires g1 == Link(Ensure(g0, None), None, allowed[i - 1])
    requires g2 == Pass(allowed, g1, Some(allowed[i - 1]), 1, |allowed|)
    ensures Pass(allowed, map[], None, 2, i) == g2
  {
  }

  /** One iteration of the root loop keeps its invariant. */
  lemma RootStep(allowed: seq<int>, i: nat, g0: Graph, g1: Graph, g2: Graph)
    requires 0 < i <= |allowed|
    requires RootPassed(allowed, g0, i - 1)
    requires RootLinked(g0, g1, allowed[i - 1])
    requires LeafPassed(g1, g2, allowed[i - 1], Followers(allowed, Some(allowed[i - 1])))
    ensures RootPassed(allowed, g2, i)
  {
    RootKeysStep(allowed, i, g0, g1, g2);
    RootEdgesStep(allowed, i, g0, g1, g2);
    NodeEdgesStep(allowed, i, g0, g1, g2);
  }

  /** What one iteration of the root loop does: the root gains edge x (node
      x created if absent), then `construct_impl(x, 1)` gives node x all
      followers of x, creating their nodes empty. */
  ghost predicate RootIteration(allowed: seq<int>, i: nat, g0: Graph, g1: Graph, g2: Graph)
    requires 0 < i <= |allowed|
  {
    RootLinked(g0, g1, allowed[i - 1]) && LeafPassed(g1, g2, allowed[i - 1], Followers(allowed, Some(allowed[i - 1])))
  }

  ghost predicate RootLinked(g0: Graph, g1: Graph, x: int) {
    && (forall k :: k in g1 <==> k in g0 || k == None || k == Some(x))
    && g1[None] == Append(Edges(g0, None), x)
    && (forall k :: k in g0 && k != None ==> g1[k] == g0[k])
    && (Some(x) !in g0 ==> g1[Some(x)] == [])
  }

  ghost predicate LeafPassed(g1: Graph, g2: Graph, x: int, fx: seq<int>) {
    && Some(x) in g1
    && (forall k :: k in g2 <==> k in g1 || (k.Some? && k.value in fx))
    && g2[Some(x)] == AppendAll(g1[Some(x)], fx)
    && (forall k :: k in g1 && k != Some(x) ==> g2[k] == g1[k])
    && (forall k :: k in g2 && k !in g1 ==> g2[k] == [])
  }

  lemma IterationLink(g0: Graph, x: int)
    ensures RootLinked(g0, Link(Ensure(g0, None), None, x), x)
    ensures Some(x) in Link(Ensure(g0, None), None, x)
  {
    LinkFacts(Ensure(g0, None), None, x);
    assert Edges(Ensure(g0, None), None) == Edges(g0, None);
  }

  lemma IterationLeaf(allowed: seq<int>, g1: Graph, x: int)
    requires Some(x) in g1
    ensures LeafPassed(g1, Pass(allowed, g1, Some(x), 1, |allowed|), x, Followers(allowed, Some(x)))
  {
    PassLeaf(allowed, g1, x, |allowed|);
    assert allowed[..|allowed|] == allowed;
  }

  lemma RootKeysStep(allowed: seq<int>, i: nat, g0: Graph, g1: Graph, g2: Graph)
    requires 0 < i <= |allowed|
    requires RootKeys(allowed, g0, i - 1) && RootIteration(allowed, i, g0, g1, g2)
    ensures RootKeys(allowed, g2, i)
  {
    var x := allowed[i - 1];
    PrefixStep(allowed, i);
    FollowersWithin(allowed, Some(x));
    assert x in allowed;
    forall k | k in g2
      ensures k == None || (k.Some? && k.value in allowed)
    {
      if k !in g1 {
        assert k.Some? && k.value in Followers(allowed, Some(x));
        var v := k.value;
        assert v in Followers(allowed, Some(x));
        assert forall y :: y in Followers(allowed, Some(x)) ==> y in allowed;
        assert v in allowed;
      } else if k in g0 {
        assert k == None || (k.Some? && k.value in allowed);
      } else {
        assert k == None || k == Some(x);
      }
    }
  }

  lemma RootEdgesStep(allowed: seq<int>, i: nat, g0: Graph, g1: Graph, g2: Graph)
    requires 0 < i <= |allowed|
    requires RootEdges(allowed, g0, i - 1) && RootIteration(allowed, i, g0, g1, g2)
    ensures RootEdges(allowed, g2, i)
  {
    assert Edges(g2, None) == g1[None];
    AppendAllStep([], allowed, i);
  }

  lemma NodeEdgesStep(allowed: seq<int>, i: nat, g0: Graph, g1: Graph, g2: Graph)
    requires 0 < i <= |allowed|
    requires NodeEdges(allowed, g0, i - 1) && RootIteration(allowed, i, g0, g1, g2)
    ensures NodeEdges(allowed, g2, i)
  {
    var x := allowed[i - 1];
    PrefixStep(allowed, i);
    var fx := Followers(allowed, Some(x));
    if x in allowed[..i - 1] {
      AppendAllMembers([], fx);
      AppendAllPresent(g1[Some(x)], fx);
    } else {
      assert g1[Some(x)] == [];
    }
    forall r | r in allowed[..i] && r != x
      ensures Some(r) in g2 && g2[Some(r)] == AppendAll([], Followers(allowed, Some(r)))
    {
      assert g1[Some(r)] == g0[Some(r)];
    }
    forall r | Some(r) in g2 && r !in allowed[..i]
      ensures g2[Some(r)] == []
    {
      if Some(r) in g0 {
        assert g2[Some(r)] == g1[Some(r)] == g0[Some(r)];
      }
    }
  }

  /** Membership in a prefix one element longer. */
  lemma PrefixStep(s: seq<int>, i: nat)
    requires 0 < i <= |s|
    ensures forall r :: r in s[..i] <==> r in s[..i - 1] || r == s[i - 1]
  {
    assert s[..i] == s[..i - 1] + [s[i - 1]];
  }

  /** Setting the keys of a prefix one element longer. */
  lemma AppendAllStep(edges: seq<int>, s: seq<int>, i: nat)
    requires 0 < i <= |s|
    ensures AppendAll(edges, s[..i]) == Append(AppendAll(edges, s[..i - 1]), s[i - 1])
  {
    assert s[..i][..i - 1] == s[..i - 1];
  }

  /** `construct_move_set` builds a graph of the shape `MoveSetShape`
      describes. */
  lemma MoveSetCharacterised(allowed: seq<int>)
    ensures MoveSetShape(allowed, MoveSet(allowed))
  {
    RootPass(allowed, |allowed|);
    assert allowed[..|allowed|] == allowed;
    var g0 := Construct(allowed, map[], None, 2);
    ShapeKeys(allowed, g0);
    ShapeRoot(allowed, g0);
    ShapeNodes(allowed, g0);
  }

  lemma ShapeKeys(allowed: seq<int>, g0: Graph)
    requires RootKeys(allowed, g0, |allowed|)
    ensures Ensure(g0, None).Keys == {None} + (set r | r in allowed :: Some(r))
  {
    var g := Ensure(g0, None);
    assert allowed[..|allowed|] == allowed;
    forall k
      ensures k in g <==> k in {None} + (set r | r in allowed :: Some(r))
    {
      if k in g {
        assert k == None || (k.Some? && k.value in allowed);
      }
      if k.Some? && k.value in allowed {
        var v := k.value;
        assert v in allowed[..|allowed|];
        assert Some(v) in g0;
      }
    }
  }

  lemma ShapeRoot(allowed: seq<int>, g0: Graph)
    requires RootEdges(allowed, g0, |allowed|)
    ensures forall r :: r in Edges(Ensure(g0, None), None) <==> r in allowed
    ensures NoDuplicates(Ensure(g0, None)[None])
  {
    assert allowed[..|allowed|] == allowed;
    assert Edges(Ensure(g0, None), None) == AppendAll([], allowed);
    AppendAllMembers([], allowed);
    AppendAllNoDuplicates([], allowed);
  }

  lemma ShapeNodes(allowed: seq<int>, g0: Graph)
    requires NodeEdges(allowed, g0, |allowed|)
    ensures forall r, r2 :: r in allowed ==>
              (r2 in Edges(Ensure(g0, None), Some(r)) <==> r2 in allowed && MoveAllowed(r2, Some(r)))
    ensures forall node :: node in Ensure(g0, None) && node != None ==> NoDuplicates(Ensure(g0, None)[node])
  {
    var g := Ensure(g0, None);
    assert allowed[..|allowed|] == allowed;
    forall r | r in allowed
      ensures forall r2 :: r2 in Edges(g, Some(r)) <==> r2 in allowed && MoveAllowed(r2, Some(r))
    {
      assert g[Some(r)] == g0[Some(r)] == AppendAll([], Followers(allowed, Some(r)));
      AppendAllMembers([], Followers(allowed, Some(r)));
      FollowersMembers(allowed, Some(r));
    }
    forall node | node in g && node != None
      ensures NoDuplicates(g[node])
    {
      var r := node.value;
      if r in allowed[..|allowed|] {
        AppendAllNoDuplicates([], Followers(allowed, Some(r)));
      } else {
        assert g[Some(r)] == [];
      }
    }
  }

  // ---------------------------------------------------------------------
  // Counting: `count_moves`

  /** What `count_moves_impl(node, depth)` returns: every edge counts one
      move plus the moves below it; nothing is counted at or past
      `maxDepth`.  So each edge counts at least once, and at the last level
      exactly once. */
  function Count(g: Graph, node: Option<int>, depth: int, maxDepth: int): (n: nat)
    ensures depth < maxDepth ==> n >= |Edges(g, node)|
    ensures depth + 1 == maxDepth ==> n == |Edges(g, node)|
    decreases maxDepth - depth, 1, 0
  {
    if depth >= maxDepth then 0 else SumBelow(g, Edges(g, node), depth, maxDepth)
  }

  /** The loop of `count_moves_impl` over the given edges. */
  function SumBelow(g: Graph, edges: seq<int>, depth: int, maxDepth: int): (n: nat)
    requires depth < maxDepth
    ensures n >= |edges|
    ensures depth + 1 == maxDepth ==> n == |edges|
    decreases maxDepth - depth, 0, |edges|
  {
    if edges == [] then 0
    else
      SumBelow(g, edges[..|edges| - 1], depth, maxDepth)
      + Count(g, Some(edges[|edges| - 1]), depth + 1, maxDepth) + 1
  }

  /** An independent reading of the count: the number of walks of exactly
      `len` edges that start at `node`. */
  function Walks(g: Graph, node: Option<int>, len: nat): nat
    decreases len, 1, 0
  {
    if len == 0 then 1 else WalksVia(g, Edges(g, node), len - 1)
  }

  /** Walks of `len` edges from each of the given nodes, added up. */
  function WalksVia(g: Graph, edges: seq<int>, len: nat): nat
    decreases len, 2, |edges|
  {
    if edges == [] then 0
    else WalksVia(g, edges[..|edges| - 1], len) + Walks(g, Some(edges[|edges| - 1]), len)
  }

  /** Walks of 1 to n edges from `node`. */
  function WalksUpTo(g: Graph, node: Option<int>, n: nat): nat {
    if n == 0 then 0 else WalksUpTo(g, node, n - 1) + Walks(g, node, n)
  }

  /** For each given node: one for the edge into it plus the walks of 1 to
      n edges from it. */
  function StepsVia(g: Graph, edges: seq<int>, n: nat): nat {
    if edges == [] then 0
    else StepsVia(g, edges[..|edges| - 1], n) + 1 + WalksUpTo(g, Some(edges[|edges| - 1]), n)
  }

  lemma {:induction false} StepsViaZero(g: Graph, edges: seq<int>)
    ensures StepsVia(g, edges, 0) == WalksVia(g, edges, 0) == |edges|
  {
    if edges != [] {
      StepsViaZero(g, edges[..|edges| - 1]);
    }
  }

  lemma {:induction false} StepsViaNext(g: Graph, edges: seq<int>, n: nat)
    ensures StepsVia(g, edges, n + 1) == StepsVia(g, edges, n) + WalksVia(g, edges, n + 1)
  {
    if edges != [] {
      StepsViaNext(g, edges[..|edges| - 1], n);
    }
  }

  /** A walk of 1 to n+1 edges is a first edge followed by a walk of 0 to n
      edges. */
  lemma {:induction false} WalksUpToSplit(g: Graph, node: Option<int>, n: nat)
    ensures WalksUpTo(g, node, n + 1) == StepsVia(g, Edges(g, node), n)
  {
    if n == 0 {
      StepsViaZero(g, Edges(g, node));
    } else {
      WalksUpToSplit(g, node, n - 1);
      StepsViaNext(g, Edges(g, node), n - 1);
    }
  }

  /** `count_moves_impl(node, depth)` counts the walks of 1 to
      `maxDepth - depth` edges from `node`: the total the solver reports is
      the number of move sequences of length 1 to `max_moves` it can try. */
  lemma {:induction false} CountIsWalks(g: Graph, node: Option<int>, depth: int, maxDepth: int)
    requires depth <= maxDepth
    ensures Count(g, node, depth, maxDepth) == WalksUpTo(g, node, maxDepth - depth)
    decreases maxDepth - depth, 1, 0
  {
    if depth < maxDepth {
      SumBelowIsSteps(g, Edges(g, node), depth, maxDepth);
      WalksUpToSplit(g, node, maxDepth - depth - 1);
    }
  }

  lemma {:induction false} SumBelowIsSteps(g: Graph, edges: seq<int>, depth: int, maxDepth: int)
    requires depth < maxDepth
    ensures SumBelow(g, edges, depth, maxDepth) == StepsVia(g, edges, maxDepth - depth - 1)
    decreases maxDepth - depth, 0, |edges|
  {
    if edges != [] {
      SumBelowIsSteps(g, edges[..|edges| - 1], depth, maxDepth);
      CountIsWalks(g, Some(edges[|edges| - 1]), depth + 1, maxDepth);
    }
  }

  type Cache = map<Option<int>, map<int, nat>>

  /** Every cached count is the count of its node and depth. */
  ghost predicate CacheSound(g: Graph, cache: Cache, maxDepth: int) {
    forall node, d :: node in cache && d in cache[node] ==> cache[node][d] == Count(g, node, d, maxDepth)
  }

  /** A cached count below the last level was computed from its children,
      so they are cached one level down. */
  ghost predicate CacheComplete(g: Graph, cache: Cache, maxDepth: int) {
    forall node, d, r :: node in cache && d in cache[node] && d + 1 < maxDepth && r in Edges(g, node) ==>
      Some(r) in cache && d + 1 in cache[Some(r)]
  }

  /** Entries are never removed. */
  ghost predicate CacheGrows(before: Cache, after: Cache) {
    && (forall node :: node in before ==> node in after)
    && (forall node, d :: node in before && d in before[node] ==> node in after && d in after[node])
  }

  /** Every edge in `edges` has its count one level down cached (when that
      level is below the limit). */
  ghost predicate ChildrenCached(cache: Cache, edges: seq<int>, depth: int, maxDepth: int) {
    depth + 1 < maxDepth ==> forall r :: r in edges ==> Some(r) in cache && depth + 1 in cache[Some(r)]
  }

  /** Counting child i keeps the children before it cached and adds it. */
  lemma ChildStep(before: Cache, after: Cache, edges: seq<int>, i: int, depth: int, maxDepth: int)
    requires 0 <= i < |edges|
    requires ChildrenCached(before, edges[..i], depth, maxDepth) && CacheGrows(before, after)
    requires depth + 1 < maxDepth ==> Some(edges[i]) in after && depth + 1 in after[Some(edges[i])]
    ensures ChildrenCached(after, edges[..i + 1], depth, maxDepth)
  {
    assert edges[..i + 1] == edges[..i] + [edges[i]];
  }

  /** One more edge of the loop of `count_moves_impl`. */
  lemma SumBelowStep(g: Graph, edges: seq<int>, i: int, depth: int, maxDepth: int)
    requires 0 <= i < |edges| && depth < maxDepth
    ensures SumBelow(g, edges[..i + 1], depth, maxDepth)
            == SumBelow(g, edges[..i], depth, maxDepth) + Count(g, Some(edges[i]), depth + 1, maxDepth) + 1
  {
    assert edges[..i + 1][..i] == edges[..i];
  }

  /** The loop of `solve_impl` over edges, one edge at a time: each edge
      adds its own count and one for itself, and a prefix never adds up to
      more than the whole. */
  lemma SumBelowNext(g: Graph, edges: seq<int>, i: int, depth: int, maxDepth: int)
    requires 0 <= i < |edges| && depth < maxDepth
    ensures SumBelow(g, edges[..i + 1], depth, maxDepth)
            == SumBelow(g, edges[..i], depth, maxDepth) + Count(g, Some(edges[i]), depth + 1, maxDepth) + 1
    ensures SumBelow(g, edges[..i + 1], depth, maxDepth) <= SumBelow(g, edges, depth, maxDepth)
    ensures edges[..i + 1] == edges[..i] + [edges[i]]
  {
    SumBelowStep(g, edges, i, depth, maxDepth);
    SumBelowPrefix(g, edges, i + 1, depth, maxDepth);
  }

  lemma SumBelowWhole(g: Graph, edges: seq<int>, depth: int, maxDepth: int)
    requires depth < maxDepth
    ensures edges[..|edges|] == edges
    ensures SumBelow(g, edges[..|edges|], depth, maxDepth) == SumBelow(g, edges, depth, maxDepth)
  {
    assert edges[..|edges|] == edges;
  }

  lemma {:induction false} SumBelowPrefix(g: Graph, edges: seq<int>, j: int, depth: int, maxDepth: int)
    requires 0 <= j <= |edges| && depth < maxDepth
    ensures SumBelow(g, edges[..j], depth, maxDepth) <= SumBelow(g, edges, depth, maxDepth)
    decreases |edges|
  {
    if j == |edges| {
      assert edges[..j] == edges;
    } else {
      var init := edges[..|edges| - 1];
      SumBelowPrefix(g, init, j, depth, maxDepth);
      assert init[..j] == edges[..j];
    }
  }

  lemma GrowsTransitive(a: Cache, b: Cache, c: Cache)
    requires CacheGrows(a, b) && CacheGrows(b, c)
    ensures CacheGrows(a, c)
  {
  }

  /** `move_cache[move] = {}`. */
  lemma NewNodeKeeps(g: Graph, cache: Cache, move: Option<int>, maxDepth: int)
    requires move !in cache
    requires CacheSound(g, cache, maxDepth) && CacheComplete(g, cache, maxDepth)
    ensures var c' := cache[move := map[]];
            CacheSound(g, c', maxDepth) && CacheComplete(g, c', maxDepth) && CacheGrows(cache, c')
  {
  }

  /** `cached[depth] = cached_depth` once every child is counted. */
  lemma StoreKeeps(g: Graph, cache: Cache, move: Option<int>, depth: int, maxDepth: int)
    requires move in cache && depth < maxDepth
    requires CacheSound(g, cache, maxDepth) && CacheComplete(g, cache, maxDepth)
    requires ChildrenCached(cache, Edges(g, move), depth, maxDepth)
    ensures var row: map<int, nat> := cache[move][depth := Count(g, move, depth, maxDepth)];
            var c' := cache[move := row];
            CacheSound(g, c', maxDepth) && CacheComplete(g, c', maxDepth) && CacheGrows(cache, c')
  {
    var row: map<int, nat> := cache[move][depth := Count(g, move, depth, maxDepth)];
    StoreSound(g, cache, move, depth, maxDepth, row);
    StoreComplete(g, cache, move, depth, maxDepth, row);
  }

  lemma StoreSound(g: Graph, cache: Cache, move: Option<int>, depth: int, maxDepth: int, row: map<int, nat>)
    requires move in cache && CacheSound(g, cache, maxDepth)
    requires row == cache[move][depth := Count(g, move, depth, maxDepth)]
    ensures CacheSound(g, cache[move := row], maxDepth)
  {
    var c' := cache[move := row];
    forall node, d | node in c' && d in c'[node]
      ensures c'[node][d] == Count(g, node, d, maxDepth)
    {
      if node != move || d != depth {
        assert d in cache[node];
      }
    }
  }

  lemma StoreComplete(g: Graph, cache: Cache, move: Option<int>, depth: int, maxDepth: int, row: map<int, nat>)
    requires move in cache && CacheComplete(g, cache, maxDepth)
    requires ChildrenCached(cache, Edges(g, move), depth, maxDepth)
    requires row == cache[move][depth := Count(g, move, depth, maxDepth)]
    ensures CacheComplete(g, cache[move := row], maxDepth)
  {
    var c' := cache[move := row];
    forall node, d, r | node in c' && d in c'[node] && d + 1 < maxDepth && r in Edges(g, node)
      ensures Some(r) in c' && d + 1 in c'[Some(r)]
    {
      if node != move || d != depth {
        assert d in cache[node];
      }
    }
  }

  /** `count_moves`'s memo table `move_cache` and the recursion that fills
      it. */
  class MoveCounter {
    const graph: Graph
    const maxDepth: int
    var cache: Cache

    constructor (graph: Graph, maxDepth: int)
      ensures this.graph == graph && this.maxDepth == maxDepth && cache == map[]
    {
      this.graph := graph;
      this.maxDepth := maxDepth;
      cache := map[];
    }

    /** `count_moves_impl(move_set[move], move, depth)`. */
    method CountImpl(move: Option<int>, depth: int) returns (c: nat)
      requires CacheSound(graph, cache, maxDepth) && CacheComplete(graph, cache, maxDepth)
      modifies this
      decreases maxDepth - depth
      ensures CacheSound(graph, cache, maxDepth) && CacheComplete(graph, cache, maxDepth)
      ensures CacheGrows(old(cache), cache)
      ensures c == Count(graph, move, depth, maxDepth)
      ensures depth < maxDepth ==> move in cache && depth in cache[move]
      ensures depth >= maxDepth ==> cache == old(cache)
    {
      if depth >= maxDepth {
        return 0;
      }
      if move !in cache {
        NewNodeKeeps(graph, cache, move, maxDepth);
        cache := cache[move := map[]];
      } else if depth in cache[move] {
        return cache[move][depth];
      }
      var edges := Edges(graph, move);
      var total := 0;
      for i := 0 to |edges|
        invariant CacheSound(graph, cache, maxDepth) && CacheComplete(graph, cache, maxDepth)
        invariant CacheGrows(old(cache), cache) && move in cache
        invariant total == SumBelow(graph, edges[..i], depth, maxDepth)
        invariant ChildrenCached(cache, edges[..i], depth, maxDepth)
      {
        ghost var before := cache;
        var below := CountImpl(Some(edges[i]), depth + 1);
        GrowsTransitive(old(cache), before, cache);
        ChildStep(before, cache, edges, i, depth, maxDepth);
        SumBelowStep(graph, edges, i, depth, maxDepth);
        total := total + below + 1;
      }
      SumBelowWhole(graph, edges, depth, maxDepth);
      StoreKeeps(graph, cache, move, depth, maxDepth);
      var row: map<int, nat> := cache[move][depth := total];
      GrowsTransitive(old(cache), cache, cache[move := row]);
      cache := cache[move := row];
      c := total;
    }
  }

  /** `count_moves(move_set, max_depth)`: the memo table after counting from
      the root at depth 0.  Its root entry is the total the solver reports;
      with `maxDepth <= 0` the table stays empty. */
  method CountMoves(g: Graph, maxDepth: int) returns (cache: Cache)
    ensures CacheSound(g, cache, maxDepth) && CacheComplete(g, cache, maxDepth)
    ensures maxDepth > 0 ==> None in cache && 0 in cache[None]
    ensures maxDepth <= 0 ==> cache == map[]
  {
    var counter := new MoveCounter(g, maxDepth);
    var total := counter.CountImpl(None, 0);
    cache := counter.cache;
  }


  // ---------------------------------------------------------------------
  // The search: `solve` and `solve_impl`

  /** The objects `solve` passes to its callback. */
  datatype Event = Solution(moves: seq<int>) | Progress(count: nat, total: nat)

  /** What `solve` returns: `[[]]` for a cube that is already solved; nothing
      after a search, whose results went to the callback; or an exception. */
  datatype Outcome = AlreadySolved | Searched(events: seq<Event>) | Crashed

  /** Two move sequences with the same parent: same length, same moves but
      possibly the last. */
  predicate Siblings(a: seq<int>, b: seq<int>) {
    |a| == |b| && |a| > 0 && a[..|a| - 1] == b[..|b| - 1]
  }

  /** The part of the search that `break` leaves out once the solution a is
      reported: every sequence through a's parent that is at least as long
      as a (a itself, its siblings and everything below them). */
  predicate Skipped(a: seq<int>, ms: seq<int>) {
    |a| > 0 && |ms| >= |a| && ms[..|a| - 1] == a[..|a| - 1]
  }

  /** The skipped part holds the solution itself and all its siblings. */
  lemma SkippedSiblings(a: seq<int>, b: seq<int>)
    ensures Siblings(a, b) ==> Skipped(a, b)
    ensures |a| > 0 ==> Skipped(a, a)
    ensures Skipped(a, b) && |b| == |a| ==> Siblings(a, b)
  {
  }

  /** The node a move sequence has reached: the root, or its last move. */
  function Reached(ms: seq<int>): Option<int> {
    if ms == [] then None else Some(ms[|ms| - 1])
  }

  /** ms follows the edges of g from the root. */
  predicate IsWalk(g: Graph, ms: seq<int>) {
    ms == [] || (IsWalk(g, ms[..|ms| - 1]) && ms[|ms| - 1] in Edges(g, Reached(ms[..|ms| - 1])))
  }

  /** Every move of ms is allowed and may follow the move before it. */
  predicate IsAllowedSequence(allowed: seq<int>, ms: seq<int>) {
    forall i :: 0 <= i < |ms| ==> ms[i] in allowed && MoveAllowed(ms[i], Reached(ms[..i]))
  }

  /** One more move: allowed if the moves so far are, the move is among
      the allowed ones and it may follow the last of them. */
  lemma AllowedSnoc(allowed: seq<int>, ms: seq<int>, x: int)
    ensures IsAllowedSequence(allowed, ms + [x]) <==>
              IsAllowedSequence(allowed, ms) && x in allowed && MoveAllowed(x, Reached(ms))
  {
    var ms' := ms + [x];
    assert ms'[..|ms|] == ms;
    forall i | 0 <= i < |ms|
      ensures ms'[i] == ms[i] && ms'[..i] == ms[..i]
    {
      assert ms'[..i] == ms'[..|ms|][..i];
    }
  }

  /** The walks of the graph that `construct_move_set` builds are exactly
      the allowed move sequences. */
  lemma {:induction false} WalkIsAllowed(allowed: seq<int>, ms: seq<int>)
    ensures IsWalk(MoveSet(allowed), ms) <==> IsAllowedSequence(allowed, ms)
  {
    if ms != [] {
      var init := ms[..|ms| - 1];
      var x := ms[|ms| - 1];
      WalkIsAllowed(allowed, init);
      AllowedSnoc(allowed, init, x);
      assert init + [x] == ms;
      MoveSetCharacterised(allowed);
      if init != [] && IsAllowedSequence(allowed, init) {
        assert init[|init| - 1] in allowed;
      }
    }
  }

  /** No state strictly before the end of ms, the start included, is
      solved. */
  ghost predicate UnsolvedBefore(start: seq<int>, target: seq<int>, ms: seq<int>)
    requires |start| == CELLS
  {
    ms == [] ||
    (UnsolvedBefore(start, target, ms[..|ms| - 1]) && !SolvedAfter(start, target, ms[..|ms| - 1]))
  }

  /** The moves ms lead from start to a state that matches the target. */
  ghost predicate SolvedAfter(start: seq<int>, target: seq<int>, ms: seq<int>)
    requires |start| == CELLS
  {
    IsEqualWithIgnored(Applied(start, ms), target)
  }

  /** A reported solution: 1 to maxMoves moves along the graph that end in a
      state matching the target, with no solved state on the way. */
  ghost predicate ValidSolution(g: Graph, start: seq<int>, target: seq<int>, maxMoves: int, ms: seq<int>)
    requires |start| == CELLS
  {
    && 1 <= |ms| <= maxMoves
    && IsWalk(g, ms)
    && SolvedAfter(start, target, ms)
    && UnsolvedBefore(start, target, ms)
  }

  /** The count of the last progress report, 0 before the first. */
  function LastCount(events: seq<Event>): nat {
    if events == [] then 0
    else if events[|events| - 1].Progress? then events[|events| - 1].count
    else LastCount(events[..|events| - 1])
  }

  /** What the callback may receive after `sent`: a valid solution that does
      not lie in the part skipped after an earlier solution (so it is no
      earlier solution, nor a sibling of one, nor below such a sibling), or a
      progress report against the total whose count is no lower than the
      last one and no higher than the total. */
  ghost predicate EventOk(g: Graph, start: seq<int>, target: seq<int>, maxMoves: int, total: nat,
                          sent: seq<Event>, e: Event)
    requires |start| == CELLS
  {
    match e
    case Solution(ms) =>
      && ValidSolution(g, start, target, maxMoves, ms)
      && forall i :: 0 <= i < |sent| && sent[i].Solution? ==> !Skipped(sent[i].moves, ms)
    case Progress(c, t) => t == total && LastCount(sent) <= c <= total
  }

  /** Every event was acceptable when it was sent. */
  ghost predicate EventsOk(g: Graph, start: seq<int>, target: seq<int>, maxMoves: int, total: nat,
                           events: seq<Event>)
    requires |start| == CELLS
  {
    events == [] ||
    (EventsOk(g, start, target, maxMoves, total, events[..|events| - 1])
     && EventOk(g, start, target, maxMoves, total, events[..|events| - 1], events[|events| - 1]))
  }

  /** Acceptable events stay acceptable when the later ones are dropped,
      and the event at k was acceptable after those before it. */
  lemma {:induction false} EventsOkPrefix(g: Graph, start: seq<int>, target: seq<int>, maxMoves: int,
                                          total: nat, events: seq<Event>, k: int)
    requires |start| == CELLS && EventsOk(g, start, target, maxMoves, total, events) && 0 <= k < |events|
    ensures EventsOk(g, start, target, maxMoves, total, events[..k])
    ensures EventOk(g, start, target, maxMoves, total, events[..k], events[k])
  {
    var init := events[..|events| - 1];
    if k < |events| - 1 {
      EventsOkPrefix(g, start, target, maxMoves, total, init, k);
      assert init[..k] == events[..k];
    }
  }

  /** Every progress count sent is at most the last one. */
  lemma {:induction false} LastCountBound(g: Graph, start: seq<int>, target: seq<int>, maxMoves: int,
                                          total: nat, events: seq<Event>, i: int)
    requires |start| == CELLS && EventsOk(g, start, target, maxMoves, total, events)
    requires 0 <= i < |events| && events[i].Progress?
    ensures events[i].count <= LastCount(events)
  {
    var init := events[..|events| - 1];
    if i < |events| - 1 {
      LastCountBound(g, start, target, maxMoves, total, init, i);
    }
  }

  /** What the callback receives, event by event: each solution is a valid
      one outside the part skipped after every earlier solution (so neither
      a copy nor a sibling of one, nor below such a sibling); each progress
      report carries the total and a count no lower than any earlier
      report's and no higher than the total. */
  lemma SentEvents(g: Graph, start: seq<int>, target: seq<int>, maxMoves: int, total: nat,
                   events: seq<Event>, k: int)
    requires |start| == CELLS && EventsOk(g, start, target, maxMoves, total, events) && 0 <= k < |events|
    ensures events[k].Solution? ==> ValidSolution(g, start, target, maxMoves, events[k].moves)
    ensures events[k].Solution? ==>
              forall i :: 0 <= i < k && events[i].Solution? ==> !Skipped(events[i].moves, events[k].moves)
    ensures events[k].Progress? ==> events[k].total == total && events[k].count <= total
    ensures events[k].Progress? ==>
              forall i :: 0 <= i < k && events[i].Progress? ==> events[i].count <= events[k].count
  {
    EventsOkPrefix(g, start, target, maxMoves, total, events, k);
    var sent := events[..k];
    forall i | 0 <= i < k
      ensures sent[i] == events[i]
    {
    }
    if events[k].Progress? {
      forall i | 0 <= i < k && events[i].Progress?
        ensures events[i].count <= events[k].count
      {
        LastCountBound(g, start, target, maxMoves, total, sent, i);
      }
    }
  }

  /** No reported solution extends the path p (p itself or longer). */
  ghost predicate NoneExtend(events: seq<Event>, p: seq<int>) {
    forall i :: 0 <= i < |events| && events[i].Solution? ==>
      !(|events[i].moves| > |p| && events[i].moves[..|p|] == p)
  }

  /** The state `solve_impl` closes over: the cubes of each depth, the moves
      made, the memo table, the progress counter and what the callback has
      been sent. */
  class Search {
    const graph: Graph
    const counts: Cache
    const maxMoves: int
    const target: seq<int>
    const total: nat
    const cubes: seq<array<int>>
    const moves: array<int>
    ghost const start: seq<int>
    var count: nat
    var events: seq<Event>

    ghost predicate Valid() {
      && maxMoves >= 1 && |cubes| == maxMoves + 1 && moves.Length == maxMoves
      && |start| == CELLS
      && (forall k :: 0 <= k < |cubes| ==> cubes[k].Length == CELLS && cubes[k] != moves)
      && (forall k, l :: 0 <= k < l < |cubes| ==> cubes[k] != cubes[l])
      && CacheSound(graph, counts, maxMoves) && CacheComplete(graph, counts, maxMoves)
      && (forall node :: node in graph ==> NoDuplicates(graph[node]))
    }

    constructor (graph: Graph, counts: Cache, maxMoves: int, target: seq<int>, total: nat,
                 cubes: seq<array<int>>, moves: array<int>, start: seq<int>)
      ensures this.graph == graph && this.counts == counts && this.maxMoves == maxMoves
      ensures this.target == target && this.total == total && this.cubes == cubes
      ensures this.moves == moves && this.start == start
      ensures count == 0 && events == []
    {
      this.graph := graph;
      this.counts := counts;
      this.maxMoves := maxMoves;
      this.target := target;
      this.total := total;
      this.cubes := cubes;
      this.moves := moves;
      this.start := start;
      count := 0;
      events := [];
    }

    /** Cube k holds the state the moves ms lead to. */
    ghost predicate Holds(k: int, ms: seq<int>)
      requires Valid() && 0 <= k < |cubes|
      reads cubes[k]
    {
      cubes[k][..] == Applied(start, ms)
    }

    /** The path invariant of `solve_impl(node, depth)`: `moves[..depth - 1]`
        is a walk of the graph to `node` that led to `cubes[depth - 1]`
        without passing a solved state. */
    ghost predicate OnPath(node: Option<int>, depth: int, p: seq<int>)
      requires Valid() && 1 <= depth <= maxMoves + 1
      reads moves, cubes[depth - 1]
    {
      && moves[..depth - 1] == p
      && Holds(depth - 1, p)
      && IsWalk(graph, p) && node == Reached(p)
      && UnsolvedBefore(start, target, p) && !SolvedAfter(start, target, p)
      && (depth <= maxMoves ==> node in counts && depth - 1 in counts[node])
    }

    /** `solve_impl(current_move_set, depth)`. */
    method SolveImpl(node: Option<int>, depth: int, ghost p: seq<int>)
      requires Valid() && 1 <= depth <= maxMoves + 1 && OnPath(node, depth, p)
      requires EventsOk(graph, start, target, maxMoves, total, events) && LastCount(events) <= count
      requires NoneExtend(events, p) && NoneSkip(events, p)
      requires depth + 5 <= maxMoves ==> count + Count(graph, node, depth - 1, maxMoves) <= total
      modifies this, moves, set k | depth <= k < |cubes| :: cubes[k]
      decreases maxMoves + 1 - depth, 4
      ensures EventsOk(graph, start, target, maxMoves, total, events) && LastCount(events) <= count
      ensures count >= old(count)
      ensures depth + 5 <= maxMoves ==> count <= old(count) + Count(graph, node, depth - 1, maxMoves)
      ensures depth + 5 > maxMoves ==> count == old(count)
      ensures moves[..depth - 1] == p
      ensures old(events) <= events
      ensures ExtendsAll(events, |old(events)|, p)
      ensures FoundBelow(graph, start, target, maxMoves, events, p)
    {
      if depth > maxMoves {
        FoundBeyond(graph, start, target, maxMoves, events, p);
        return;
      }
      ghost var before := events;
      ghost var broke := false;
      var edges := Edges(graph, node);
      for i := 0 to |edges|
        invariant OnPath(node, depth, p)
        invariant EventsOk(graph, start, target, maxMoves, total, events) && LastCount(events) <= count
        invariant count >= old(count)
        invariant depth + 5 <= maxMoves ==> count <= old(count) + SumBelow(graph, edges[..i], depth - 1, maxMoves)
        invariant depth + 5 > maxMoves ==> count == old(count)
        invariant before <= events
        invariant NewBelow(events, |before|, p, edges[..i])
        invariant !broke && FoundVia(graph, start, target, maxMoves, events, p, edges[..i])
      {
        NotEarlier(edges, i);
        SumBelowNext(graph, edges, i, depth - 1, maxMoves);
        ghost var mid := events;
        var solved := TryMove(node, depth, edges[i], p, before, edges[..i]);

        if solved {
          SkippedFound(graph, start, target, maxMoves, events, p);
          broke := true;
          break;
        }
        FoundViaStep(graph, start, target, maxMoves, mid, events, p, edges, i);
      }
      SumBelowWhole(graph, edges, depth - 1, maxMoves);
      if !broke {
        FoundViaAll(graph, start, target, maxMoves, events, p, edges);
      }
    }

    /** One pass of the loop of `solve_impl`: try the move, then report
        progress at the fifth level from the bottom. */
    method TryMove(node: Option<int>, depth: int, rotation: int,
                   ghost p: seq<int>, ghost before: seq<Event>, ghost done: seq<int>) returns (solved: bool)
      requires Valid() && 1 <= depth <= maxMoves && OnPath(node, depth, p)
      requires rotation in Edges(graph, node) && rotation !in done
      requires EventsOk(graph, start, target, maxMoves, total, events) && LastCount(events) <= count
      requires before <= events
      requires NoneExtend(before, p) && NoneSkip(before, p) && NewBelow(events, |before|, p, done)
      requires depth + 5 <= maxMoves ==> count + Count(graph, Some(rotation), depth, maxMoves) <= total
      modifies this, moves, set k | depth <= k < |cubes| :: cubes[k]
      decreases maxMoves + 1 - depth, 3
      ensures EventsOk(graph, start, target, maxMoves, total, events) && LastCount(events) <= count
      ensures count >= old(count)
      ensures depth + 5 <= maxMoves ==> count <= old(count) + Count(graph, Some(rotation), depth, maxMoves)
      ensures depth + 5 > maxMoves ==> count == old(count)
      ensures OnPath(node, depth, p)
      ensures before <= events
      ensures !solved ==> NewBelow(events, |before|, p, done + [rotation])
      ensures solved ==> ExtendsAll(events, |before|, p)
      ensures old(events) <= events
      ensures solved == SolvedAfter(start, target, p + [rotation])
      ensures solved ==> AllSkipped(events, p)
      ensures !solved ==> FoundBelow(graph, start, target, maxMoves, events, p + [rotation])
    {
      solved := Visit(node, depth, rotation, p, before, done);
      if depth + 5 == maxMoves {
        ReportProgress(node, depth, rotation, p, before, done + [rotation], solved);
      }
    }

    /** Make the move into the next cube and record it, then report a
        solution or search below it. */
    method Visit(node: Option<int>, depth: int, rotation: int,
                 ghost p: seq<int>, ghost before: seq<Event>, ghost done: seq<int>) returns (solved: bool)
      requires Valid() && 1 <= depth <= maxMoves && OnPath(node, depth, p)
      requires rotation in Edges(graph, node) && rotation !in done
      requires EventsOk(graph, start, target, maxMoves, total, events) && LastCount(events) <= count
      requires before <= events
      requires NoneExtend(before, p) && NoneSkip(before, p) && NewBelow(events, |before|, p, done)
      requires depth + 6 <= maxMoves ==> count + Count(graph, Some(rotation), depth, maxMoves) <= total
      modifies this, moves, set k | depth <= k < |cubes| :: cubes[k]
      decreases maxMoves + 1 - depth, 2
      ensures EventsOk(graph, start, target, maxMoves, total, events) && LastCount(events) <= count
      ensures count >= old(count)
      ensures depth + 6 <= maxMoves ==> count <= old(count) + Count(graph, Some(rotation), depth, maxMoves)
      ensures depth + 6 > maxMoves ==> count == old(count)
      ensures OnPath(node, depth, p)
      ensures before <= events
      ensures !solved ==> NewBelow(events, |before|, p, done + [rotation])
      ensures solved ==> ExtendsAll(events, |before|, p)
      ensures old(events) <= events
      ensures solved == SolvedAfter(start, target, p + [rotation])
      ensures solved ==> AllSkipped(events, p)
      ensures !solved ==> FoundBelow(graph, start, target, maxMoves, events, p + [rotation])
    {
      solved := Advance(node, depth, rotation, p);
      if solved {
        ReportSolution(node, depth, rotation, p, before, done);
      } else {
        Descend(node, depth, rotation, p, before, done);
      }
    }

    /** The search below a move that did not solve the cube. */
    method Descend(node: Option<int>, depth: int, rotation: int,
                   ghost p: seq<int>, ghost before: seq<Event>, ghost done: seq<int>)
      requires Valid() && 1 <= depth <= maxMoves && OnPath(node, depth, p)
      requires OnPath(Some(rotation), depth + 1, p + [rotation]) && rotation !in done
      requires EventsOk(graph, start, target, maxMoves, total, events) && LastCount(events) <= count
      requires before <= events
      requires NoneExtend(before, p) && NoneSkip(before, p) && NewBelow(events, |before|, p, done)
      requires depth + 6 <= maxMoves ==> count + Count(graph, Some(rotation), depth, maxMoves) <= total
      modifies this, moves, set k | depth + 1 <= k < |cubes| :: cubes[k]
      decreases maxMoves + 1 - depth, 1
      ensures EventsOk(graph, start, target, maxMoves, total, events) && LastCount(events) <= count
      ensures count >= old(count)
      ensures depth + 6 <= maxMoves ==> count <= old(count) + Count(graph, Some(rotation), depth, maxMoves)
      ensures depth + 6 > maxMoves ==> count == old(count)
      ensures OnPath(node, depth, p)
      ensures before <= events
      ensures NewBelow(events, |before|, p, done + [rotation])
      ensures old(events) <= events
      ensures FoundBelow(graph, start, target, maxMoves, events, p + [rotation])
    {
      EnterChild(before, events, p, done, rotation);
      ghost var mid := events;
      Enter(node, depth, rotation, p);
      ChildBelow(mid, events, |before|, p, done, rotation);
    }

    /** `solve_impl(rotation, depth + 1)`, seen from the level above: the
        path to this level and its cube are left as they were. */
    method Enter(node: Option<int>, depth: int, rotation: int, ghost p: seq<int>)
      requires Valid() && 1 <= depth <= maxMoves && OnPath(node, depth, p)
      requires OnPath(Some(rotation), depth + 1, p + [rotation])
      requires EventsOk(graph, start, target, maxMoves, total, events) && LastCount(events) <= count
      requires NoneExtend(events, p + [rotation]) && NoneSkip(events, p + [rotation])
      requires depth + 6 <= maxMoves ==> count + Count(graph, Some(rotation), depth, maxMoves) <= total
      modifies this, moves, set k | depth + 1 <= k < |cubes| :: cubes[k]
      decreases maxMoves + 1 - depth, 0
      ensures EventsOk(graph, start, target, maxMoves, total, events) && LastCount(events) <= count
      ensures count >= old(count)
      ensures depth + 6 <= maxMoves ==> count <= old(count) + Count(graph, Some(rotation), depth, maxMoves)
      ensures depth + 6 > maxMoves ==> count == old(count)
      ensures OnPath(node, depth, p)
      ensures old(events) <= events
      ensures ExtendsAll(events, |old(events)|, p + [rotation])
      ensures FoundBelow(graph, start, target, maxMoves, events, p + [rotation])
    {
      SolveImpl(Some(rotation), depth + 1, p + [rotation]);
      TakeOfTake(moves[..], depth - 1, depth);
    }

    /** Make the move into the next cube and record it; say whether the
        next cube matches the target.  If not, the path goes on through the
        move. */
    method Advance(node: Option<int>, depth: int, rotation: int, ghost p: seq<int>) returns (solved: bool)
      requires Valid() && 1 <= depth <= maxMoves && OnPath(node, depth, p)
      requires rotation in Edges(graph, node)
      modifies moves, cubes[depth]
      ensures OnPath(node, depth, p)
      ensures moves[..depth] == p + [rotation] && Holds(depth, p + [rotation])
      ensures solved == SolvedAfter(start, target, p + [rotation])
      ensures !solved ==> OnPath(Some(rotation), depth + 1, p + [rotation])
    {
      ghost var q := p + [rotation];
      StepFacts(graph, start, target, p, q, rotation);
      var cube := cubes[depth - 1];
      var nextCube := cubes[depth];
      RotateInto(cube, nextCube, rotation);
      assert Holds(depth, q);
      moves[depth - 1] := rotation;
      assert moves[..depth] == q;
      solved := IsEqualWithIgnored(nextCube[..], target);
    }

    /** Send the solution `moves[..depth]`: the path p and one more move. */
    method ReportSolution(node: Option<int>, depth: int, rotation: int,
                          ghost p: seq<int>, ghost before: seq<Event>, ghost done: seq<int>)
      requires Valid() && 1 <= depth <= maxMoves && OnPath(node, depth, p)
      requires rotation in Edges(graph, node)
      requires moves[..depth] == p + [rotation] && SolvedAfter(start, target, p + [rotation])
      requires EventsOk(graph, start, target, maxMoves, total, events) && LastCount(events) <= count
      requires before <= events
      requires NoneExtend(before, p) && NoneSkip(before, p) && NewBelow(events, |before|, p, done)
      modifies this
      ensures events == old(events) + [Solution(moves[..depth])] && count == old(count)
      ensures EventsOk(graph, start, target, maxMoves, total, events) && LastCount(events) <= count
      ensures before <= events && ExtendsAll(events, |before|, p)
      ensures AllSkipped(events, p)
    {
      var q := moves[..depth];
      Extended(p, q, rotation);
      WalkExtended(graph, p, q);
      UnsolvedExtended(start, target, p, q);
      NoneSkipStep(before, events, p, done, q);
      AddSolution(graph, start, target, maxMoves, total, events, q);
      NewBelowSolved(events, |before|, p, done, q);
      SolutionSkips(events, p, q);
      events := events + [Solution(q)];
    }

    /** The progress report of `solve_impl` at the fifth level from the
        bottom: add the number of move sequences below the move just tried
        to the counter and send it with the total. */
    method ReportProgress(node: Option<int>, depth: int, rotation: int,
                          ghost p: seq<int>, ghost before: seq<Event>, ghost done: seq<int>, ghost solved: bool)
      requires Valid() && 1 <= depth < maxMoves
      requires node in counts && depth - 1 in counts[node] && rotation in Edges(graph, node)
      requires EventsOk(graph, start, target, maxMoves, total, events) && LastCount(events) <= count
      requires count + Count(graph, Some(rotation), depth, maxMoves) <= total
      requires before <= events
      requires !solved ==> NewBelow(events, |before|, p, done)
      requires solved ==> ExtendsAll(events, |before|, p)
      requires solved ==> AllSkipped(events, p)
      requires !solved ==> FoundBelow(graph, start, target, maxMoves, events, p + [rotation])
      modifies this
      ensures count == old(count) + counts[Some(rotation)][depth]
      ensures count == old(count) + Count(graph, Some(rotation), depth, maxMoves) <= total
      ensures events == old(events) + [Progress(count, total)]
      ensures EventsOk(graph, start, target, maxMoves, total, events) && LastCount(events) <= count
      ensures before <= events
      ensures !solved ==> NewBelow(events, |before|, p, done)
      ensures solved ==> ExtendsAll(events, |before|, p)
      ensures solved ==> AllSkipped(events, p)
      ensures !solved ==> FoundBelow(graph, start, target, maxMoves, events, p + [rotation])
    {
      count := count + counts[Some(rotation)][depth];
      AddProgress(graph, start, target, maxMoves, total, count, events);
      ghost var ev := events;
      events := events + [Progress(count, total)];
      ProgressBelow(ev, events, |before|, p, done, solved);
      if solved {
        AllSkippedGrows(ev, events, p);
      } else {
        FoundBelowGrows(graph, start, target, maxMoves, ev, events, p + [rotation]);
      }
    }
  }

  /** Every event sent since index `from` that is a solution extends p (p
      itself or longer). */
  ghost predicate ExtendsAll(events: seq<Event>, from: nat, p: seq<int>) {
    forall k :: from <= k < |events| && events[k].Solution? ==>
      |events[k].moves| > |p| && events[k].moves[..|p|] == p
  }

  /** The events sent since index `from` are solutions that extend p by a
      first move from `done`, and more. */
  ghost predicate NewBelow(events: seq<Event>, from: nat, p: seq<int>, done: seq<int>) {
    forall k :: from <= k < |events| && events[k].Solution? ==>
      |events[k].moves| > |p| + 1 && events[k].moves[..|p|] == p && events[k].moves[|p|] in done
  }

  /** Before descending into p + [r]: solutions sent before this call do
      not extend p, those sent during it start with an earlier edge, so
      none extends the child's path. */
  lemma NoneExtendChild(before: seq<Event>, events: seq<Event>, p: seq<int>, done: seq<int>, r: int)
    requires before <= events && r !in done
    requires NoneExtend(before, p) && NewBelow(events, |before|, p, done)
    ensures NoneExtend(events, p + [r])
  {
    var q := p + [r];
    forall k | 0 <= k < |events| && events[k].Solution?
      ensures !(|events[k].moves| > |q| && events[k].moves[..|q|] == q)
    {
      var m := events[k].moves;
      if k < |before| {
        assert before[k] == events[k];
        assert !(|m| > |p| && m[..|p|] == p);
      } else {
        var v := m[|p|];
        assert v in done;
        assert v != r;
      }
      if |m| > |q| {
        assert m[..|q|][..|p|] == m[..|p|];
        assert m[..|q|][|p|] == m[|p|];
      }
    }
  }

  /** After the child call: what it sent extends p + [r]. */
  lemma ChildBelow(mid: seq<Event>, events: seq<Event>, from: nat, p: seq<int>, done: seq<int>, r: int)
    requires from <= |mid| && mid <= events
    requires NewBelow(mid, from, p, done)
    requires ExtendsAll(events, |mid|, p + [r])
    ensures NewBelow(events, from, p, done + [r])
  {
    forall k | from <= k < |events| && events[k].Solution?
      ensures |events[k].moves| > |p| + 1 && events[k].moves[..|p|] == p && events[k].moves[|p|] in done + [r]
    {
      var m := events[k].moves;
      if k < |mid| {
        assert mid[k] == events[k];
        var v := m[|p|];
        assert v in done;
      } else {
        assert m[..|p| + 1][..|p|] == m[..|p|];
        assert m[|p|] == (p + [r])[|p|];
      }
    }
  }

  /** The solution q = p + [r] itself extends p. */
  lemma NewBelowSolved(events: seq<Event>, from: nat, p: seq<int>, done: seq<int>, q: seq<int>)
    requires from <= |events| && NewBelow(events, from, p, done)
    requires |q| == |p| + 1 && q[..|p|] == p
    ensures ExtendsAll(events + [Solution(q)], from, p)
  {
    var ev := events + [Solution(q)];
    forall k | from <= k < |ev| && ev[k].Solution?
      ensures |ev[k].moves| > |p| && ev[k].moves[..|p|] == p
    {
      if k < |events| {
        assert ev[k] == events[k];
      }
    }
  }

  /** A progress report changes nothing about the solutions sent. */
  lemma ProgressBelow(events: seq<Event>, events': seq<Event>, from: nat, p: seq<int>, done: seq<int>, solved: bool)
    requires from <= |events| && |events'| == |events| + 1 && events <= events'
    requires events'[|events|].Progress?
    requires !solved ==> NewBelow(events, from, p, done)
    requires solved ==> ExtendsAll(events, from, p)
    ensures !solved ==> NewBelow(events', from, p, done)
    ensures solved ==> ExtendsAll(events', from, p)
  {
    forall k | from <= k < |events'| && events'[k].Solution?
      ensures k < |events| && events'[k] == events[k]
    {
    }
  }

  /** A progress report with a count no lower than any before it. */
  lemma AddProgress(g: Graph, start: seq<int>, target: seq<int>, maxMoves: int, total: nat,
                    c: nat, events: seq<Event>)
    requires |start| == CELLS && LastCount(events) <= c <= total
    requires EventsOk(g, start, target, maxMoves, total, events)
    ensures EventsOk(g, start, target, maxMoves, total, events + [Progress(c, total)])
    ensures LastCount(events + [Progress(c, total)]) == c
  {
    var ev := events + [Progress(c, total)];
    assert ev[..|ev| - 1] == events;
  }

  /** A walk extended by an edge of the node it reached. */
  lemma WalkExtended(g: Graph, p: seq<int>, q: seq<int>)
    requires IsWalk(g, p) && |q| == |p| + 1 && q[..|p|] == p && q[|p|] in Edges(g, Reached(p))
    ensures IsWalk(g, q)
  {
  }

  lemma UnsolvedExtended(start: seq<int>, target: seq<int>, p: seq<int>, q: seq<int>)
    requires |start| == CELLS
    requires UnsolvedBefore(start, target, p) && !SolvedAfter(start, target, p)
    requires |q| == |p| + 1 && q[..|p|] == p
    ensures UnsolvedBefore(start, target, q)
  {
  }

  /** Reporting a valid solution q that lies in no earlier solution's
      skipped part. */
  lemma AddSolution(g: Graph, start: seq<int>, target: seq<int>, maxMoves: int, total: nat,
                    events: seq<Event>, q: seq<int>)
    requires |start| == CELLS
    requires EventsOk(g, start, target, maxMoves, total, events)
    requires NoneSkip(events, q) && ValidSolution(g, start, target, maxMoves, q)
    ensures EventsOk(g, start, target, maxMoves, total, events + [Solution(q)])
    ensures LastCount(events + [Solution(q)]) == LastCount(events)
  {
    var ev := events + [Solution(q)];
    assert ev[..|ev| - 1] == events;
  }

  /** No solution sent so far has ms in its skipped part. */
  ghost predicate NoneSkip(events: seq<Event>, ms: seq<int>) {
    forall i :: 0 <= i < |events| && events[i].Solution? ==> !Skipped(events[i].moves, ms)
  }

  /** One move below p: a solution sent before the call at p neither
      extends p nor skips p, and one sent since starts with a move of p's
      loop and is longer than q, so none of them skips q. */
  lemma NoneSkipStep(before: seq<Event>, events: seq<Event>, p: seq<int>, done: seq<int>, q: seq<int>)
    requires before <= events
    requires NoneExtend(before, p) && NoneSkip(before, p) && NewBelow(events, |before|, p, done)
    requires |q| == |p| + 1 && q[..|p|] == p
    ensures NoneSkip(events, q)
  {
    forall i | 0 <= i < |events| && events[i].Solution?
      ensures !Skipped(events[i].moves, q)
    {
      var a := events[i].moves;
      if i < |before| {
        assert before[i] == events[i];
        assert !Skipped(a, p);
        assert !(|a| > |p| && a[..|p|] == p);
      }
    }
  }

  /** Taking edge r from the end of a walk p that has not yet reached a
      solved state. */
  lemma StepFacts(g: Graph, start: seq<int>, target: seq<int>, p: seq<int>, q: seq<int>, r: int)
    requires |start| == CELLS && q == p + [r]
    requires IsWalk(g, p) && r in Edges(g, Reached(p))
    requires UnsolvedBefore(start, target, p) && !SolvedAfter(start, target, p)
    ensures q[..|p|] == p && Reached(q) == Some(r) && IsWalk(g, q)
    ensures Applied(start, q) == Rotated(Applied(start, p), r)
    ensures UnsolvedBefore(start, target, q)
  {
    Extended(p, q, r);
    AppliedSnoc(start, p, r);
    WalkExtended(g, p, q);
    UnsolvedExtended(start, target, p, q);
  }

  /** What the path invariants say one level down, before the child is searched. */
  lemma EnterChild(before: seq<Event>, events: seq<Event>, p: seq<int>, done: seq<int>, r: int)
    requires before <= events && r !in done
    requires NoneExtend(before, p) && NoneSkip(before, p) && NewBelow(events, |before|, p, done)
    ensures NoneExtend(events, p + [r]) && NoneSkip(events, p + [r])
  {
    NoneExtendChild(before, events, p, done, r);
    NoneSkipStep(before, events, p, done, p + [r]);
  }

  lemma TakeOfTake(s: seq<int>, a: int, b: int)
    requires 0 <= a <= b <= |s|
    ensures s[..b][..a] == s[..a]
  {
  }

  lemma Extended(p: seq<int>, q: seq<int>, r: int)
    requires q == p + [r]
    ensures q[..|p|] == p && Reached(q) == Some(r)
  {
    assert q[..|q| - 1] == p;
  }

  // ---------------------------------------------------------------------
  // What the search is sure to report

  /** ms lies in the part of the search that `break` leaves out after some
      solution that was sent.  A solution that was sent lies in its own
      skipped part, so it is covered too. */
  ghost predicate Covered(events: seq<Event>, ms: seq<int>) {
    exists i :: 0 <= i < |events| && events[i].Solution? && Skipped(events[i].moves, ms)
  }

  /** Every valid solution that runs through p and goes on from it is
      covered. */
  ghost predicate FoundBelow(g: Graph, start: seq<int>, target: seq<int>, maxMoves: int,
                             events: seq<Event>, p: seq<int>)
    requires |start| == CELLS
  {
    forall ms {:trigger ValidSolution(g, start, target, maxMoves, ms)} ::
      |ms| > |p| && ms[..|p|] == p && ValidSolution(g, start, target, maxMoves, ms) ==> Covered(events, ms)
  }

  /** The same, for the valid solutions whose move after p is in `done`. */
  ghost predicate FoundVia(g: Graph, start: seq<int>, target: seq<int>, maxMoves: int,
                           events: seq<Event>, p: seq<int>, done: seq<int>)
    requires |start| == CELLS
  {
    forall ms {:trigger ValidSolution(g, start, target, maxMoves, ms)} ::
      |ms| > |p| && ms[..|p|] == p && ms[|p|] in done && ValidSolution(g, start, target, maxMoves, ms) ==>
        Covered(events, ms)
  }

  /** Every sequence that runs through p and goes on from it is covered:
      what the `break` leaves out after a solution one move below p. */
  ghost predicate AllSkipped(events: seq<Event>, p: seq<int>) {
    forall ms {:trigger Covered(events, ms)} :: |ms| > |p| && ms[..|p|] == p ==> Covered(events, ms)
  }

  lemma CoveredGrows(before: seq<Event>, events: seq<Event>, ms: seq<int>)
    requires before <= events && Covered(before, ms)
    ensures Covered(events, ms)
  {
    var i :| 0 <= i < |before| && before[i].Solution? && Skipped(before[i].moves, ms);
    assert events[i] == before[i];
  }

  /** Sending more events loses nothing that was covered. */
  lemma FoundBelowGrows(g: Graph, start: seq<int>, target: seq<int>, maxMoves: int,
                        before: seq<Event>, events: seq<Event>, p: seq<int>)
    requires |start| == CELLS && before <= events
    requires FoundBelow(g, start, target, maxMoves, before, p)
    ensures FoundBelow(g, start, target, maxMoves, events, p)
  {
    forall ms | |ms| > |p| && ms[..|p|] == p && ValidSolution(g, start, target, maxMoves, ms)
      ensures Covered(events, ms)
    {
      CoveredGrows(before, events, ms);
    }
  }

  lemma AllSkippedGrows(before: seq<Event>, events: seq<Event>, p: seq<int>)
    requires before <= events && AllSkipped(before, p)
    ensures AllSkipped(events, p)
  {
    forall ms | |ms| > |p| && ms[..|p|] == p
      ensures Covered(events, ms)
    {
      CoveredGrows(before, events, ms);
    }
  }

  /** The solution q, one move below p, covers every sequence through p
      that is longer than p. */
  lemma SolutionSkips(events: seq<Event>, p: seq<int>, q: seq<int>)
    requires |q| == |p| + 1 && q[..|p|] == p
    ensures AllSkipped(events + [Solution(q)], p)
  {
    var ev := events + [Solution(q)];
    forall ms | |ms| > |p| && ms[..|p|] == p
      ensures Covered(ev, ms)
    {
      assert ev[|events|].Solution? && Skipped(ev[|events|].moves, ms);
    }
  }

  lemma SkippedFound(g: Graph, start: seq<int>, target: seq<int>, maxMoves: int,
                     events: seq<Event>, p: seq<int>)
    requires |start| == CELLS && AllSkipped(events, p)
    ensures FoundBelow(g, start, target, maxMoves, events, p)
  {
    forall ms | |ms| > |p| && ms[..|p|] == p && ValidSolution(g, start, target, maxMoves, ms)
      ensures Covered(events, ms)
    {
    }
  }

  /** Below the last depth there is no valid solution to miss. */
  lemma FoundBeyond(g: Graph, start: seq<int>, target: seq<int>, maxMoves: int,
                    events: seq<Event>, p: seq<int>)
    requires |start| == CELLS && |p| >= maxMoves
    ensures FoundBelow(g, start, target, maxMoves, events, p)
  {
  }

  /** Each move of a walk is an edge of the node the moves before it reach. */
  lemma {:induction false} WalkAt(g: Graph, ms: seq<int>, k: int)
    requires IsWalk(g, ms) && 0 <= k < |ms|
    ensures ms[k] in Edges(g, Reached(ms[..k]))
    decreases |ms|
  {
    var init := ms[..|ms| - 1];
    if k < |ms| - 1 {
      WalkAt(g, init, k);
      assert init[..k] == ms[..k];
    }
  }

  /** One more edge of the loop of `solve_impl` that did not solve the
      cube: the valid solutions through it were covered by the call below
      it, and the one-move extension itself is no solution. */
  lemma FoundViaStep(g: Graph, start: seq<int>, target: seq<int>, maxMoves: int,
                     before: seq<Event>, events: seq<Event>, p: seq<int>, edges: seq<int>, i: int)
    requires |start| == CELLS && before <= events && 0 <= i < |edges|
    requires FoundVia(g, start, target, maxMoves, before, p, edges[..i])
    requires FoundBelow(g, start, target, maxMoves, events, p + [edges[i]])
    requires !SolvedAfter(start, target, p + [edges[i]])
    ensures FoundVia(g, start, target, maxMoves, events, p, edges[..i + 1])
  {
    var q := p + [edges[i]];
    assert edges[..i + 1] == edges[..i] + [edges[i]];
    forall ms | |ms| > |p| && ms[..|p|] == p && ms[|p|] in edges[..i + 1] && ValidSolution(g, start, target, maxMoves, ms)
      ensures Covered(events, ms)
    {
      if ms[|p|] in edges[..i] {
        CoveredGrows(before, events, ms);
      } else {
        assert ms[..|q|] == ms[..|p|] + [ms[|p|]] == q;
        assert ms[..|ms|] == ms;
        assert |ms| != |q|;
      }
    }
  }

  /** After the whole loop: every valid solution through p takes one of the
      node's edges next. */
  lemma FoundViaAll(g: Graph, start: seq<int>, target: seq<int>, maxMoves: int,
                    events: seq<Event>, p: seq<int>, edges: seq<int>)
    requires |start| == CELLS && edges == Edges(g, Reached(p)) && edges[..|edges|] == edges
    requires FoundVia(g, start, target, maxMoves, events, p, edges[..|edges|])
    ensures FoundBelow(g, start, target, maxMoves, events, p)
  {
    forall ms | |ms| > |p| && ms[..|p|] == p && ValidSolution(g, start, target, maxMoves, ms)
      ensures Covered(events, ms)
    {
      WalkAt(g, ms, |p|);
    }
  }

  /** From the root: every valid solution is covered. */
  lemma FoundFromRoot(g: Graph, start: seq<int>, target: seq<int>, maxMoves: int, events: seq<Event>)
    requires |start| == CELLS && FoundBelow(g, start, target, maxMoves, events, [])
    ensures forall ms :: ValidSolution(g, start, target, maxMoves, ms) ==> Covered(events, ms)
  {
    forall ms | ValidSolution(g, start, target, maxMoves, ms)
      ensures Covered(events, ms)
    {
      assert ms[..0] == [];
    }
  }

  // ---------------------------------------------------------------------
  // `solve`

  /** `[...Array(n)].map(() => rubik.copy(cube))`: n new copies of the cube. */
  method Copies(cube: array<int>, n: nat) returns (cubes: seq<array<int>>)
    ensures |cubes| == n
    ensures forall k :: 0 <= k < n ==> fresh(cubes[k]) && cubes[k].Length == cube.Length && cubes[k][..] == cube[..]
    ensures forall k, l :: 0 <= k < l < n ==> cubes[k] != cubes[l]
  {
    cubes := [];
    for i := 0 to n
      invariant |cubes| == i
      invariant forall k :: 0 <= k < i ==> fresh(cubes[k]) && cubes[k].Length == cube.Length && cubes[k][..] == cube[..]
      invariant forall k, l :: 0 <= k < l < i ==> cubes[k] != cubes[l]
    {
      var c := Copy(cube);
      cubes := cubes + [c];
    }
  }

  /** `solve(cube, allowed_rotations, max_moves, callback)`: with the
      events sent to the callback as the result.  A cube that already
      matches the cube of its own centres is answered at once.  Otherwise
      `max_moves < 0` fails allocating the work arrays and `max_moves == 0`
      fails reading the missing root count; any other bound runs the search
      from the root with one working cube per depth. */
  method Solve(cube: array<int>, allowed: seq<int>, maxMoves: int) returns (outcome: Outcome)
    requires cube.Length == CELLS
    ensures outcome.AlreadySolved? <==> IsEqualWithIgnored(cube[..], Create(GetCenters(cube[..])))
    ensures outcome.Crashed? <==> !IsEqualWithIgnored(cube[..], Create(GetCenters(cube[..]))) && maxMoves <= 0
    ensures outcome.Searched? ==>
              EventsOk(MoveSet(allowed), cube[..], Create(GetCenters(cube[..])), maxMoves,
                       Count(MoveSet(allowed), None, 0, maxMoves), outcome.events)
    ensures outcome.Searched? ==>
              forall ms :: ValidSolution(MoveSet(allowed), cube[..], Create(GetCenters(cube[..])), maxMoves, ms) ==>
                Covered(outcome.events, ms)
  {
    var target := Create(GetCenters(cube[..]));
    if IsEqualWithIgnored(cube[..], target) {
      return AlreadySolved;
    }
    if maxMoves < 0 {
      return Crashed;
    }
    var cubes := Copies(cube, maxMoves + 1);
    var moves := new int[maxMoves];
    var g := ConstructMoveSet(allowed);
    var counts := CountMoves(g, maxMoves);
    if maxMoves == 0 {
      return Crashed;
    }
    var events := StartSearch(g, counts, maxMoves, target, cubes, moves, cube[..]);
    outcome := Searched(events);
  }

  /** The search of `solve` from the root at depth 1, with the total of
      the progress reports read from the root's count. */
  method StartSearch(g: Graph, counts: Cache, maxMoves: int, target: seq<int>,
                     cubes: seq<array<int>>, moves: array<int>, start: seq<int>) returns (events: seq<Event>)
    requires maxMoves >= 1 && |cubes| == maxMoves + 1 && moves.Length == maxMoves && |start| == CELLS
    requires forall k :: 0 <= k < |cubes| ==> cubes[k].Length == CELLS && cubes[k] != moves
    requires forall k, l :: 0 <= k < l < |cubes| ==> cubes[k] != cubes[l]
    requires cubes[0][..] == start && !IsEqualWithIgnored(start, target)
    requires CacheSound(g, counts, maxMoves) && CacheComplete(g, counts, maxMoves)
    requires None in counts && 0 in counts[None]
    requires forall node :: node in g ==> NoDuplicates(g[node])
    modifies moves, set k | 1 <= k < |cubes| :: cubes[k]
    ensures EventsOk(g, start, target, maxMoves, Count(g, None, 0, maxMoves), events)
    ensures forall ms :: ValidSolution(g, start, target, maxMoves, ms) ==> Covered(events, ms)
  {
    var total := counts[None][0];
    var search := new Search(g, counts, maxMoves, target, total, cubes, moves, start);
    assert search.Holds(0, []);
    search.SolveImpl(None, 1, []);
    events := search.events;
    FoundFromRoot(g, start, target, maxMoves, events);
  }
}
