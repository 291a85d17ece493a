/**
 Scheduling gadgets: the dependency graph, its linearisation, and what running the gadgets in the
 resulting order does to the machine.
 */
module Schedule {
  import opened Sequences
  import opened Wrappers
  import opened TopologicalSort
  import opened Gadgets

  /** Each gadget, named by its position in the list, exactly once. */
  ghost predicate EachOnce(gs: seq<Gadget>, order: seq<nat>) {
    && NoRepeats(order)
    && (forall k | 0 <= k < |order| :: order[k] < |gs|)
    && (forall i: nat | i < |gs| :: i in order)
  }

  /** Each gadget once, dependencies first. */
  ghost predicate IsSchedule(gs: seq<Gadget>, order: seq<nat>) {
    && EachOnce(gs, order)
    && (forall a, b | 0 <= a < |order| && 0 <= b < |order| && a != b && Depend(gs[order[b]], gs[order[a]]) :: a < b)
  }

  // ---------------------------------------------------------------------------------------------
  // What the order of a schedule means for the sets of its gadgets
  // ---------------------------------------------------------------------------------------------

  /**
   The rules for two gadgets, of which the first runs before the second or not.  What a gadget kills is defined later;
   what it uses is defined and killed later; what it reads late is defined before.  A gadget that defines everything
   runs last, one that uses the flags before those that do not, and page tables are written before the flags are set.
   */
  ghost predicate RulesHold(g0: Gadget, g1: Gadget, before: bool) {
    && (forall l | l in g0.kill && l in g1.define :: before)
    && (forall l | l in g0.use && l in g1.define :: before)
    && (forall l | l in g0.use && l in g1.kill :: before)
    && (forall l | l in g0.define && l in g1.useAfter :: before)
    && (Shared(Everything) in g1.define ==> before)
    && (Reg(EFLAGS) in g0.use && Reg(EFLAGS) !in g1.use ==> before)
    && (Shared(Pde) in g0.define && Reg(EFLAGS) in g1.define ==> before)
    && (Shared(Pte) in g0.define && Reg(EFLAGS) in g1.define ==> before)
  }

  ghost predicate OrderedBySets(gs: seq<Gadget>, order: seq<nat>)
    requires forall k | 0 <= k < |order| :: order[k] < |gs|
  {
    forall a, b | 0 <= a < |order| && 0 <= b < |order| && a != b :: RulesHold(gs[order[a]], gs[order[b]], a < b)
  }

  /** The test of the code is the breach of a rule. */
  lemma {:induction false} DependExactlyWhen(g1: Gadget, g0: Gadget)
    ensures Depend(g1, g0) <==> !RulesHold(g0, g1, false)
  {
    assert g1.define * g0.kill != {} <==> exists l :: l in g0.kill && l in g1.define by {
      if l :| l in g0.kill && l in g1.define {
        assert l in g1.define * g0.kill;
      }
    }
    assert g0.use * g1.define != {} <==> exists l :: l in g0.use && l in g1.define by {
      if l :| l in g0.use && l in g1.define {
        assert l in g0.use * g1.define;
      }
    }
    assert g0.use * g1.kill != {} <==> exists l :: l in g0.use && l in g1.kill by {
      if l :| l in g0.use && l in g1.kill {
        assert l in g0.use * g1.kill;
      }
    }
    assert g0.define * g1.useAfter != {} <==> exists l :: l in g0.define && l in g1.useAfter by {
      if l :| l in g0.define && l in g1.useAfter {
        assert l in g0.define * g1.useAfter;
      }
    }
  }

  /** An order of the gadgets is a schedule if and only if it keeps the rules on their sets. */
  lemma {:induction false} ScheduleExactlyWhen(gs: seq<Gadget>, order: seq<nat>)
    ensures IsSchedule(gs, order) <==> EachOnce(gs, order) && OrderedBySets(gs, order)
  {
    if EachOnce(gs, order) {
      forall a, b | 0 <= a < |order| && 0 <= b < |order| && a != b
        ensures RulesHold(gs[order[a]], gs[order[b]], a < b) <==> (Depend(gs[order[b]], gs[order[a]]) ==> a < b)
      {
        DependExactlyWhen(gs[order[b]], gs[order[a]]);
      }
    }
  }

  // ---------------------------------------------------------------------------------------------
  // The dependency graph and its linearisation
  // ---------------------------------------------------------------------------------------------

  /** Edges of the dependency graph run from a gadget to those that must follow it. */
  ghost predicate IsDependencyGraph(gs: seq<Gadget>, g: Digraph) {
    && g.Valid()
    && (forall i: nat :: i in g.nodes <==> i < |gs|)
    && (forall i: nat, j: nat | i < |gs| && j < |gs| :: g.Edge(i, j) <==> i != j && Depend(gs[j], gs[i]))
  }

  ghost predicate Followers(gs: seq<Gadget>, i: nat, bound: nat, row: seq<Node>)
    requires i < |gs| && bound <= |gs|
  {
    forall j: nat :: j in row <==> j < bound && j != i && Depend(gs[j], gs[i])
  }

  /** An edge from one gadget to another exactly when the other order would break a rule. */
  method BuildDependencyGraph(gs: seq<Gadget>) returns (g: Digraph)
    ensures IsDependencyGraph(gs, g)
    ensures forall i: nat, j: nat | i < |gs| && j < |gs| :: g.Edge(i, j) <==> i != j && !RulesHold(gs[i], gs[j], false)
  {
    var nodes: seq<Node> := [];
    for i := 0 to |gs|
      invariant |nodes| == i && forall k | 0 <= k < i :: nodes[k] == k
    {
      nodes := nodes + [i];
    }
    var succ: map<Node, seq<Node>> := map[];
    for i := 0 to |gs|
      invariant forall k: nat :: k in succ <==> k < i
      invariant forall k: nat | k < i :: Followers(gs, k, |gs|, succ[k])
    {
      var row: seq<Node> := [];
      for j := 0 to |gs|
        invariant Followers(gs, i, j, row)
      {
        if j != i && Depend(gs[j], gs[i]) {
          row := row + [j];
        }
      }
      succ := succ[i := row];
    }
    g := Digraph(nodes, succ);
    forall i: nat
      ensures i in nodes <==> i < |gs|
    {
      if i < |gs| {
        assert nodes[i] == i;
      }
    }
    assert forall i: nat | i < |gs| :: Followers(gs, i, |gs|, g.succ[i]);
    EdgesFollowRules(gs, g);
  }

  lemma {:induction false} EdgesFollowRules(gs: seq<Gadget>, g: Digraph)
    requires IsDependencyGraph(gs, g)
    ensures forall i: nat, j: nat | i < |gs| && j < |gs| :: g.Edge(i, j) <==> i != j && !RulesHold(gs[i], gs[j], false)
  {
    forall i: nat, j: nat | i < |gs| && j < |gs|
      ensures g.Edge(i, j) <==> i != j && !RulesHold(gs[i], gs[j], false)
    {
      DependExactlyWhen(gs[j], gs[i]);
    }
  }

  /** Every dependency leads from a lower to a higher rank. */
  ghost predicate RankedList(gs: seq<Gadget>, rank: seq<int>) {
    && |rank| == |gs|
    && (forall i, j | 0 <= i < |gs| && 0 <= j < |gs| && i != j && Depend(gs[j], gs[i]) :: rank[i] < rank[j])
  }

  lemma {:induction false} WalkRaisesRank(gs: seq<Gadget>, g: Digraph, rank: seq<int>, p: seq<Node>)
    requires IsDependencyGraph(gs, g) && RankedList(gs, rank)
    requires |p| >= 2 && IsWalk(g, p)
    ensures p[0] < |gs| && p[|p| - 1] < |gs| && rank[p[0]] < rank[p[|p| - 1]]
  {
    assert g.Edge(p[0], p[1]);
    assert p[0] in g.nodes && p[1] in g.nodes by {
      assert p[0] in Elements(g.nodes) && p[1] in Elements(g.nodes);
    }
    if |p| > 2 {
      WalkRaisesRank(gs, g, rank, p[1..]);
    }
  }

  /** A list whose dependencies raise a rank has no cycle. */
  lemma {:induction false} RankedListIsAcyclic(gs: seq<Gadget>, g: Digraph, rank: seq<int>)
    requires IsDependencyGraph(gs, g) && RankedList(gs, rank)
    ensures !HasCycle(g)
  {
    forall p | |p| >= 2 && IsWalk(g, p)
      ensures p[0] != p[|p| - 1]
    {
      WalkRaisesRank(gs, g, rank, p);
    }
  }

  /** In a schedule positions are ranks, so that cyclic gadgets have none. */
  lemma {:induction false} CyclicHasNoSchedule(gs: seq<Gadget>, g: Digraph, order: seq<nat>)
    requires IsDependencyGraph(gs, g) && HasCycle(g)
    ensures !IsSchedule(gs, order)
  {
    if IsSchedule(gs, order) {
      var rank := seq(|gs|, i requires 0 <= i < |gs| => Place(gs, order, i));
      RankedListIsAcyclic(gs, g, rank);
    }
  }

  ghost function Place(gs: seq<Gadget>, order: seq<nat>, i: nat): (k: nat)
    requires EachOnce(gs, order) && i < |gs|
    ensures k < |order| && order[k] == i
  {
    assert i in order;
    var k: nat :| k < |order| && order[k] == i;
    k
  }

  /**
   A schedule exists, and is found, exactly when the dependencies are acyclic; it orders all gadgets by the rules on
   their sets, and none is found only when no order keeps these rules.
   */
  method SortGadget(gs: seq<Gadget>) returns (r: Option<seq<nat>>, ghost g: Digraph)
    ensures IsDependencyGraph(gs, g)
    ensures r.Some? ==> IsSchedule(gs, r.value)
    ensures r.None? <==> HasCycle(g)
    ensures r.Some? ==> EachOnce(gs, r.value) && OrderedBySets(gs, r.value)
    ensures r.None? ==> forall order | EachOnce(gs, order) :: !OrderedBySets(gs, order)
  {
    var graph := BuildDependencyGraph(gs);
    g := graph;
    r := Sort(graph);
    if r.Some? {
      SortedIsSchedule(gs, g, r.value);
      ScheduleExactlyWhen(gs, r.value);
    } else {
      forall order | EachOnce(gs, order)
        ensures !OrderedBySets(gs, order)
      {
        ScheduleExactlyWhen(gs, order);
        CyclicHasNoSchedule(gs, g, order);
      }
    }
  }

  lemma {:induction false} SortedIsSchedule(gs: seq<Gadget>, g: Digraph, order: seq<nat>)
    requires IsDependencyGraph(gs, g) && IsTopologicalOrder(g, order)
    ensures IsSchedule(gs, order)
  {
    forall i: nat
      ensures i in order <==> i < |gs|
    {
      assert i in Elements(order) <==> i in Elements(g.nodes);
    }
    assert forall k | 0 <= k < |order| :: order[k] in order;
    forall a, b | 0 <= a < |order| && 0 <= b < |order| && a != b && Depend(gs[order[b]], gs[order[a]])
      ensures a < b
    {
      assert order[a] != order[b];
      assert g.Edge(order[a], order[b]);
    }
  }

  // ---------------------------------------------------------------------------------------------
  // Running a schedule
  // ---------------------------------------------------------------------------------------------

  /** The gadgets run in the given order; `states` are the machine states in between. */
  ghost predicate IsRun(gs: seq<Gadget>, order: seq<nat>, states: seq<State>) {
    && (forall k | 0 <= k < |order| :: order[k] < |gs|)
    && |states| == |order| + 1
    && (forall k | 0 <= k < |order| :: Step(gs[order[k]], states[k], states[k + 1]))
  }

  /** Gadgets that define the same location store the same value, whatever they read. */
  ghost predicate DefinersAgree(gs: seq<Gadget>) {
    forall i, j, l, s: State, t: State |
      0 <= i < |gs| && 0 <= j < |gs| && i != j && l in gs[i].define && l in gs[j].define ::
      gs[i].value(s, l) == gs[j].value(t, l)
  }

  /** A location read after its definition, and killed by another gadget, is also defined by another gadget. */
  ghost predicate LateReadsDefined(gs: seq<Gadget>) {
    forall i, j, l | 0 <= i < |gs| && 0 <= j < |gs| && i != j && l in gs[i].useAfter && l in gs[j].kill ::
      DefinedByAnother(gs, i, l)
  }

  ghost predicate DefinedByAnother(gs: seq<Gadget>, i: nat, l: Loc) {
    exists d :: 0 <= d < |gs| && d != i && l in gs[d].define
  }

  ghost predicate WellFormed(gs: seq<Gadget>) {
    && AllDisjoint(gs)
    && DefinersAgree(gs)
  }

  /** Once a gadget has defined a location, the location keeps that value to the end. */
  lemma {:induction false} DefinedValueStays(gs: seq<Gadget>, order: seq<nat>, states: seq<State>, k: nat, m: nat,
      l: Loc)
    requires WellFormed(gs) && IsSchedule(gs, order) && IsRun(gs, order, states)
    requires k < m <= |order| && l in gs[order[k]].define
    ensures states[m](l) == gs[order[k]].value(states[k], l)
  {
    if m == k + 1 {
      assert Step(gs[order[k]], states[k], states[k + 1]);
    } else {
      DefinedValueStays(gs, order, states, k, m - 1, l);
      var h := gs[order[m - 1]];
      assert Step(h, states[m - 1], states[m - 1 + 1]);
      assert !Depend(gs[order[k]], h);
      assert l !in gs[order[k]].define * h.kill;
      if l in h.define {
        assert h.value(states[m - 1], l) == gs[order[k]].value(states[k], l);
      }
    }
  }

  /** A location nobody touched so far still has its initial value. */
  lemma {:induction false} UntouchedValueStays(gs: seq<Gadget>, order: seq<nat>, states: seq<State>, k: nat, l: Loc)
    requires IsRun(gs, order, states) && k <= |order|
    requires forall m | 0 <= m < k :: !gs[order[m]].Touches(l)
    ensures states[k](l) == states[0](l)
  {
    if k > 0 {
      UntouchedValueStays(gs, order, states, k - 1, l);
      assert Step(gs[order[k - 1]], states[k - 1], states[k - 1 + 1]);
    }
  }

  /** Schedule soundness: a run ends with every defined location at its defined value, whatever kills wrote. */
  lemma {:induction false} FinalValue(gs: seq<Gadget>, order: seq<nat>, states: seq<State>, k: nat, l: Loc)
    requires WellFormed(gs) && IsSchedule(gs, order) && IsRun(gs, order, states)
    requires k < |order| && l in gs[order[k]].define
    ensures states[|order|](l) == gs[order[k]].value(states[k], l)
  {
    DefinedValueStays(gs, order, states, k, |order|, l);
  }

  /** The only gadget that defines a location decides its final value, whatever the others are. */
  lemma {:induction false} SoleDefiner(gs: seq<Gadget>, order: seq<nat>, states: seq<State>, k: nat, m: nat, l: Loc)
    requires IsSchedule(gs, order) && IsRun(gs, order, states)
    requires k < m <= |order| && l in gs[order[k]].define && !DefinedByAnother(gs, order[k], l)
    ensures states[m](l) == gs[order[k]].value(states[k], l)
  {
    assert Step(gs[order[k]], states[k], states[k + 1]);
    if m > k + 1 {
      SoleDefiner(gs, order, states, k, m - 1, l);
      var h := gs[order[m - 1]];
      assert Step(h, states[m - 1], states[m - 1 + 1]);
      assert order[m - 1] != order[k];
      assert !Depend(gs[order[k]], h);
      assert l !in gs[order[k]].define * h.kill;
    }
  }

  lemma {:induction false} SoleInSchedule(gs: seq<Gadget>, order: seq<nat>, states: seq<State>, i: nat, l: Loc)
    returns (p: nat)
    requires IsSchedule(gs, order) && IsRun(gs, order, states)
    requires i < |gs| && l in gs[i].define && !DefinedByAnother(gs, i, l)
    ensures p < |order| && order[p] == i && states[|order|](l) == gs[i].value(states[p], l)
  {
    p := Place(gs, order, i);
    SoleDefiner(gs, order, states, p, |order|, l);
  }

  /** A gadget reads the locations of its `use` set at their initial values. */
  lemma {:induction false} ReadsInitialValue(gs: seq<Gadget>, order: seq<nat>, states: seq<State>, k: nat, l: Loc)
    requires IsSchedule(gs, order) && IsRun(gs, order, states)
    requires k < |order| && l in gs[order[k]].use
    ensures states[k](l) == states[0](l)
  {
    forall m | 0 <= m < k
      ensures !gs[order[m]].Touches(l)
    {
      var g, h := gs[order[k]], gs[order[m]];
      assert !Depend(h, g);
      assert l !in g.use * h.define && l !in g.use * h.kill;
    }
    UntouchedValueStays(gs, order, states, k, l);
  }

  /** A gadget reads a `useAfter` location that another gadget defines at the value it has in the end. */
  lemma {:induction false} ReadsFinalValue(gs: seq<Gadget>, order: seq<nat>, states: seq<State>, k: nat, d: nat, l: Loc)
    requires WellFormed(gs) && IsSchedule(gs, order) && IsRun(gs, order, states)
    requires k < |order| && d < |order| && d != k
    requires l in gs[order[k]].useAfter && l in gs[order[d]].define
    ensures d < k
    ensures states[k](l) == states[|order|](l) == gs[order[d]].value(states[d], l)
  {
    assert l in gs[order[d]].define * gs[order[k]].useAfter;
    assert Depend(gs[order[k]], gs[order[d]]);
    DefinedValueStays(gs, order, states, d, k, l);
    DefinedValueStays(gs, order, states, d, |order|, l);
  }

  // ---------------------------------------------------------------------------------------------
  // Any two schedules agree
  // ---------------------------------------------------------------------------------------------

  /** A `useAfter` location nobody else defines is read at its initial value. */
  lemma {:induction false} LateReadOfUndefined(gs: seq<Gadget>, order: seq<nat>, states: seq<State>, k: nat, l: Loc)
    requires LateReadsDefined(gs) && IsSchedule(gs, order) && IsRun(gs, order, states)
    requires k < |order| && l in gs[order[k]].useAfter && !DefinedByAnother(gs, order[k], l)
    ensures states[k](l) == states[0](l)
  {
    forall m | 0 <= m < k
      ensures !gs[order[m]].Touches(l)
    {
      assert order[m] != order[k];
    }
    UntouchedValueStays(gs, order, states, k, l);
  }

  /** Two runs of the same gadgets from the same state: each gadget stores the same values in both. */
  lemma {:induction false} SameValuesStored(gs: seq<Gadget>, order: seq<nat>, states: seq<State>, order': seq<nat>,
      states': seq<State>, k: nat, k': nat, l: Loc)
    requires WellFormed(gs) && LateReadsDefined(gs) && (forall i | 0 <= i < |gs| :: Honest(gs[i]))
    requires IsSchedule(gs, order) && IsRun(gs, order, states)
    requires IsSchedule(gs, order') && IsRun(gs, order', states')
    requires states[0] == states'[0]
    requires k < |order| && k' < |order'| && order[k] == order'[k'] && l in gs[order[k]].define
    ensures gs[order[k]].value(states[k], l) == gs[order[k]].value(states'[k'], l)
    decreases k
  {
    var g := gs[order[k]];
    forall u | u in g.use + g.useAfter
      ensures states[k](u) == states'[k'](u)
    {
      if u in g.use {
        ReadsInitialValue(gs, order, states, k, u);
        ReadsInitialValue(gs, order', states', k', u);
      } else if DefinedByAnother(gs, order[k], u) {
        var i :| 0 <= i < |gs| && i != order[k] && u in gs[i].define;
        assert i in order && i in order';
        var d :| 0 <= d < |order| && order[d] == i;
        var d' :| 0 <= d' < |order'| && order'[d'] == i;
        ReadsFinalValue(gs, order, states, k, d, u);
        ReadsFinalValue(gs, order', states', k', d', u);
        SameValuesStored(gs, order, states, order', states', d, d', u);
      } else {
        LateReadOfUndefined(gs, order, states, k, u);
        LateReadOfUndefined(gs, order', states', k', u);
      }
    }
    assert AgreeOn(g.use + g.useAfter, states[k], states'[k']);
    assert Honest(g);
  }

  /** Any two schedules leave the same values in every defined location, whatever the kills write. */
  lemma {:induction false} SchedulesAgree(gs: seq<Gadget>, order: seq<nat>, states: seq<State>, order': seq<nat>,
      states': seq<State>, i: nat, l: Loc)
    requires WellFormed(gs) && LateReadsDefined(gs) && (forall i | 0 <= i < |gs| :: Honest(gs[i]))
    requires IsSchedule(gs, order) && IsRun(gs, order, states)
    requires IsSchedule(gs, order') && IsRun(gs, order', states')
    requires states[0] == states'[0]
    requires i < |gs| && l in gs[i].define
    ensures states[|order|](l) == states'[|order'|](l)
  {
    assert i in order && i in order';
    var k :| 0 <= k < |order| && order[k] == i;
    var k' :| 0 <= k' < |order'| && order'[k'] == i;
    FinalValue(gs, order, states, k, l);
    FinalValue(gs, order', states', k', l);
    SameValuesStored(gs, order, states, order', states', k, k', l);
  }
}
