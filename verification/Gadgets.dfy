/**
 Gadgets: snippets of machine code together with the locations they define, kill and use.
 */
module Gadgets {
  import opened Wrappers

  type Value = int

  /** Registers, by their 32-bit names; segment registers hold selectors. */
  datatype Register =
    | EAX | EBX | ECX | EDX | ESI | EDI | EBP | ESP | EFLAGS
    | CS | DS | SS | ES | FS | GS
    | CR(number: nat)
    | Other(name: string)

  /** What several gadgets share: data segment, stack, paging structures, descriptor table, long-jump target. */
  datatype Resource = MemStar | StackStar | Pde | Pte | Gdt | PatchLjmpTarget | Everything

  /** What a gadget may touch: a register, a memory cell, a shared resource, or a memory operand known by its text. */
  datatype Loc =
    | Reg(r: Register)
    | Cell(addr: nat)
    | Shared(resource: Resource)
    | Operand(text: string)

  type State = Loc -> Value

  /**
   `value(s, l)` is what the gadget stores into a location `l` of `define` when it starts in state
   `s`.  The locations of `kill` end up with values nobody relies on.  A location of `use` must be
   read before other gadgets touch it, one of `useAfter` after other gadgets have defined it.
   */
  datatype Gadget = Gadget(define: set<Loc>, kill: set<Loc>, use: set<Loc>, useAfter: set<Loc>,
                           value: (State, Loc) -> Value)
  {
    ghost predicate Touches(l: Loc) {
      l in define || l in kill
    }

    ghost predicate Disjoint() {
      define !! kill
    }
  }

  /** One gadget runs from `s` to `s'`. */
  ghost predicate Step(g: Gadget, s: State, s': State) {
    forall l: Loc ::
      && (l in g.define ==> s'(l) == g.value(s, l))
      && (!g.Touches(l) ==> s'(l) == s(l))
  }

  /** Must `g0` run before `g1`? */
  predicate Depend(g1: Gadget, g0: Gadget) {
    || g1.define * g0.kill != {}
    || g0.use * g1.define != {}
    || Shared(Everything) in g1.define
    || g0.use * g1.kill != {}
    || g0.define * g1.useAfter != {}
    || (Reg(EFLAGS) in g0.use && Reg(EFLAGS) !in g1.use)
    || ((Shared(Pde) in g0.define || Shared(Pte) in g0.define) && Reg(EFLAGS) in g1.define)
  }

  /** The values a gadget stores depend only on the locations it declares as used. */
  ghost predicate Honest(g: Gadget) {
    forall s: State, t: State, l: Loc | l in g.define && AgreeOn(g.use + g.useAfter, s, t) ::
      g.value(s, l) == g.value(t, l)
  }

  ghost predicate AgreeOn(ls: set<Loc>, s: State, t: State) {
    forall l | l in ls :: s(l) == t(l)
  }

  // ---------------------------------------------------------------------------------------------
  // Fusing gadgets
  // ---------------------------------------------------------------------------------------------

  /** The state in which the second of two fused gadgets starts, as far as the first one determines it. */
  function After(a: Gadget, s: State): State {
    (l: Loc) => if l in a.define then a.value(s, l) else s(l)
  }

  /** The gadget for the code of `a` followed by the code of `b`. */
  function Add(a: Gadget, b: Gadget): Gadget {
    Gadget(a.define + b.define - b.kill,
           a.kill + b.kill - (a.kill * b.define),
           (a.use + b.use) - b.kill - a.kill - (a.define * b.use),
           a.useAfter + b.useAfter,
           (s: State, l: Loc) => if l in b.define then b.value(After(a, s), l) else a.value(s, l))
  }

  /** Running two gadgets one after the other is a run of the fused gadget. */
  lemma {:induction false} AddRunsBoth(a: Gadget, b: Gadget, s: State, t: State, u: State)
    requires a.Disjoint() && b.Disjoint() && Honest(b)
    requires (b.use + b.useAfter) !! a.kill
    requires Step(a, s, t) && Step(b, t, u)
    ensures Step(Add(a, b), s, u)
  {
    var ab := Add(a, b);
    assert AgreeOn(b.use + b.useAfter, t, After(a, s));
    forall l: Loc
      ensures (l in ab.define ==> u(l) == ab.value(s, l)) && (!ab.Touches(l) ==> u(l) == s(l))
    {
      assert l in b.define ==> u(l) == b.value(t, l);
      assert l in a.define ==> t(l) == a.value(s, l);
      assert !b.Touches(l) ==> u(l) == t(l);
      assert !a.Touches(l) ==> t(l) == s(l);
    }
  }

  datatype Touch = Untouched | Defined | Killed

  /** What the last gadget of the list that touches `l` does to it. */
  ghost function LastTouch(gs: seq<Gadget>, l: Loc): Touch {
    if gs == [] then Untouched
    else
      var last := gs[|gs| - 1];
      if l in last.define then Defined
      else if l in last.kill then Killed
      else LastTouch(gs[..|gs| - 1], l)
  }

  ghost predicate AllDisjoint(gs: seq<Gadget>) {
    forall i | 0 <= i < |gs| :: gs[i].Disjoint()
  }

  /** The list never kills `l` and does not use it after having defined it. */
  ghost predicate KeepsUse(gs: seq<Gadget>, l: Loc) {
    && (forall i | 0 <= i < |gs| :: l !in gs[i].kill)
    && (forall i, j | 0 <= i < j < |gs| && l in gs[i].define :: l !in gs[j].use)
  }

  ghost predicate UsedUndefined(gs: seq<Gadget>, l: Loc) {
    (exists i :: 0 <= i < |gs| && l in gs[i].use) && KeepsUse(gs, l)
  }

  /** Some gadget uses `l` before any gadget of the list has touched it. */
  ghost predicate UpwardExposed(gs: seq<Gadget>, l: Loc) {
    exists i :: 0 <= i < |gs| && l in gs[i].use && LastTouch(gs[..i], l).Untouched?
  }

  /** What fusing the whole list must yield. */
  ghost predicate IsMerge(gs: seq<Gadget>, m: Gadget)
    requires gs != []
  {
    && (forall l :: l in m.define <==> LastTouch(gs, l).Defined?)
    && (forall l :: l in m.kill <==> LastTouch(gs, l).Killed?)
    && (forall l :: l in m.use <==> if |gs| == 1 then l in gs[0].use else UsedUndefined(gs, l))
    && (forall l :: l in m.useAfter <==> exists i :: 0 <= i < |gs| && l in gs[i].useAfter)
  }

  lemma {:induction false} LastTouchWitness(gs: seq<Gadget>, l: Loc)
    requires AllDisjoint(gs)
    ensures LastTouch(gs, l).Untouched? <==> forall i | 0 <= i < |gs| :: !gs[i].Touches(l)
    ensures LastTouch(gs, l).Defined? ==> exists i :: 0 <= i < |gs| && l in gs[i].define
    ensures LastTouch(gs, l).Killed? ==> exists i :: 0 <= i < |gs| && l in gs[i].kill
  {
    if gs != [] {
      LastTouchWitness(gs[..|gs| - 1], l);
    }
  }

  lemma {:induction false} MergeStep(gs: seq<Gadget>, m: Gadget, g: Gadget)
    requires gs != [] && AllDisjoint(gs + [g]) && IsMerge(gs, m)
    ensures IsMerge(gs + [g], Add(m, g))
  {
    var gs', m' := gs + [g], Add(m, g);
    assert gs'[..|gs'| - 1] == gs;
    assert g.Disjoint() by { assert gs'[|gs|] == g; }
    forall l
      ensures l in m'.use <==> UsedUndefined(gs', l)
    {
      MergeUse(gs, m, g, l);
    }
    forall l
      ensures l in m'.useAfter <==> exists i :: 0 <= i < |gs'| && l in gs'[i].useAfter
    {
      assert gs'[|gs|] == g && forall i | 0 <= i < |gs| :: gs'[i] == gs[i];
    }
  }

  lemma {:induction false} MergeUse(gs: seq<Gadget>, m: Gadget, g: Gadget, l: Loc)
    requires gs != [] && AllDisjoint(gs + [g]) && IsMerge(gs, m)
    ensures l in Add(m, g).use <==> UsedUndefined(gs + [g], l)
  {
    var gs' := gs + [g];
    assert AllDisjoint(gs) by {
      forall i | 0 <= i < |gs| ensures gs[i].Disjoint() { assert gs'[i] == gs[i]; }
    }
    LastTouchWitness(gs, l);
    if forall i | 0 <= i < |gs| :: l !in gs[i].kill {
      UsedUndefinedExtend(gs, g, l);
      assert LastTouch(gs, l).Defined? <==> exists i :: 0 <= i < |gs| && l in gs[i].define;
      assert |gs| == 1 ==> (l in gs[0].use <==> UsedUndefined(gs, l));
    } else {
      var i :| 0 <= i < |gs| && l in gs[i].kill;
      assert l in gs'[i].kill && LastTouch(gs, l) != Untouched;
    }
  }

  lemma {:induction false} UsedUndefinedExtend(gs: seq<Gadget>, g: Gadget, l: Loc)
    requires forall i | 0 <= i < |gs| :: l !in gs[i].kill
    ensures UsedUndefined(gs + [g], l) <==>
            && l !in g.kill
            && (UsedUndefined(gs, l) || (l in g.use && forall i | 0 <= i < |gs| :: l !in gs[i].use))
            && (l in g.use ==> forall i | 0 <= i < |gs| :: l !in gs[i].define)
  {
    var gs' := gs + [g];
    assert gs'[|gs|] == g && forall i | 0 <= i < |gs| :: gs'[i] == gs[i];
  }

  /** Fusing keeps `define` and `kill` apart, and lists an exposed use exactly when the list keeps it. */
  lemma {:induction false} MergeIsExposed(gs: seq<Gadget>, m: Gadget)
    requires gs != [] && AllDisjoint(gs) && IsMerge(gs, m)
    ensures m.Disjoint()
    ensures forall l :: l in m.use <==> UpwardExposed(gs, l) && (|gs| == 1 || KeepsUse(gs, l))
  {
    forall l
      ensures l in m.use <==> UpwardExposed(gs, l) && (|gs| == 1 || KeepsUse(gs, l))
    {
      if |gs| == 1 {
        assert gs[..0] == [];
      } else if l in m.use {
        var i :| 0 <= i < |gs| && l in gs[i].use;
        FirstUse(gs, l, i);
      }
    }
  }

  lemma {:induction false} FirstUse(gs: seq<Gadget>, l: Loc, i: nat)
    requires i < |gs| && AllDisjoint(gs) && l in gs[i].use
    requires UsedUndefined(gs, l)
    ensures UpwardExposed(gs, l)
  {
    assert AllDisjoint(gs[..i]);
    LastTouchWitness(gs[..i], l);
    assert LastTouch(gs[..i], l).Untouched?;
  }

  /** On `define` and `kill`, fusing is associative. */
  lemma {:induction false} AddIsAssociative(a: Gadget, b: Gadget, c: Gadget)
    requires a.Disjoint() && b.Disjoint() && c.Disjoint()
    ensures Add(Add(a, b), c).define == Add(a, Add(b, c)).define
    ensures Add(Add(a, b), c).kill == Add(a, Add(b, c)).kill
  {
  }

  /** `states` is a run of the gadgets in list order. */
  ghost predicate RunsInOrder(gs: seq<Gadget>, states: seq<State>) {
    && |states| == |gs| + 1
    && forall i | 0 <= i < |gs| :: Step(gs[i], states[i], states[i + 1])
  }

  /** No gadget reads a location whose last toucher before it killed it. */
  ghost predicate ReadsNothingKilled(gs: seq<Gadget>) {
    forall i, l | 0 <= i < |gs| && l in gs[i].use + gs[i].useAfter :: !LastTouch(gs[..i], l).Killed?
  }

  ghost predicate CleanList(gs: seq<Gadget>) {
    && AllDisjoint(gs)
    && (forall i | 0 <= i < |gs| :: Honest(gs[i]))
    && ReadsNothingKilled(gs)
  }

  /**
   Fusing a list from left to right; there is no gadget for the empty list.  The result defines
   (kills) exactly the locations whose last toucher defines (kills) them, uses exactly the locations
   that are used, never killed and not used after a definition, reads late whatever one of them reads late, and
   every run of the list is a run of the result.
   */
  method MergeGlist(gs: seq<Gadget>) returns (r: Option<Gadget>)
    ensures r.None? <==> gs == []
    ensures r.Some? && AllDisjoint(gs) ==> IsMerge(gs, r.value) && r.value.Disjoint()
    ensures r.Some? && CleanList(gs) ==>
              forall states | RunsInOrder(gs, states) :: Step(r.value, states[0], states[|gs|])
    ensures r.Some? ==> forall l :: l in r.value.useAfter <==> exists i :: 0 <= i < |gs| && l in gs[i].useAfter
  {
    if gs == [] {
      return None;
    }
    var m := gs[0];
    for k := 1 to |gs|
      invariant AllDisjoint(gs) ==> IsMerge(gs[..k], m) && m.Disjoint()
      invariant CleanList(gs) ==> forall states | RunsInOrder(gs, states) :: Step(m, states[0], states[k])
      invariant forall l :: l in m.useAfter <==> exists i :: 0 <= i < k && l in gs[i].useAfter
    {
      assert gs[..k + 1] == gs[..k] + [gs[k]];
      if AllDisjoint(gs) {
        MergeStep(gs[..k], m, gs[k]);
      }
      if CleanList(gs) {
        forall states | RunsInOrder(gs, states)
          ensures Step(Add(m, gs[k]), states[0], states[k + 1])
        {
          AddRunsBoth(m, gs[k], states[0], states[k], states[k + 1]);
        }
      }
      m := Add(m, gs[k]);
    }
    assert gs[..|gs|] == gs;
    return Some(m);
  }
}
