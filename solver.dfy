/** The constraint solver's fixpoint driver (crates/zippy-frontend/src/check/solve/mod.rs).

    The per-kind handlers (`assign`, `equate`, `field`, `instantiated`, `unitlike`, `numeric`,
    `textual`) live in sibling modules that are not part of this model. Each is a function
    value of `Handlers`, computing from the current substitution what the handler does: the
    constraints it queues, the messages it raises and the substitution it leaves. `numeric`
    answers with a `NumericResult`, which the driver itself inspects.

    `SolveResult` is the specification of `Solver::solve`; the class `Solver` holds the
    driver's state as fields and its methods are proved to compute exactly that. */
module ConstraintSolver {
  import opened Common

  datatype UnifyVar = UnifyVar(span: Span, count: nat)

  /** The checker's types come from check/types.rs, which is not part of this model. The
      driver builds two of them itself, `Number` and placeholders; all others are `Other`. */
  datatype Type = Number | Var(v: UnifyVar) | Other(id: nat)

  /** The obligations, each carrying the span `at` it is reported at. Coercion variables,
      field names and templates are opaque identifiers here. */
  datatype Constraint =
    | Assignable(at: Span, id: nat, into: Type, from: Type)
    | Equal(at: Span, t: Type, u: Type)
    | Field(at: Span, target: Type, of: Type, field: nat)
    | Instantiated(at: Span, ty: Type, template: nat)
    | UnitLike(at: Span, ty: Type)
    | Numeric(at: Span, ty: Type)
    | Textual(at: Span, ty: Type)
    | TypeNumeric(at: Span, ty: Type)

  /** Diagnostics: the driver's own `ambiguous`, and whatever the handlers raise. */
  datatype Message = Ambiguous(at: Span) | Raised(at: Span, code: nat)

  datatype NumericResult = Ok | Unsolved(at: Span, ty: Type) | Error(messages: seq<Message>)

  type Substitution = map<UnifyVar, Type>

  /** What one handler call does to the driver's state. */
  datatype Effect = Effect(queued: seq<Constraint>, raised: seq<Message>, substitution: Substitution)

  datatype Handlers = Handlers(
    assign: (Substitution, Span, nat, Type, Type) -> Effect,
    equate: (Substitution, Span, Type, Type) -> Effect,
    field: (Substitution, Span, Type, Type, nat) -> Effect,
    instantiated: (Substitution, Span, Type, nat) -> Effect,
    unitlike: (Substitution, Span, Type) -> Effect,
    numeric: (Substitution, Span, Type) -> NumericResult,
    textual: (Substitution, Span, Type) -> Effect)

  /** The one assumption made of an unseen handler: `equate` goes straight to unification
      and queues no constraint. */
  ghost predicate EquateQueuesNothing(h: Handlers) {
    forall s, at, t, u :: h.equate(s, at, t, u).queued == []
  }

  datatype State = State(
    messages: seq<Message>,
    counts: map<Span, nat>,
    constraints: seq<Constraint>,
    typeNumeric: seq<(Span, Type)>,
    substitution: Substitution)

  function Apply(st: State, e: Effect): State {
    st.(constraints := st.constraints + e.queued, messages := st.messages + e.raised,
        substitution := e.substitution)
  }

  /** `solve_constraint`: dispatch one obligation to its handler. */
  function ConstraintStep(h: Handlers, st: State, c: Constraint): State {
    var s := st.substitution;
    match c
    case Assignable(at, id, into, from) => Apply(st, h.assign(s, at, id, into, from))
    case Equal(at, t, u) => Apply(st, h.equate(s, at, t, u))
    case Field(at, target, of, field) => Apply(st, h.field(s, at, target, of, field))
    case Instantiated(at, ty, template) => Apply(st, h.instantiated(s, at, ty, template))
    case UnitLike(at, ty) => Apply(st, h.unitlike(s, at, ty))
    case Numeric(at, ty) =>
      (match h.numeric(s, at, ty)
       case Ok => st
       case Unsolved(at', ty') => st.(constraints := st.constraints + [Numeric(at', ty')])
       case Error(ms) => st.(messages := st.messages + ms))
    case Textual(at, ty) => Apply(st, h.textual(s, at, ty))
    case TypeNumeric(at, ty) => st.(typeNumeric := st.typeNumeric + [(at, ty)])
  }

  /** One pass: every constraint of the batch, in order. */
  function SolveBatch(h: Handlers, st: State, batch: seq<Constraint>): State
    decreases |batch|
  {
    if batch == [] then st
    else ConstraintStep(h, SolveBatch(h, st, batch[..|batch| - 1]), batch[|batch| - 1])
  }

  /** The span `report_unsolvable` reports a constraint at. */
  function At(c: Constraint): (span: Span)
    ensures span == c.at
  {
    match c
    case Assignable(at, _, _, _) => at
    case Equal(at, _, _) => at
    case Field(at, _, _, _) => at
    case Instantiated(at, _, _) => at
    case UnitLike(at, _) => at
    case Numeric(at, _) => at
    case Textual(at, _) => at
    case TypeNumeric(at, _) => at
  }

  function Unsolvable(st: State, c: Constraint): State {
    st.(messages := st.messages + [Ambiguous(At(c))])
  }

  function ReportAll(st: State, leftover: seq<Constraint>): State
    decreases |leftover|
  {
    if leftover == [] then st
    else Unsolvable(ReportAll(st, leftover[..|leftover| - 1]), leftover[|leftover| - 1])
  }

  /** The main loop of `solve`: passes over the whole queue until it is empty or a pass does
      not shrink it, in which case every queued constraint is reported and dropped. The
      queue's length decreases on every pass that is not the last. */
  function MainLoop(h: Handlers, st: State): State
    decreases |st.constraints|
  {
    if st.constraints == [] then st
    else
      var batch := st.constraints;
      var after := SolveBatch(h, st.(constraints := []), batch);
      if |after.constraints| >= |batch| then ReportAll(after.(constraints := []), after.constraints)
      else MainLoop(h, after)
  }

  /** The numeric defaulting pass over `pending`: a still unsolved type is equated with
      `Number` instead of being queued again. */
  function TypeNumericPass(h: Handlers, st: State, pending: seq<(Span, Type)>): State
    decreases |pending|
  {
    if pending == [] then st
    else
      var prior := TypeNumericPass(h, st, pending[..|pending| - 1]);
      var (at, ty) := pending[|pending| - 1];
      match h.numeric(prior.substitution, at, ty)
      case Ok => prior
      case Unsolved(at', ty') => Apply(prior, h.equate(prior.substitution, at', ty', Number))
      case Error(ms) => prior.(messages := prior.messages + ms)
  }

  function DefaultingPass(h: Handlers, st: State): State {
    TypeNumericPass(h, st.(typeNumeric := []), st.typeNumeric)
  }

  function SolveResult(h: Handlers, st: State): State {
    DefaultingPass(h, MainLoop(h, st))
  }

  /** `fresh`: the placeholder minted for `span`, and the counters afterwards. */
  function Mint(counts: map<Span, nat>, span: Span): (UnifyVar, map<Span, nat>) {
    var count := if span in counts then counts[span] else 0;
    (UnifyVar(span, count), counts[span := count + 1])
  }

  // ---------------------------------------------------------------------------------------
  // Properties of the specification

  lemma {:induction false} SolveBatchOnlyAppends(h: Handlers, st: State, batch: seq<Constraint>)
    ensures var r := SolveBatch(h, st, batch);
      Extends(r.messages, st.messages) && Extends(r.constraints, st.constraints) &&
      Extends(r.typeNumeric, st.typeNumeric) && r.counts == st.counts
    decreases |batch|
  {
    if batch != [] {
      var prior := SolveBatch(h, st, batch[..|batch| - 1]);
      SolveBatchOnlyAppends(h, st, batch[..|batch| - 1]);
      var r := ConstraintStep(h, prior, batch[|batch| - 1]);
      assert Extends(r.messages, prior.messages) && Extends(r.constraints, prior.constraints);
      ExtendsTrans(r.messages, prior.messages, st.messages);
      ExtendsTrans(r.constraints, prior.constraints, st.constraints);
      ExtendsTrans(r.typeNumeric, prior.typeNumeric, st.typeNumeric);
    }
  }

  /** A stalled pass gives every leftover constraint exactly one `ambiguous` message, at the
      constraint's own span and in queue order, and changes nothing else. */
  lemma {:induction false} ReportAllAmbiguous(st: State, leftover: seq<Constraint>)
    ensures var r := ReportAll(st, leftover);
      && |r.messages| == |st.messages| + |leftover|
      && r.messages[..|st.messages|] == st.messages
      && (forall i :: 0 <= i < |leftover| ==> r.messages[|st.messages| + i] == Ambiguous(leftover[i].at))
      && r.(messages := st.messages) == st
    decreases |leftover|
  {
    if leftover != [] {
      ReportAllAmbiguous(st, leftover[..|leftover| - 1]);
    }
  }

  /** When the main loop stops the queue is empty, and the diagnostics were only appended to. */
  lemma {:induction false} MainLoopEmptiesQueue(h: Handlers, st: State)
    ensures MainLoop(h, st).constraints == []
    ensures Extends(MainLoop(h, st).messages, st.messages)
    decreases |st.constraints|
  {
    if st.constraints != [] {
      var batch := st.constraints;
      var after := SolveBatch(h, st.(constraints := []), batch);
      SolveBatchOnlyAppends(h, st.(constraints := []), batch);
      if |after.constraints| >= |batch| {
        ReportAllAmbiguous(after.(constraints := []), after.constraints);
      } else {
        MainLoopEmptiesQueue(h, after);
        ExtendsTrans(MainLoop(h, after).messages, after.messages, st.messages);
      }
    }
  }

  /** If the first pass does not shrink the queue, solving stops after it: what that pass
      queued is reported constraint by constraint and dropped. */
  lemma StalledPassStops(h: Handlers, st: State)
    requires st.constraints != []
    requires |SolveBatch(h, st.(constraints := []), st.constraints).constraints| >= |st.constraints|
    ensures var after := SolveBatch(h, st.(constraints := []), st.constraints);
      var r := MainLoop(h, st);
      && r.constraints == []
      && r.messages == after.messages + seq(|after.constraints|, i requires 0 <= i < |after.constraints| =>
                                            Ambiguous(after.constraints[i].at))
  {
    var after := SolveBatch(h, st.(constraints := []), st.constraints);
    var r := ReportAll(after.(constraints := []), after.constraints);
    assert MainLoop(h, st) == r;
    ReportAllAmbiguous(after.(constraints := []), after.constraints);
    var reported := seq(|after.constraints|, i requires 0 <= i < |after.constraints| =>
                        Ambiguous(after.constraints[i].at));
    assert r.messages == after.messages + reported by {
      assert r.messages[..|after.messages|] == after.messages;
      forall i | 0 <= i < |reported|
        ensures r.messages[|after.messages| + i] == reported[i]
      {
      }
    }
  }

  lemma {:induction false} TypeNumericPassQueuesNothing(h: Handlers, st: State, pending: seq<(Span, Type)>)
    requires EquateQueuesNothing(h)
    ensures TypeNumericPass(h, st, pending).constraints == st.constraints
    ensures TypeNumericPass(h, st, pending).typeNumeric == st.typeNumeric
    decreases |pending|
  {
    if pending != [] {
      TypeNumericPassQueuesNothing(h, st, pending[..|pending| - 1]);
      var prior := TypeNumericPass(h, st, pending[..|pending| - 1]);
      var (at, ty) := pending[|pending| - 1];
      match h.numeric(prior.substitution, at, ty)
      case Unsolved(at', ty') =>
        assert h.equate(prior.substitution, at', ty', Number).queued == [];
      case _ =>
    }
  }

  /** When `solve` returns, both queues are empty. */
  lemma SolveEmptiesQueues(h: Handlers, st: State)
    requires EquateQueuesNothing(h)
    ensures SolveResult(h, st).constraints == [] && SolveResult(h, st).typeNumeric == []
  {
    MainLoopEmptiesQueue(h, st);
    var m := MainLoop(h, st);
    TypeNumericPassQueuesNothing(h, m.(typeNumeric := []), m.typeNumeric);
  }

  /** A `TypeNumeric` obligation leaves the main queue for the second-chance list; an
      unsolved `Numeric` is queued again with the span and type the check returned. */
  lemma NumericRouting(h: Handlers, st: State, at: Span, ty: Type)
    ensures ConstraintStep(h, st, TypeNumeric(at, ty))
         == st.(typeNumeric := st.typeNumeric + [(at, ty)])
    ensures h.numeric(st.substitution, at, ty).Unsolved? ==>
      var res := h.numeric(st.substitution, at, ty);
      ConstraintStep(h, st, Numeric(at, ty)) == st.(constraints := st.constraints + [Numeric(res.at, res.ty)])
    ensures h.numeric(st.substitution, at, ty).Error? ==>
      ConstraintStep(h, st, Numeric(at, ty))
        == st.(messages := st.messages + h.numeric(st.substitution, at, ty).messages)
  {
  }

  /** An obligation still unsolved in the defaulting pass is equated with `Number`. */
  lemma DefaultsToNumber(h: Handlers, st: State, at: Span, ty: Type)
    requires h.numeric(st.substitution, at, ty).Unsolved?
    ensures var res := h.numeric(st.substitution, at, ty);
      TypeNumericPass(h, st, [(at, ty)]) == Apply(st, h.equate(st.substitution, res.at, res.ty, Number))
  {
    assert [(at, ty)][..0] == [];
  }

  /** `fresh` never hands out the same placeholder twice: over any run of calls, the minted
      placeholders are distinct and each lies below its span's final counter. */
  function MintAll(counts: map<Span, nat>, spans: seq<Span>): (seq<UnifyVar>, map<Span, nat>)
    decreases |spans|
  {
    if spans == [] then ([], counts)
    else
      var (vs, c) := MintAll(counts, spans[..|spans| - 1]);
      var (v, c') := Mint(c, spans[|spans| - 1]);
      (vs + [v], c')
  }

  ghost predicate Below(v: UnifyVar, counts: map<Span, nat>) {
    v.span in counts && v.count < counts[v.span]
  }

  lemma {:induction false} MintedAreDistinct(counts: map<Span, nat>, spans: seq<Span>)
    ensures var (vs, c) := MintAll(counts, spans);
      && |vs| == |spans|
      && (forall i :: 0 <= i < |vs| ==> vs[i].span == spans[i] && Below(vs[i], c))
      && (forall i, j :: 0 <= i < j < |vs| ==> vs[i] != vs[j])
      && (forall s :: s in counts ==> s in c && counts[s] <= c[s])
    decreases |spans|
  {
    if spans != [] {
      MintedAreDistinct(counts, spans[..|spans| - 1]);
      var (vs, c) := MintAll(counts, spans[..|spans| - 1]);
      var (v, c') := Mint(c, spans[|spans| - 1]);
      assert !Below(v, c);
      forall i | 0 <= i < |vs| ensures Below(vs[i], c') && vs[i] != v {
        assert Below(vs[i], c);
      }
    }
  }

  // ---------------------------------------------------------------------------------------
  // The solver object

  class Solver {
    const handlers: Handlers
    var messages: seq<Message>
    var counts: map<Span, nat>
    var constraints: seq<Constraint>
    var typeNumeric: seq<(Span, Type)>
    var substitution: Substitution

    function Snapshot(): State
      reads this
    {
      State(messages, counts, constraints, typeNumeric, substitution)
    }

    constructor (handlers: Handlers, counts: map<Span, nat>, constraints: seq<Constraint>)
      ensures this.handlers == handlers
      ensures Snapshot() == State([], counts, constraints, [], map[])
    {
      this.handlers := handlers;
      this.messages := [];
      this.counts := counts;
      this.constraints := constraints;
      this.typeNumeric := [];
      this.substitution := map[];
    }

    method Solve()
      modifies this
      ensures Snapshot() == SolveResult(handlers, old(Snapshot()))
      ensures EquateQueuesNothing(handlers) ==> constraints == [] && typeNumeric == []
    {
      ghost var goal := MainLoop(handlers, Snapshot());
      while constraints != []
        invariant MainLoop(handlers, Snapshot()) == goal
        decreases |constraints|
      {
        var before := |constraints|;
        SolvePass();
        if |constraints| >= before {
          ReportLeftover();
          break;
        }
      }
      SolveTypeNumerics();
      if EquateQueuesNothing(handlers) {
        SolveEmptiesQueues(handlers, old(Snapshot()));
      }
    }

    /** One pass of the main loop: the queue is taken and each constraint dispatched. */
    method SolvePass()
      modifies this
      ensures Snapshot() == SolveBatch(handlers, old(Snapshot()).(constraints := []), old(constraints))
    {
      var batch := constraints;
      constraints := [];
      ghost var start := Snapshot();
      for i := 0 to |batch|
        invariant Snapshot() == SolveBatch(handlers, start, batch[..i])
      {
        assert batch[..i + 1][..i] == batch[..i];
        SolveConstraint(batch[i]);
      }
      assert batch[..|batch|] == batch;
    }

    /** A stalled pass: every queued constraint is reported and the queue emptied. */
    method ReportLeftover()
      modifies this
      ensures Snapshot() == ReportAll(old(Snapshot()).(constraints := []), old(constraints))
    {
      var leftover := constraints;
      constraints := [];
      ghost var stalled := Snapshot();
      for i := 0 to |leftover|
        invariant Snapshot() == ReportAll(stalled, leftover[..i])
      {
        assert leftover[..i + 1][..i] == leftover[..i];
        ReportUnsolvable(leftover[i]);
      }
      assert leftover[..|leftover|] == leftover;
    }

    method SolveConstraint(c: Constraint)
      modifies this
      ensures Snapshot() == ConstraintStep(handlers, old(Snapshot()), c)
    {
      match c
      case Assignable(at, id, into, from) => Absorb(handlers.assign(substitution, at, id, into, from));
      case Equal(at, t, u) => Absorb(handlers.equate(substitution, at, t, u));
      case Field(at, target, of, field) => Absorb(handlers.field(substitution, at, target, of, field));
      case Instantiated(at, ty, template) => Absorb(handlers.instantiated(substitution, at, ty, template));
      case UnitLike(at, ty) => Absorb(handlers.unitlike(substitution, at, ty));
      case Numeric(at, ty) =>
        match handlers.numeric(substitution, at, ty) {
          case Ok =>
          case Unsolved(at', ty') => constraints := constraints + [Numeric(at', ty')];
          case Error(ms) => messages := messages + ms;
        }
      case Textual(at, ty) => Absorb(handlers.textual(substitution, at, ty));
      case TypeNumeric(at, ty) => typeNumeric := typeNumeric + [(at, ty)];
    }

    /** Take on what a handler call did. */
    method Absorb(e: Effect)
      modifies this
      ensures Snapshot() == Apply(old(Snapshot()), e)
    {
      constraints := constraints + e.queued;
      messages := messages + e.raised;
      substitution := e.substitution;
    }

    method SolveTypeNumerics()
      modifies this
      ensures Snapshot() == DefaultingPass(handlers, old(Snapshot()))
    {
      var pending := typeNumeric;
      typeNumeric := [];
      ghost var start := Snapshot();
      for i := 0 to |pending|
        invariant Snapshot() == TypeNumericPass(handlers, start, pending[..i])
      {
        assert pending[..i + 1][..i] == pending[..i];
        var (at, ty) := pending[i];
        match handlers.numeric(substitution, at, ty)
        case Ok =>
        case Unsolved(at', ty') => Absorb(handlers.equate(substitution, at', ty', Number));
        case Error(ms) => messages := messages + ms;
      }
      assert pending[..|pending|] == pending;
    }

    /** `fresh`: a placeholder for `span` no earlier call has returned. */
    method Fresh(span: Span) returns (t: Type)
      modifies this
      ensures t == Var(Mint(old(counts), span).0) && counts == Mint(old(counts), span).1
      ensures messages == old(messages) && constraints == old(constraints)
      ensures typeNumeric == old(typeNumeric) && substitution == old(substitution)
    {
      var count := if span in counts then counts[span] else 0;
      counts := counts[span := count + 1];
      t := Var(UnifyVar(span, count));
    }

    method ReportUnsolvable(c: Constraint)
      modifies this
      ensures Snapshot() == Unsolvable(old(Snapshot()), c)
    {
      messages := messages + [Ambiguous(At(c))];
    }
  }

  datatype Solution = Solution(messages: seq<Message>, substitution: Substitution)

  /** `solve`: run a fresh solver over the obligations with the caller's counters. */
  method Solve(handlers: Handlers, counts: map<Span, nat>, constraints: seq<Constraint>)
    returns (s: Solution)
    ensures var r := SolveResult(handlers, State([], counts, constraints, [], map[]));
      s == Solution(r.messages, r.substitution)
  {
    var solver := new Solver(handlers, counts, constraints);
    solver.Solve();
    s := Solution(solver.messages, solver.substitution);
  }
}
