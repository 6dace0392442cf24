/** The structural unifier of the type checker (crates/frontend/src/tyck/solve/unify.rs).

    `UnifyResult` is the specification: the whole effect of one `unify_within` call on the
    unifier's four stores, as a function of the stores before the call. The class `Unifier`
    holds those stores as fields and its methods are proved to have exactly that effect.
    The helpers `merge_insts` and `make_mutability` live in a module that is not part of this
    model; they are the two function values of `Ops`. */
module Unify {
  import opened Common

  datatype Mutability = Mutable | Rigid

  /** A unification placeholder: the span it was created for and an ordinal. */
  datatype UniVar = UniVar(span: Span, ordinal: nat)

  /** A nominal type, or a rigid parameter that an instantiation context may bind. */
  type Name = nat

  datatype Type =
    | Invalid
    | Number
    | Range(lo: int, hi: int)
    | Name(name: Name)
    | Fun(dom: Type, cod: Type)
    | Product(first: Type, second: Type)
    | Var(mode: Mutability, v: UniVar)
    | Instantiated(base: Type, bindings: map<Name, Type>)

  /** An instantiation context: rigid parameters read through the caller's actuals. */
  type Inst = map<Name, Type>

  datatype Because = Unified(at: Span)

  /** Diagnostics: kind, location and payload (the rendered text is not modelled). The
      incompatible-types payload is `None` for two distinct names and the two types otherwise. */
  datatype Diag =
    | NarrowRange(at: Span, wide: (int, int), narrow: (int, int))
    | Incompatible(at: Span, expected: Option<Type>, actual: Option<Type>)
    | RecursiveInference(at: Span, v: UniVar, ty: Type)

  /** The two collaborators taken from `common::thir`: merging two contexts (`merge_insts`)
      and re-tagging a stored type with the mode it is read under (`make_mutability`). */
  datatype Ops = Ops(merge: (Inst, Inst) -> Inst, retag: (Type, Mutability) -> Type)

  /** The unifier's stores: the write-once substitution, the causes of commitments, the
      deferred rigid pairs and the diagnostics. */
  datatype State = State(
    subst: map<UniVar, (Inst, Type)>,
    causes: map<UniVar, Because>,
    worklist: seq<(Span, Type, Type)>,
    messages: seq<Diag>)

  /** `occurs`: does placeholder `v` appear in `ty`? Stored bindings are not followed. */
  predicate Occurs(v: UniVar, ty: Type) {
    match ty
    case Invalid => false
    case Number => false
    case Range(_, _) => false
    case Name(_) => false
    case Fun(t, u) => Occurs(v, t) || Occurs(v, u)
    case Product(t, u) => Occurs(v, t) || Occurs(v, u)
    case Instantiated(t, mapping) => (exists n :: n in mapping && Occurs(v, mapping[n])) || Occurs(v, t)
    case Var(_, w) => v == w
  }

  /** The placeholders written in a type, as an independent reference for `Occurs`. */
  function Vars(ty: Type): set<UniVar> {
    match ty
    case Invalid => {}
    case Number => {}
    case Range(_, _) => {}
    case Name(_) => {}
    case Fun(t, u) => Vars(t) + Vars(u)
    case Product(t, u) => Vars(t) + Vars(u)
    case Instantiated(t, mapping) => Vars(t) + (set n, w | n in mapping && w in Vars(mapping[n]) :: w)
    case Var(_, w) => {w}
  }

  /** `get`: the stored binding of `v`, its type re-tagged to `mode`. */
  function Lookup(ops: Ops, st: State, mode: Mutability, v: UniVar): (r: Option<(Inst, Type)>)
    ensures r.Some? <==> v in st.subst
    ensures r.Some? ==> r.value.0 == st.subst[v].0
  {
    if v in st.subst then Some((st.subst[v].0, ops.retag(st.subst[v].1, mode))) else None
  }

  /** `set`: commit `v`, which must not be stored yet (the source asserts this). */
  function Commit(st: State, inst: Inst, v: UniVar, ty: Type): (r: State)
    requires v !in st.subst
    ensures r.subst.Keys == st.subst.Keys + {v} && MapExtends(r.subst, st.subst)
  {
    st.(subst := st.subst[v := (inst, ty)])
  }

  function Report(st: State, d: Diag): State {
    st.(messages := st.messages + [d])
  }

  /** The arms for a placeholder `v` with no stored binding, met against `other`;
      `varOnLeft` says whether the placeholder was the expected side. */
  function Unstored(st: State, inst: Inst, span: Span, mode: Mutability, v: UniVar,
                        other: Type, varOnLeft: bool): State
    requires v !in st.subst
  {
    if mode == Mutable then
      if Occurs(v, other) then
        Commit(Report(st, RecursiveInference(span, v, other)), inst, v, Invalid)
      else
        Commit(st, inst, v, other).(causes := st.causes[v := Unified(span)])
    else
      var held := if inst == map[] then Var(mode, v) else Instantiated(Var(mode, v), inst);
      var entry := if varOnLeft then (span, held, other) else (span, other, held);
      st.(worklist := st.worklist + [entry])
  }

  /** What the first matching arm of `unify_within` does: finish with new stores, continue
      with one pair (under a possibly different context), or continue with two pairs in order. */
  datatype Arm =
    | Finish(after: State)
    | Again(inst: Inst, expected: Type, actual: Type)
    | Both(inst: Inst, e1: Type, a1: Type, e2: Type, a2: Type)

  /** The match of `unify_within`, arms tried in the source's order. */
  function Dispatch(ops: Ops, st: State, inst: Inst, span: Span, expected: Type, actual: Type): Arm {
    if expected.Range? && actual.Range? then
      if expected.lo <= actual.lo && expected.hi >= actual.hi then Finish(st)
      else Finish(Report(st, NarrowRange(span, (expected.lo, expected.hi), (actual.lo, actual.hi))))
    else if expected.Number? && actual.Range? then Finish(st)
    else if expected.Name? && expected.name in inst then Again(inst, inst[expected.name], actual)
    else if actual.Name? && actual.name in inst then Again(inst, expected, inst[actual.name])
    else if expected.Name? && actual.Name? then
      if expected.name != actual.name then Finish(Report(st, Incompatible(span, None, None))) else Finish(st)
    else if expected.Fun? && actual.Fun? then
      Both(inst, expected.dom, actual.dom, expected.cod, actual.cod)
    else if expected.Product? && actual.Product? then
      Both(inst, expected.first, actual.first, expected.second, actual.second)
    else PlaceholderArms(ops, st, inst, span, expected, actual)
  }

  /** The arms of `unify_within` from the placeholder arms on, once neither side is a range
      pair, a bound name or a pair of functions or products. */
  function PlaceholderArms(ops: Ops, st: State, inst: Inst, span: Span, expected: Type, actual: Type): Arm {
    if expected.Var? && actual.Var? && expected.v == actual.v then Finish(st)
    else if expected.Var? then
      match Lookup(ops, st, expected.mode, expected.v)
      case Some((other, t)) => Again(ops.merge(inst, other), t, actual)
      case None => Finish(Unstored(st, inst, span, expected.mode, expected.v, actual, true))
    else if actual.Var? then
      match Lookup(ops, st, actual.mode, actual.v)
      case Some((other, u)) => Again(ops.merge(inst, other), expected, u)
      case None => Finish(Unstored(st, inst, span, actual.mode, actual.v, expected, false))
    else if expected.Instantiated? then Again(inst + expected.bindings, expected.base, actual)
    else if actual.Instantiated? then Again(inst + actual.bindings, expected, actual.base)
    else if expected.Invalid? || actual.Invalid? then Finish(st)
    else Finish(Report(st, Incompatible(span, Some(expected), Some(actual))))
  }

  /** The effect of `unify_within(inst, span, expected, actual)` on the stores. `fuel` bounds
      the recursion depth; with no fuel left nothing more happens. */
  function UnifyResult(ops: Ops, st: State, inst: Inst, span: Span, expected: Type, actual: Type,
                       fuel: nat): State
    decreases fuel
  {
    if fuel == 0 then st
    else
      match Dispatch(ops, st, inst, span, expected, actual)
      case Finish(after) => after
      case Again(inst', e, a) => UnifyResult(ops, st, inst', span, e, a, fuel - 1)
      case Both(inst', e1, a1, e2, a2) =>
        UnifyResult(ops, UnifyResult(ops, st, inst', span, e1, a1, fuel - 1), inst', span, e2, a2, fuel - 1)
  }

  // ---------------------------------------------------------------------------------------
  // Properties of the specification

  lemma {:induction false} OccursIffVars(v: UniVar, ty: Type)
    ensures Occurs(v, ty) <==> v in Vars(ty)
  {
    match ty
    case Fun(t, u) => OccursIffVars(v, t); OccursIffVars(v, u);
    case Product(t, u) => OccursIffVars(v, t); OccursIffVars(v, u);
    case Instantiated(t, mapping) =>
      OccursIffVars(v, t);
      forall n | n in mapping ensures Occurs(v, mapping[n]) <==> v in Vars(mapping[n]) {
        OccursIffVars(v, mapping[n]);
      }
    case _ =>
  }

  /** The stores after a step only add to the stores before it. */
  ghost predicate Grows(st: State, r: State) {
    && st.subst.Keys <= r.subst.Keys && MapExtends(r.subst, st.subst)
    && Extends(r.worklist, st.worklist)
    && Extends(r.messages, st.messages)
    && (Consistent(st) ==> Consistent(r))
  }

  /** A finishing arm only adds: a new commitment (of an unstored placeholder), a deferred
      pair or a diagnostic, and keeps the stores' invariant. */
  lemma DispatchFinishOnlyExtends(ops: Ops, st: State, inst: Inst, span: Span, expected: Type, actual: Type)
    requires Dispatch(ops, st, inst, span, expected, actual).Finish?
    ensures Grows(st, Dispatch(ops, st, inst, span, expected, actual).after)
  {
    if expected.Range? && actual.Range? {
      ReportGrows(st, NarrowRange(span, (expected.lo, expected.hi), (actual.lo, actual.hi)));
    } else if expected.Name? && actual.Name? {
      ReportGrows(st, Incompatible(span, None, None));
    } else if !(expected.Number? && actual.Range?) && !(expected.Name? && expected.name in inst)
       && !(actual.Name? && actual.name in inst) {
      PlaceholderFinishOnlyExtends(ops, st, inst, span, expected, actual);
    }
  }

  lemma PlaceholderFinishOnlyExtends(ops: Ops, st: State, inst: Inst, span: Span, expected: Type, actual: Type)
    requires PlaceholderArms(ops, st, inst, span, expected, actual).Finish?
    ensures Grows(st, PlaceholderArms(ops, st, inst, span, expected, actual).after)
  {
    if expected.Var? && !(actual.Var? && expected.v == actual.v) && expected.v !in st.subst {
      UnstoredOnlyExtends(st, inst, span, expected.mode, expected.v, actual, true);
    } else if actual.Var? && !expected.Var? && actual.v !in st.subst {
      UnstoredOnlyExtends(st, inst, span, actual.mode, actual.v, expected, false);
    } else {
      ReportGrows(st, Incompatible(span, Some(expected), Some(actual)));
    }
  }

  lemma ReportGrows(st: State, d: Diag)
    ensures Grows(st, st) && Grows(st, Report(st, d))
  {
  }

  lemma UnstoredOnlyExtends(st: State, inst: Inst, span: Span, mode: Mutability, v: UniVar,
                            other: Type, varOnLeft: bool)
    requires v !in st.subst
    ensures Grows(st, Unstored(st, inst, span, mode, v, other, varOnLeft))
  {
  }

  /** Every call only adds: stored placeholders keep their binding (write-once), and the
      worklist and the diagnostics are only appended to. */
  lemma {:induction false} UnifyOnlyExtends(ops: Ops, st: State, inst: Inst, span: Span,
                                            expected: Type, actual: Type, fuel: nat)
    ensures var r := UnifyResult(ops, st, inst, span, expected, actual, fuel);
      && st.subst.Keys <= r.subst.Keys && MapExtends(r.subst, st.subst)
      && Extends(r.worklist, st.worklist)
      && Extends(r.messages, st.messages)
    decreases fuel
  {
    if fuel > 0 {
      match Dispatch(ops, st, inst, span, expected, actual)
      case Finish(_) =>
        DispatchFinishOnlyExtends(ops, st, inst, span, expected, actual);
      case Again(inst', e, a) =>
        UnifyOnlyExtends(ops, st, inst', span, e, a, fuel - 1);
      case Both(inst', e1, a1, e2, a2) =>
        var mid := UnifyResult(ops, st, inst', span, e1, a1, fuel - 1);
        var r := UnifyResult(ops, mid, inst', span, e2, a2, fuel - 1);
        UnifyOnlyExtends(ops, st, inst', span, e1, a1, fuel - 1);
        UnifyOnlyExtends(ops, mid, inst', span, e2, a2, fuel - 1);
        ExtendsTrans(r.worklist, mid.worklist, st.worklist);
        ExtendsTrans(r.messages, mid.messages, st.messages);
    }
  }

  /** The stores' invariant: no committed placeholder is bound to a type that mentions it
      directly, and every recorded cause belongs to a committed placeholder. */
  ghost predicate Consistent(st: State) {
    && (forall v :: v in st.subst ==> !Occurs(v, st.subst[v].1))
    && st.causes.Keys <= st.subst.Keys
  }

  lemma {:induction false} UnifyKeepsConsistent(ops: Ops, st: State, inst: Inst, span: Span,
                                                expected: Type, actual: Type, fuel: nat)
    requires Consistent(st)
    ensures Consistent(UnifyResult(ops, st, inst, span, expected, actual, fuel))
    decreases fuel
  {
    if fuel > 0 {
      match Dispatch(ops, st, inst, span, expected, actual)
      case Finish(_) =>
        DispatchFinishOnlyExtends(ops, st, inst, span, expected, actual);
      case Again(inst', e, a) =>
        UnifyKeepsConsistent(ops, st, inst', span, e, a, fuel - 1);
      case Both(inst', e1, a1, e2, a2) =>
        UnifyKeepsConsistent(ops, st, inst', span, e1, a1, fuel - 1);
        UnifyKeepsConsistent(ops, UnifyResult(ops, st, inst', span, e1, a1, fuel - 1), inst', span, e2, a2, fuel - 1);
    }
  }

  /** `(Range(lo1, hi1), Range(lo2, hi2))`: silent iff the actual interval lies inside the
      expected one, otherwise exactly one narrow-range diagnostic with both pairs. */
  lemma RangeContainment(ops: Ops, st: State, inst: Inst, span: Span, lo1: int, hi1: int,
                         lo2: int, hi2: int, fuel: nat)
    requires fuel > 0
    ensures var r := UnifyResult(ops, st, inst, span, Range(lo1, hi1), Range(lo2, hi2), fuel);
      && r.subst == st.subst && r.causes == st.causes && r.worklist == st.worklist
      && (r == st <==> lo1 <= lo2 && hi1 >= hi2)
      && (!(lo1 <= lo2 && hi1 >= hi2) ==> r.messages == st.messages + [NarrowRange(span, (lo1, hi1), (lo2, hi2))])
  {
  }

  /** `Number` absorbs a range only as the expected side; a range expected against
      `Number`, and `Number` against itself, fall to the incompatible arm. */
  lemma NumberAsymmetry(ops: Ops, st: State, inst: Inst, span: Span, lo: int, hi: int, fuel: nat)
    requires fuel > 0
    ensures UnifyResult(ops, st, inst, span, Number, Range(lo, hi), fuel) == st
    ensures UnifyResult(ops, st, inst, span, Range(lo, hi), Number, fuel)
         == Report(st, Incompatible(span, Some(Range(lo, hi)), Some(Number)))
    ensures UnifyResult(ops, st, inst, span, Number, Number, fuel)
         == Report(st, Incompatible(span, Some(Number), Some(Number)))
  {
  }

  /** A name bound in the context is replaced by its binding before comparison, on either
      side (the expected side first); two unbound names are compatible iff they are the same
      name. */
  lemma NameResolution(ops: Ops, st: State, inst: Inst, span: Span, n: Name, m: Name, u: Type, fuel: nat)
    requires fuel > 0
    ensures n in inst ==>
      UnifyResult(ops, st, inst, span, Name(n), u, fuel) == UnifyResult(ops, st, inst, span, inst[n], u, fuel - 1)
    ensures m in inst && !(u.Name? && u.name in inst) ==>
      UnifyResult(ops, st, inst, span, u, Name(m), fuel) == UnifyResult(ops, st, inst, span, u, inst[m], fuel - 1)
    ensures n !in inst && m !in inst ==>
      UnifyResult(ops, st, inst, span, Name(n), Name(m), fuel)
        == if n == m then st else Report(st, Incompatible(span, None, None))
  {
  }

  /** Both component pairs of functions and products are unified, left then right, whatever
      the first pair reports. */
  lemma ComponentsInOrder(ops: Ops, st: State, inst: Inst, span: Span, t1: Type, u1: Type,
                          t2: Type, u2: Type, fuel: nat)
    requires fuel > 0
    ensures UnifyResult(ops, st, inst, span, Fun(t1, u1), Fun(t2, u2), fuel)
         == UnifyResult(ops, UnifyResult(ops, st, inst, span, t1, t2, fuel - 1), inst, span, u1, u2, fuel - 1)
    ensures UnifyResult(ops, st, inst, span, Product(t1, u1), Product(t2, u2), fuel)
         == UnifyResult(ops, UnifyResult(ops, st, inst, span, t1, t2, fuel - 1), inst, span, u1, u2, fuel - 1)
  {
  }

  /** A placeholder met with itself is a no-op; `Invalid` is silent against anything that is
      not a placeholder, an instantiation or a bound name; and because the placeholder arms
      come first, `Invalid` against an unstored mutable placeholder commits it to `Invalid`. */
  lemma InvalidAndSelf(ops: Ops, st: State, inst: Inst, span: Span, m1: Mutability, m2: Mutability,
                       v: UniVar, t: Type, fuel: nat)
    requires fuel > 0
    ensures UnifyResult(ops, st, inst, span, Var(m1, v), Var(m2, v), fuel) == st
    ensures !t.Var? && !t.Instantiated? && !(t.Name? && t.name in inst) ==>
      UnifyResult(ops, st, inst, span, Invalid, t, fuel) == st &&
      UnifyResult(ops, st, inst, span, t, Invalid, fuel) == st
    ensures v !in st.subst ==>
      UnifyResult(ops, st, inst, span, Invalid, Var(Mutable, v), fuel)
        == st.(subst := st.subst[v := (inst, Invalid)], causes := st.causes[v := Unified(span)])
  {
  }

  /** A stored placeholder is never overwritten: it is read back (re-tagged) and the contexts
      are merged, then unification continues against the stored type; on either side. */
  lemma StoredIsResolved(ops: Ops, st: State, inst: Inst, span: Span, mode: Mutability, v: UniVar,
                         u: Type, fuel: nat)
    requires fuel > 0 && v in st.subst
    requires !(u.Name? && u.name in inst) && !(u.Var? && u.v == v)
    ensures var r := UnifyResult(ops, st, inst, span, Var(mode, v), u, fuel);
      && r == UnifyResult(ops, st, ops.merge(inst, st.subst[v].0), span, ops.retag(st.subst[v].1, mode), u, fuel - 1)
      && v in r.subst && r.subst[v] == st.subst[v]
    ensures !u.Var? ==>
      var r := UnifyResult(ops, st, inst, span, u, Var(mode, v), fuel);
      && r == UnifyResult(ops, st, ops.merge(inst, st.subst[v].0), span, u, ops.retag(st.subst[v].1, mode), fuel - 1)
      && v in r.subst && r.subst[v] == st.subst[v]
  {
    var (other, t) := Lookup(ops, st, mode, v).value;
    UnifyOnlyExtends(ops, st, ops.merge(inst, other), span, t, u, fuel - 1);
    UnifyOnlyExtends(ops, st, ops.merge(inst, other), span, u, t, fuel - 1);
  }

  /** An unstored mutable placeholder on either side: committed to the other type with its
      cause and no diagnostic when the occurs check passes; otherwise exactly one
      recursive-inference diagnostic and a commitment to `Invalid`. */
  lemma UnstoredMutable(ops: Ops, st: State, inst: Inst, span: Span, v: UniVar, u: Type, fuel: nat)
    requires fuel > 0 && v !in st.subst
    requires !(u.Name? && u.name in inst) && !(u.Var? && u.v == v)
    ensures var r := UnifyResult(ops, st, inst, span, Var(Mutable, v), u, fuel);
      && r.worklist == st.worklist
      && (!Occurs(v, u) ==> r == st.(subst := st.subst[v := (inst, u)], causes := st.causes[v := Unified(span)]))
      && (Occurs(v, u) ==> r == st.(subst := st.subst[v := (inst, Invalid)],
                                    messages := st.messages + [RecursiveInference(span, v, u)]))
    ensures !u.Var? ==>
      var r := UnifyResult(ops, st, inst, span, u, Var(Mutable, v), fuel);
      && (!Occurs(v, u) ==> r == st.(subst := st.subst[v := (inst, u)], causes := st.causes[v := Unified(span)]))
      && (Occurs(v, u) ==> r == st.(subst := st.subst[v := (inst, Invalid)],
                                    messages := st.messages + [RecursiveInference(span, v, u)]))
  {
  }

  /** An unstored rigid placeholder leaves the substitution alone and defers exactly one pair
      with the same span, wrapped in the context iff the context is non-empty. */
  lemma UnstoredRigid(ops: Ops, st: State, inst: Inst, span: Span, v: UniVar, u: Type, fuel: nat)
    requires fuel > 0 && v !in st.subst
    requires !(u.Name? && u.name in inst) && !(u.Var? && u.v == v)
    ensures var r := UnifyResult(ops, st, inst, span, Var(Rigid, v), u, fuel);
      && r.subst == st.subst && r.causes == st.causes && r.messages == st.messages
      && r.worklist == st.worklist + [(span, if inst == map[] then Var(Rigid, v)
                                            else Instantiated(Var(Rigid, v), inst), u)]
    ensures !u.Var? ==>
      var r := UnifyResult(ops, st, inst, span, u, Var(Rigid, v), fuel);
      && r.subst == st.subst && r.causes == st.causes && r.messages == st.messages
      && r.worklist == st.worklist + [(span, u, if inst == map[] then Var(Rigid, v)
                                               else Instantiated(Var(Rigid, v), inst))]
  {
  }

  /** An instantiation is transparent on either side (the expected side first): its bindings
      join the context, winning on a clash. */
  lemma InstantiatedIsTransparent(ops: Ops, st: State, inst: Inst, span: Span, t: Type,
                                  bindings: Inst, u: Type, fuel: nat)
    requires fuel > 0
    requires !u.Var? && !(u.Name? && u.name in inst)
    ensures UnifyResult(ops, st, inst, span, Instantiated(t, bindings), u, fuel)
         == UnifyResult(ops, st, inst + bindings, span, t, u, fuel - 1)
    ensures !u.Instantiated? ==>
      UnifyResult(ops, st, inst, span, u, Instantiated(t, bindings), fuel)
        == UnifyResult(ops, st, inst + bindings, span, u, t, fuel - 1)
    ensures forall n :: n in bindings ==> (inst + bindings)[n] == bindings[n]
  {
  }

  /** Types built only from ranges, names, `Invalid`, functions and products. */
  predicate Closed(t: Type) {
    match t
    case Invalid => true
    case Range(_, _) => true
    case Name(_) => true
    case Fun(a, b) => Closed(a) && Closed(b)
    case Product(a, b) => Closed(a) && Closed(b)
    case _ => false
  }

  function Height(t: Type): nat {
    match t
    case Fun(a, b) => 1 + (if Height(a) < Height(b) then Height(b) else Height(a))
    case Product(a, b) => 1 + (if Height(a) < Height(b) then Height(b) else Height(a))
    case _ => 0
  }

  /** Unifying a closed type with itself in the empty context changes nothing. `Number` is
      excluded: see `NumberAsymmetry`. */
  lemma {:induction false} ReflexiveOnClosed(ops: Ops, st: State, span: Span, t: Type, fuel: nat)
    requires Closed(t) && fuel > Height(t)
    ensures UnifyResult(ops, st, map[], span, t, t, fuel) == st
  {
    match t
    case Fun(a, b) =>
      assert Dispatch(ops, st, map[], span, t, t) == Both(map[], a, a, b, b);
      ReflexiveOnClosed(ops, st, span, a, fuel - 1);
      ReflexiveOnClosed(ops, st, span, b, fuel - 1);
    case Product(a, b) =>
      assert Dispatch(ops, st, map[], span, t, t) == Both(map[], a, a, b, b);
      ReflexiveOnClosed(ops, st, span, a, fuel - 1);
      ReflexiveOnClosed(ops, st, span, b, fuel - 1);
    case Invalid =>
      assert Dispatch(ops, st, map[], span, t, t) == Finish(st);
    case Range(_, _) =>
    case Name(_) =>
    case _ =>
  }

  /** The occurs check does not look through the substitution, so two commitments can build
      a cycle through the store: `v := w`, then `w := v -> Invalid`. */
  lemma CycleThroughStore(ops: Ops, span: Span, v: UniVar, w: UniVar)
    requires v != w
    ensures var st0 := State(map[], map[], [], []);
      var st1 := UnifyResult(ops, st0, map[], span, Var(Mutable, v), Var(Mutable, w), 1);
      var st2 := UnifyResult(ops, st1, map[], span, Var(Mutable, w), Fun(Var(Mutable, v), Invalid), 1);
      && st2.messages == []
      && st2.subst[v].1 == Var(Mutable, w)
      && st2.subst[w].1 == Fun(Var(Mutable, v), Invalid)
  {
    var st0 := State(map[], map[], [], []);
    var st1 := UnifyResult(ops, st0, map[], span, Var(Mutable, v), Var(Mutable, w), 1);
    assert st1.subst == map[v := (map[], Var(Mutable, w))];
    assert !Occurs(w, Fun(Var(Mutable, v), Invalid));
  }

  // ---------------------------------------------------------------------------------------
  // The unifier object

  class Unifier {
    const ops: Ops
    var subst: map<UniVar, (Inst, Type)>
    var causes: map<UniVar, Because>
    var worklist: seq<(Span, Type, Type)>
    var messages: seq<Diag>

    function Stores(): State
      reads this
    {
      State(subst, causes, worklist, messages)
    }

    constructor (ops: Ops)
      ensures this.ops == ops
      ensures subst == map[] && causes == map[] && worklist == [] && messages == []
    {
      this.ops := ops;
      subst, causes, worklist, messages := map[], map[], [], [];
    }

    /** `unify`: unification in the empty context. */
    method Unify(span: Span, expected: Type, actual: Type, fuel: nat)
      modifies this
      ensures Stores() == UnifyResult(ops, old(Stores()), map[], span, expected, actual, fuel)
    {
      UnifyWithin(map[], span, expected, actual, fuel);
    }

    method UnifyWithin(inst: Inst, span: Span, expected: Type, actual: Type, fuel: nat)
      modifies this
      ensures Stores() == UnifyResult(ops, old(Stores()), inst, span, expected, actual, fuel)
      decreases fuel
    {
      if fuel == 0 { return; }
      var f := fuel - 1;
      if expected.Range? && actual.Range? {
        if !(expected.lo <= actual.lo && expected.hi >= actual.hi) {
          messages := messages + [NarrowRange(span, (expected.lo, expected.hi), (actual.lo, actual.hi))];
        }
      } else if expected.Number? && actual.Range? {
      } else if expected.Name? && expected.name in inst {
        UnifyWithin(inst, span, inst[expected.name], actual, f);
      } else if actual.Name? && actual.name in inst {
        UnifyWithin(inst, span, expected, inst[actual.name], f);
      } else if expected.Name? && actual.Name? {
        if expected.name != actual.name {
          messages := messages + [Incompatible(span, None, None)];
        }
      } else if expected.Fun? && actual.Fun? {
        UnifyWithin(inst, span, expected.dom, actual.dom, f);
        UnifyWithin(inst, span, expected.cod, actual.cod, f);
      } else if expected.Product? && actual.Product? {
        UnifyWithin(inst, span, expected.first, actual.first, f);
        UnifyWithin(inst, span, expected.second, actual.second, f);
      } else if expected.Var? && actual.Var? && expected.v == actual.v {
      } else if expected.Var? {
        var stored := Get(expected.mode, expected.v);
        if stored.Some? {
          UnifyWithin(ops.merge(inst, stored.value.0), span, stored.value.1, actual, f);
        } else {
          BindUnstored(inst, span, expected.mode, expected.v, actual, true);
        }
      } else if actual.Var? {
        var stored := Get(actual.mode, actual.v);
        if stored.Some? {
          UnifyWithin(ops.merge(inst, stored.value.0), span, expected, stored.value.1, f);
        } else {
          BindUnstored(inst, span, actual.mode, actual.v, expected, false);
        }
      } else if expected.Instantiated? {
        UnifyWithin(inst + expected.bindings, span, expected.base, actual, f);
      } else if actual.Instantiated? {
        UnifyWithin(inst + actual.bindings, span, expected, actual.base, f);
      } else if expected.Invalid? || actual.Invalid? {
      } else {
        messages := messages + [Incompatible(span, Some(expected), Some(actual))];
      }
    }

    method BindUnstored(inst: Inst, span: Span, mode: Mutability, v: UniVar, other: Type, varOnLeft: bool)
      requires v !in subst
      modifies this
      ensures Stores() == Unstored(old(Stores()), inst, span, mode, v, other, varOnLeft)
    {
      if mode == Mutable {
        if Occurs(v, other) {
          messages := messages + [RecursiveInference(span, v, other)];
          Set(inst, v, Invalid);
        } else {
          Set(inst, v, other);
          causes := causes[v := Unified(span)];
        }
      } else if inst == map[] {
        worklist := worklist + [if varOnLeft then (span, Var(mode, v), other) else (span, other, Var(mode, v))];
      } else {
        var held := Instantiated(Var(mode, v), inst);
        worklist := worklist + [if varOnLeft then (span, held, other) else (span, other, held)];
      }
    }

    function Get(mode: Mutability, v: UniVar): (r: Option<(Inst, Type)>)
      reads this
      ensures r.Some? <==> v in subst
      ensures r == Lookup(ops, Stores(), mode, v)
    {
      if v in subst then Some((subst[v].0, ops.retag(subst[v].1, mode))) else None
    }

    /** `set`: a placeholder is written once; writing a stored one is a solver bug. */
    method Set(inst: Inst, v: UniVar, ty: Type)
      requires v !in subst
      modifies this
      ensures subst == old(subst)[v := (inst, ty)]
      ensures causes == old(causes) && worklist == old(worklist) && messages == old(messages)
    {
      subst := subst[v := (inst, ty)];
    }
  }
}
