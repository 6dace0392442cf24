/** The evaluator's environments and its two worklists (src/elab/eval/mod.rs).

    `Env` is a persistent value: a map of its own plus an optional parent. The `Lowerer`
    first discovers, from an entry name, the definitions reachable through name lookups
    (`Discover`), reducing each at most once, and then pops that worklist to emit each
    bound name at most once (`ReduceFrom`). The reducers `reduce_exprs` and `reduce_irr`,
    and `promote`, live in files that are not part of this model; they are the function
    values `reduceExprs`, `reduceIrr` and `promote`. `reduceExprs` also returns the names it
    looks up, in order: in discovery mode each such lookup goes through `Lowerer.Lookup`. */
module Eval {
  import opened Common

  /** A resolved name (interned in the source). */
  type Name = nat

  /** A MIR expression; the MIR is not part of this model, so it is an opaque code. */
  type Code = nat

  /** A reduced value: its node is opaque here, its span is what `reduce_from` reads. */
  datatype Irreducible = Irreducible(node: Code, span: Span)

  datatype ValueDef = ValueDef(name: Name, span: Span, bind: Code)

  datatype Env = Env(bindings: map<Name, Irreducible>, parent: Option<Env>) {

    /** The maps along the parent chain, own map first. */
    function Frames(): seq<map<Name, Irreducible>> {
      [bindings] + (if parent.Some? then parent.value.Frames() else [])
    }

    /** The value bound to `n` nearest in the chain; none iff no frame binds `n`. */
    function Lookup(n: Name): (r: Option<Irreducible>)
      ensures r.None? <==> forall i :: 0 <= i < |Frames()| ==> n !in Frames()[i]
    {
      assert Frames()[0] == bindings;
      if n in bindings then Some(bindings[n])
      else if parent.Some? then
        assert Frames()[1..] == parent.value.Frames();
        parent.value.Lookup(n)
      else None
    }

    static function New(): (r: Env)
      ensures forall n :: r.Lookup(n).None?
    {
      Env(map[], None)
    }

    /** An empty frame in front of this environment: it resolves every name alike. */
    function Child(): (r: Env)
      ensures r.bindings == map[]
      ensures forall n :: r.Lookup(n) == Lookup(n)
    {
      Env(map[], Some(this))
    }

    /** `set`: binds `n` in the own map, shadowing the chain; every other name is unaffected. */
    function Set(n: Name, v: Irreducible): (r: Env)
      ensures r.Lookup(n) == Some(v)
      ensures forall m :: m != n ==> r.Lookup(m) == Lookup(m)
      ensures r.parent == parent && r.bindings.Keys == bindings.Keys + {n}
    {
      Env(bindings[n := v], parent)
    }

    /** `with`: a child whose own map is a copy of this one with `n` bound to `v`. */
    function With(n: Name, v: Irreducible): (r: Env)
      ensures r.Lookup(n) == Some(v)
      ensures forall m :: m != n ==> r.Lookup(m) == Lookup(m)
      ensures r.parent == Some(this)
    {
      Env(bindings[n := v], Some(this))
    }
  }

  /** The first of `frames` to bind `n` decides the lookup. */
  function FirstBound(frames: seq<map<Name, Irreducible>>, n: Name): Option<Irreducible> {
    if frames == [] then None
    else if n in frames[0] then Some(frames[0][n])
    else FirstBound(frames[1..], n)
  }

  lemma {:induction false} LookupFirstFrame(e: Env, n: Name)
    ensures e.Lookup(n) == FirstBound(e.Frames(), n)
  {
    var fs := e.Frames();
    assert fs[0] == e.bindings;
    if n !in e.bindings && e.parent.Some? {
      LookupFirstFrame(e.parent.value, n);
      assert fs[1..] == e.parent.value.Frames();
    }
  }

  // ---------------------------------------------------------------------------------------
  // Discovery

  datatype Behaviour = Discover | FullEval

  /** A discovery lookup: the name joins the worklist unless it is already there. */
  function Note(worklist: seq<Name>, n: Name): (r: seq<Name>)
    ensures n in r && Extends(r, worklist) && |r| <= |worklist| + 1
  {
    if n in worklist then worklist else worklist + [n]
  }

  function NoteAll(worklist: seq<Name>, looked: seq<Name>): (r: seq<Name>)
    decreases |looked|
  {
    if looked == [] then worklist
    else Note(NoteAll(worklist, looked[..|looked| - 1]), looked[|looked| - 1])
  }

  ghost predicate Distinct(s: seq<Name>) {
    forall i, j :: 0 <= i < j < |s| ==> s[i] != s[j]
  }

  lemma NoteKeepsDistinct(worklist: seq<Name>, n: Name)
    requires Distinct(worklist)
    ensures Distinct(Note(worklist, n))
  {
  }

  /** Discovery lookups only append, never twice the same name, and every looked-up name
      ends up in the worklist. */
  lemma {:induction false} NoteAllProperties(worklist: seq<Name>, looked: seq<Name>)
    ensures Extends(NoteAll(worklist, looked), worklist)
    ensures forall n :: n in looked ==> n in NoteAll(worklist, looked)
    ensures Distinct(worklist) ==> Distinct(NoteAll(worklist, looked))
    decreases |looked|
  {
    if looked != [] {
      var init := looked[..|looked| - 1];
      NoteAllProperties(worklist, init);
      var w := NoteAll(worklist, init);
      ExtendsTrans(Note(w, looked[|looked| - 1]), w, worklist);
      if Distinct(worklist) {
        NoteKeepsDistinct(w, looked[|looked| - 1]);
      }
      forall n | n in looked
        ensures n in NoteAll(worklist, looked)
      {
        if n != looked[|looked| - 1] {
          assert n in init;
          assert Note(w, looked[|looked| - 1])[..|w|] == w;
        }
      }
    }
  }

  /** The `decls` as the map `discover` collects: by name, a later definition replacing an
      earlier one of the same name. */
  function DefsByName(decls: seq<ValueDef>): (r: map<Name, ValueDef>)
    ensures forall n :: n in r <==> exists d :: d in decls && d.name == n
    ensures forall n :: n in r ==> r[n].name == n
    decreases |decls|
  {
    if decls == [] then map[]
    else
      var init := decls[..|decls| - 1];
      var last := decls[|decls| - 1];
      var r := DefsByName(init)[last.name := last];
      assert forall d :: d in decls ==> d in init || d == last;
      r
  }

  /** `decls[i]` is the last definition named `n`. */
  ghost predicate LastNamed(decls: seq<ValueDef>, i: int, n: Name) {
    0 <= i < |decls| && decls[i].name == n && forall j :: i < j < |decls| ==> decls[j].name != n
  }

  /** The entry for `n` is the last of the `decls` carrying that name. */
  lemma {:induction false} DefsByNameKeepsLast(decls: seq<ValueDef>, n: Name)
    requires n in DefsByName(decls)
    ensures exists i :: LastNamed(decls, i, n) && decls[i] == DefsByName(decls)[n]
    decreases |decls|
  {
    var init := decls[..|decls| - 1];
    var last := decls[|decls| - 1];
    if n == last.name {
      assert LastNamed(decls, |decls| - 1, n);
    } else {
      DefsByNameKeepsLast(init, n);
      var i :| LastNamed(init, i, n) && init[i] == DefsByName(init)[n];
      forall j | i < j < |decls|
        ensures decls[j].name != n
      {
        if j < |init| {
          assert decls[j] == init[j];
        }
      }
      assert decls[i] == init[i];
      assert LastNamed(decls, i, n);
    }
  }

  /** The state `discover` works on; `reduced` logs every call to the reducer. */
  datatype Disc = Disc(
    env: Env,
    worklist: seq<Name>,
    defs: map<Name, ValueDef>,
    index: nat,
    reduced: seq<Name>)

  /** One round of the `discover` loop. */
  function DiscoverStep(reduceExprs: (Env, Code) -> (Irreducible, seq<Name>), d: Disc): (r: Disc)
    requires d.index < |d.worklist|
    ensures r.index == d.index + 1 && Extends(r.worklist, d.worklist)
    ensures r.defs.Keys <= d.defs.Keys
  {
    var name := d.worklist[d.index];
    if name in d.defs then
      var def := d.defs[name];
      var (bind, looked) := reduceExprs(d.env, def.bind);
      NoteAllProperties(d.worklist, looked);
      Disc(d.env.Set(def.name, bind), NoteAll(d.worklist, looked), d.defs - {name}, d.index + 1,
           d.reduced + [name])
    else
      d.(index := d.index + 1)
  }

  /** The `discover` loop run to the end of its worklist. */
  function Discovered(reduceExprs: (Env, Code) -> (Irreducible, seq<Name>), d: Disc): (r: Disc)
    ensures r.index >= |r.worklist|
    decreases d.defs.Keys, |d.worklist| - d.index
  {
    if d.index >= |d.worklist| then d
    else Discovered(reduceExprs, DiscoverStep(reduceExprs, d))
  }

  /** What `discover` keeps true: the reduced names are distinct and no longer among the
      definitions, and each has been bound in the environment's own map. */
  ghost predicate DiscOk(d: Disc) {
    && Distinct(d.reduced)
    && (forall n :: n in d.reduced ==> n !in d.defs && n in d.env.bindings)
    && (forall n :: n in d.defs ==> d.defs[n].name == n)
  }

  /** One round keeps `DiscOk`, moves the name it reduces from the definitions to the log,
      and leaves the name it visited unreduceable. */
  lemma DiscoverStepProperties(
    reduceExprs: (Env, Code) -> (Irreducible, seq<Name>), d: Disc, from: nat)
    requires DiscOk(d)
    requires from <= d.index < |d.worklist|
    requires forall i :: from <= i < d.index ==> d.worklist[i] !in d.defs
    ensures var s := DiscoverStep(reduceExprs, d);
      && DiscOk(s)
      && s.defs.Keys + (set n | n in s.reduced) == d.defs.Keys + (set n | n in d.reduced)
      && Extends(s.reduced, d.reduced)
      && (Distinct(d.worklist) ==> Distinct(s.worklist))
      && (forall i :: from <= i < s.index ==> s.worklist[i] !in s.defs)
  {
    var name := d.worklist[d.index];
    if name in d.defs {
      var (bind, looked) := reduceExprs(d.env, d.defs[name].bind);
      ReduceRound(d, name, bind, looked, from);
    }
  }

  /** The round that reduces `name`, with the reducer's result and looked-up names given. */
  lemma ReduceRound(d: Disc, name: Name, bind: Irreducible, looked: seq<Name>, from: nat)
    requires DiscOk(d)
    requires from <= d.index < |d.worklist| && name == d.worklist[d.index] && name in d.defs
    requires forall i :: from <= i < d.index ==> d.worklist[i] !in d.defs
    ensures var s := Disc(d.env.Set(name, bind), NoteAll(d.worklist, looked), d.defs - {name},
                          d.index + 1, d.reduced + [name]);
      && DiscOk(s)
      && s.defs.Keys + (set n | n in s.reduced) == d.defs.Keys + (set n | n in d.reduced)
      && Extends(s.reduced, d.reduced)
      && (Distinct(d.worklist) ==> Distinct(s.worklist))
      && (forall i :: from <= i < s.index <= |s.worklist| ==> s.worklist[i] !in s.defs)
  {
    ReduceRoundLog(d, name, d.env.Set(name, bind));
    NoteAllProperties(d.worklist, looked);
    var w := NoteAll(d.worklist, looked);
    forall i | from <= i < d.index + 1 <= |w|
      ensures w[i] !in d.defs - {name}
    {
      assert w[i] == d.worklist[i];
    }
  }

  /** The log and the environment after reducing `name`, `env` being the new environment. */
  lemma ReduceRoundLog(d: Disc, name: Name, env: Env)
    requires DiscOk(d) && name in d.defs && env.bindings.Keys == d.env.bindings.Keys + {name}
    ensures var s := d.(env := env, defs := d.defs - {name}, reduced := d.reduced + [name]);
      && DiscOk(s)
      && s.defs.Keys + (set n | n in s.reduced) == d.defs.Keys + (set n | n in d.reduced)
      && Extends(s.reduced, d.reduced)
  {
    var s := d.(env := env, defs := d.defs - {name}, reduced := d.reduced + [name]);
    assert s.reduced[..|d.reduced|] == d.reduced;
    LogGrows(d.reduced, name);
    assert Distinct(s.reduced) by {
      assert name !in d.reduced;
      forall i, j | 0 <= i < j < |s.reduced|
        ensures s.reduced[i] != s.reduced[j]
      {
        assert s.reduced[i] == d.reduced[i];
      }
    }
    forall n | n in s.reduced
      ensures n !in s.defs && n in s.env.bindings
    {
      assert n in d.reduced || n == name;
    }
  }

  lemma LogGrows(log: seq<Name>, name: Name)
    ensures (set n | n in log + [name]) == (set n | n in log) + {name}
  {
    assert forall n :: n in log + [name] <==> n in log || n == name;
  }

  /** Each definition is reduced at most once, only definitions are reduced, every one
      reached by the worklist is reduced, and the worklist only grows, without repeats. */
  lemma {:induction false} DiscoveredProperties(
    reduceExprs: (Env, Code) -> (Irreducible, seq<Name>), d: Disc, from: nat)
    requires DiscOk(d)
    requires from <= d.index <= |d.worklist|
    requires forall i :: from <= i < d.index ==> d.worklist[i] !in d.defs
    ensures var r := Discovered(reduceExprs, d);
      && DiscOk(r)
      && r.defs.Keys + (set n | n in r.reduced) == d.defs.Keys + (set n | n in d.reduced)
      && Extends(r.reduced, d.reduced)
      && Extends(r.worklist, d.worklist)
      && (Distinct(d.worklist) ==> Distinct(r.worklist))
      && (forall i :: from <= i < |r.worklist| ==> r.worklist[i] !in r.defs)
    decreases d.defs.Keys, |d.worklist| - d.index
  {
    if d.index < |d.worklist| {
      var s := DiscoverStep(reduceExprs, d);
      DiscoverStepProperties(reduceExprs, d, from);
      DiscoveredProperties(reduceExprs, s, from);
      var r := Discovered(reduceExprs, s);
      ExtendsTrans(r.worklist, s.worklist, d.worklist);
      ExtendsTrans(r.reduced, s.reduced, d.reduced);
    }
  }

  // ---------------------------------------------------------------------------------------
  // Emission

  /** The state `reduce_from` works on: the environment, the definitions emitted so far,
      and the names among them. */
  datatype Emission = Emission(env: Env, values: seq<ValueDef>, valueNames: set<Name>)

  /** One popped name: emitted iff not emitted before and bound in the environment. */
  function EmitStep(
    reduceIrr: (Env, Irreducible) -> Irreducible, promote: Irreducible -> Code,
    st: Emission, name: Name): Emission
  {
    if name !in st.valueNames && st.env.Lookup(name).Some? then
      var bind := reduceIrr(st.env, st.env.Lookup(name).value);
      Emission(st.env.Set(name, bind), st.values + [ValueDef(name, bind.span, promote(bind))],
               st.valueNames + {name})
    else
      st
  }

  /** `reduce_from`: pops the worklist, last entry first. */
  function Emitted(
    reduceIrr: (Env, Irreducible) -> Irreducible, promote: Irreducible -> Code,
    st: Emission, pending: seq<Name>): Emission
    decreases |pending|
  {
    if pending == [] then st
    else Emitted(reduceIrr, promote, EmitStep(reduceIrr, promote, st, pending[|pending| - 1]),
                 pending[..|pending| - 1])
  }

  function Names(values: seq<ValueDef>): seq<Name> {
    seq(|values|, i requires 0 <= i < |values| => values[i].name)
  }

  /** What emission keeps: the emitted names are distinct and are exactly `valueNames`. */
  ghost predicate EmissionOk(st: Emission) {
    Distinct(Names(st.values)) && (forall n :: n in st.valueNames <==> n in Names(st.values))
  }

  lemma EmitStepProperties(
    reduceIrr: (Env, Irreducible) -> Irreducible, promote: Irreducible -> Code,
    st: Emission, name: Name)
    requires EmissionOk(st)
    ensures var s := EmitStep(reduceIrr, promote, st, name);
      && EmissionOk(s)
      && s.valueNames == st.valueNames + (if st.env.Lookup(name).Some? then {name} else {})
      && Extends(s.values, st.values)
      && (forall n :: s.env.Lookup(n).Some? <==> st.env.Lookup(n).Some?)
  {
    var s := EmitStep(reduceIrr, promote, st, name);
    if name !in st.valueNames && st.env.Lookup(name).Some? {
      assert Names(s.values) == Names(st.values) + [name];
    }
  }

  /** Emission names exactly the pending names bound in the environment, each once and
      in popping order after the earlier ones; it rebinds only names already bound. */
  lemma {:induction false} EmittedProperties(
    reduceIrr: (Env, Irreducible) -> Irreducible, promote: Irreducible -> Code,
    st: Emission, pending: seq<Name>)
    requires EmissionOk(st)
    ensures var r := Emitted(reduceIrr, promote, st, pending);
      && EmissionOk(r)
      && r.valueNames == st.valueNames + (set n | n in pending && st.env.Lookup(n).Some?)
      && Extends(r.values, st.values)
      && (forall n :: r.env.Lookup(n).Some? <==> st.env.Lookup(n).Some?)
    decreases |pending|
  {
    if pending != [] {
      var name := pending[|pending| - 1];
      var init := pending[..|pending| - 1];
      var s := EmitStep(reduceIrr, promote, st, name);
      EmitStepProperties(reduceIrr, promote, st, name);
      EmittedProperties(reduceIrr, promote, s, init);
      var r := Emitted(reduceIrr, promote, s, init);
      assert forall n :: n in pending <==> n in init || n == name;
      ExtendsTrans(r.values, s.values, st.values);
    }
  }

  // ---------------------------------------------------------------------------------------
  // The lowerer object

  class Lowerer {
    const reduceExprs: (Env, Code) -> (Irreducible, seq<Name>)
    const reduceIrr: (Env, Irreducible) -> Irreducible
    const promote: Irreducible -> Code
    var env: Env
    var behaviour: Behaviour
    var worklist: seq<Name>

    constructor (
      reduceExprs: (Env, Code) -> (Irreducible, seq<Name>),
      reduceIrr: (Env, Irreducible) -> Irreducible,
      promote: Irreducible -> Code)
      ensures this.reduceExprs == reduceExprs && this.reduceIrr == reduceIrr && this.promote == promote
      ensures env == Env.New() && behaviour == FullEval && worklist == []
    {
      this.reduceExprs := reduceExprs;
      this.reduceIrr := reduceIrr;
      this.promote := promote;
      env := Env.New();
      behaviour := FullEval;
      worklist := [];
    }

    /** `lookup`: in full evaluation, the environment's answer; in discovery, nothing, with
        the name noted on the worklist. */
    method Lookup(e: Env, name: Name) returns (r: Option<Irreducible>)
      modifies this
      ensures behaviour == old(behaviour) && env == old(env)
      ensures old(behaviour) == FullEval ==> r == e.Lookup(name) && worklist == old(worklist)
      ensures old(behaviour) == Behaviour.Discover ==> r == None && worklist == Note(old(worklist), name)
    {
      match behaviour {
        case FullEval => r := e.Lookup(name);
        case Discover =>
          if name !in worklist {
            worklist := worklist + [name];
          }
          r := None;
      }
    }

    /** `reduce_exprs` in discovery mode: the reducer's own work is `reduceExprs`; each
        name it looks up goes through `Lookup`. */
    method ReduceExprs(e: Env, bind: Code) returns (r: Irreducible)
      requires behaviour == Behaviour.Discover
      modifies this
      ensures behaviour == old(behaviour) && env == old(env)
      ensures r == reduceExprs(e, bind).0
      ensures worklist == NoteAll(old(worklist), reduceExprs(e, bind).1)
    {
      var reducedAndLooked := reduceExprs(e, bind);
      var looked := reducedAndLooked.1;
      r := reducedAndLooked.0;
      for k := 0 to |looked|
        invariant behaviour == Behaviour.Discover && env == old(env)
        invariant worklist == NoteAll(old(worklist), looked[..k])
      {
        var _ := Lookup(e, looked[k]);
        assert looked[..k + 1][..k] == looked[..k];
      }
      assert looked[..|looked|] == looked;
    }

    method Discover(decls: seq<ValueDef>, entry: Name)
      modifies this
      ensures behaviour == old(behaviour)
      ensures var d := Discovered(reduceExprs, Disc(old(env), old(worklist) + [entry], DefsByName(decls), 0, []));
        env == d.env && worklist == d.worklist
    {
      var oldBehaviour := behaviour;
      behaviour := Behaviour.Discover;
      var valueDefs := DefsByName(decls);
      worklist := worklist + [entry];
      var index := 0;
      ghost var reduced: seq<Name> := [];
      ghost var goal := Discovered(reduceExprs, Disc(old(env), worklist, valueDefs, 0, []));
      while index < |worklist|
        invariant behaviour == Behaviour.Discover
        invariant index <= |worklist|
        invariant Discovered(reduceExprs, Disc(env, worklist, valueDefs, index, reduced)) == goal
        decreases valueDefs.Keys, |worklist| - index
      {
        ghost var before := Disc(env, worklist, valueDefs, index, reduced);
        var name := worklist[index];
        index := index + 1;
        if name in valueDefs {
          var def := valueDefs[name];
          valueDefs := valueDefs - {name};
          var bind := ReduceExprs(env, def.bind);
          env := env.Set(def.name, bind);
          reduced := reduced + [name];
        }
        assert Disc(env, worklist, valueDefs, index, reduced) == DiscoverStep(reduceExprs, before);
      }
      behaviour := oldBehaviour;
    }

    method ReduceFrom() returns (values: seq<ValueDef>)
      modifies this
      ensures var r := Emitted(reduceIrr, promote, Emission(old(env), [], {}), old(worklist));
        values == r.values && env == r.env
      ensures worklist == [] && behaviour == old(behaviour)
    {
      values := [];
      var valueNames: set<Name> := {};
      ghost var goal := Emitted(reduceIrr, promote, Emission(env, [], {}), worklist);
      while worklist != []
        invariant behaviour == old(behaviour)
        invariant Emitted(reduceIrr, promote, Emission(env, values, valueNames), worklist) == goal
        decreases |worklist|
      {
        var name := worklist[|worklist| - 1];
        worklist := worklist[..|worklist| - 1];
        var found := env.Lookup(name);
        if name !in valueNames && found.Some? {
          var bind := reduceIrr(env, found.value);
          env := env.Set(name, bind);
          values := values + [ValueDef(name, bind.span, promote(bind))];
          valueNames := valueNames + {name};
        }
      }
    }
  }

  /** `evaluate`: with an entry, discovery from it and then emission; without, nothing. */
  method Evaluate(
    reduceExprs: (Env, Code) -> (Irreducible, seq<Name>),
    reduceIrr: (Env, Irreducible) -> Irreducible,
    promote: Irreducible -> Code,
    decls: seq<ValueDef>, entry: Option<Name>) returns (values: seq<ValueDef>)
    ensures entry.None? ==> values == []
    ensures entry.Some? ==>
      var d := Discovered(reduceExprs, Disc(Env.New(), [entry.value], DefsByName(decls), 0, []));
      values == Emitted(reduceIrr, promote, Emission(d.env, [], {}), d.worklist).values
  {
    if entry.Some? {
      var lowerer := new Lowerer(reduceExprs, reduceIrr, promote);
      assert lowerer.worklist + [entry.value] == [entry.value];
      lowerer.Discover(decls, entry.value);
      values := lowerer.ReduceFrom();
    } else {
      values := [];
    }
  }

  /** After `evaluate`, the emitted names are distinct; they are exactly the names the
      entry reaches that some definition binds, each with its definition reduced once. */
  lemma EvaluateEmitsReachable(
    reduceExprs: (Env, Code) -> (Irreducible, seq<Name>),
    reduceIrr: (Env, Irreducible) -> Irreducible,
    promote: Irreducible -> Code,
    decls: seq<ValueDef>, entry: Name)
    ensures var d := Discovered(reduceExprs, Disc(Env.New(), [entry], DefsByName(decls), 0, []));
      var r := Emitted(reduceIrr, promote, Emission(d.env, [], {}), d.worklist);
      && Distinct(d.reduced)
      && Distinct(Names(r.values))
      && entry in d.worklist
      && (forall n :: n in Names(r.values) <==> n in d.worklist && (exists v :: v in decls && v.name == n))
  {
    var d0 := Disc(Env.New(), [entry], DefsByName(decls), 0, []);
    DiscoveredProperties(reduceExprs, d0, 0);
    var d := Discovered(reduceExprs, d0);
    assert d.worklist[..1] == [entry];
    EmittedProperties(reduceIrr, promote, Emission(d.env, [], {}), d.worklist);
    ReachedBoundIffDefined(reduceExprs, decls, entry);
  }

  /** After discovery from `entry`, a reached name is bound iff some definition carries it. */
  lemma ReachedBoundIffDefined(
    reduceExprs: (Env, Code) -> (Irreducible, seq<Name>), decls: seq<ValueDef>, entry: Name)
    ensures var d := Discovered(reduceExprs, Disc(Env.New(), [entry], DefsByName(decls), 0, []));
      forall n :: n in d.worklist ==> (d.env.Lookup(n).Some? <==> exists v :: v in decls && v.name == n)
  {
    var d0 := Disc(Env.New(), [entry], DefsByName(decls), 0, []);
    DiscoveredProperties(reduceExprs, d0, 0);
    var d := Discovered(reduceExprs, d0);
    forall n | n in d.worklist
      ensures d.env.Lookup(n).Some? <==> exists v :: v in decls && v.name == n
    {
      var i :| 0 <= i < |d.worklist| && d.worklist[i] == n;
      if exists v :: v in decls && v.name == n {
        assert n in d0.defs.Keys;
        assert n in d.reduced;
        assert n in d.env.Frames()[0];
      } else {
        DiscoveredEnvKeys(reduceExprs, d0);
      }
    }
  }

  /** Discovery binds only names of definitions. */
  lemma {:induction false} DiscoveredEnvKeys(reduceExprs: (Env, Code) -> (Irreducible, seq<Name>), d: Disc)
    requires d.env.parent.None?
    requires forall n :: n in d.defs ==> d.defs[n].name == n
    ensures var r := Discovered(reduceExprs, d);
      r.env.parent.None? && r.env.bindings.Keys <= d.env.bindings.Keys + d.defs.Keys
    decreases d.defs.Keys, |d.worklist| - d.index
  {
    if d.index < |d.worklist| {
      DiscoveredEnvKeys(reduceExprs, DiscoverStep(reduceExprs, d));
    }
  }
}
