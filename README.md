# corollary front end and middle end, modelled in Dafny

This project models the type-checking core of the corollary/zippy compiler and the small
transformations around it. Each part is proved against a specification written as pure
functions.

- **Unifier** (`unify.dfy`, module `Unify`). It walks two types under an instantiation
  context. Range pairs are checked for containment. Names bound in the context are
  substituted. Function and product types are unified component by component. A placeholder
  is resolved through the write-once substitution, committed after an occurs check, or (when
  rigid) deferred to a worklist.
- **Constraint solver** (`solver.dfy`, module `ConstraintSolver`). This is the batch fixpoint
  over the constraint queue: a pass that does not shrink the queue reports every leftover
  constraint as ambiguous. A numeric-defaulting pass follows. The module also holds the
  per-span fresh-placeholder counter.
- **Unconcretifier** (`syntax.dfy`, `unconcretify.dfy`). This translates the concrete tree to
  the HIR. Range and arrow expressions become applications of `upto` and `->`. Patterns and
  types are validated, and lambdas receive sequential binder ids.
- **Evaluation environments and worklists** (`eval.dfy`, module `Eval`). This covers the
  parent-chained environment and the discovery worklist, which reduces each reachable
  definition once. It also covers the emission loop, which emits each bound name once.
- **Name declaration** (`declare.dfy`, module `Declare`). The first declaration of a name
  wins and later ones are reported. `Within` enters an item's scope and restores it
  afterwards.
- **Type lowering** (`lower.dfy`, modules `Typed`, `Mir`, `Lower`). This translates typed
  definitions to the MIR and appends every type to a table.
- **Token cursor** (`parser.dfy`, module `Cursor`). It keeps the parser's current and previous
  token.

Where the source changes state in place, the model has a class with the same fields. Its
methods are proved to compute a specification function of the old state (for example
`Stores() == UnifyResult(ops, old(Stores()), …)`), and the lemmas state the properties of
those functions.

Collaborators in files that are not part of this model are function values, either passed
in or held as `const` fields:
- `merge_insts` and `make_mutability` (`Unify.Ops`);
- the solver's per-kind handlers (`ConstraintSolver.Handlers`);
- `reduce_exprs`, `reduce_irr` and `promote`;
- the `i as i64` conversion;
- token matchers.

The `+` on spans is the constructor `Common.Span.Joined`.

### Behaviour of the source worth knowing

- **Unification is not reflexive on `Number`.** `(Number, Number)` has no arm of its own in
  `unify.rs`, so it reaches the incompatible-types arm and produces one diagnostic.
  `Unify.NumberAsymmetry` proves this, and `Unify.ReflexiveOnClosed` proves reflexivity for
  closed types built without `Number`. So `Fun(Invalid, Number)` against
  `Fun(Range(0, 5), Number)` also produces one incompatible diagnostic, for the `Number`
  components.
- **`occurs` does not follow `subst`.** A cycle through the store is therefore committed
  silently, which `Unify.CycleThroughStore` exhibits. Because such cycles and
  self-referential contexts exist, the model bounds the unifier's recursion by fuel.

## Model

| member | source | states |
|---|---|---|
| Unify.Lookup | crates/frontend/src/tyck/solve/unify.rs:181-185 | `get` finds a binding iff the placeholder is in `subst`, and returns the stored context unchanged |
| Unify.Commit | crates/frontend/src/tyck/solve/unify.rs:187-189 | `set` demands the placeholder is absent; it adds exactly that key and keeps every other entry |
| Unify.OccursIffVars | crates/frontend/src/tyck/solve/unify.rs:167-179 | `occurs(v, t)` holds iff `v` is among the placeholders of `t`, collected through `Fun`, `Product` and `Instantiated` (base and binding values); `Invalid`, `Number`, `Range` and `Name` contain none |
| Unify.UnstoredOnlyExtends | crates/frontend/src/tyck/solve/unify.rs:86-104 | handling an unbound placeholder only adds to `subst`, `worklist` and `messages` |
| Unify.UnifyOnlyExtends | crates/frontend/src/tyck/solve/unify.rs:32-165 | a whole `unify_within` call never removes or overwrites a `subst` entry; `worklist` and `messages` are only appended to |
| Unify.UnifyKeepsConsistent | crates/frontend/src/tyck/solve/unify.rs:80-131 | no committed placeholder is bound to a type that directly mentions it, and every recorded cause has a binding; `unify_within` preserves both |
| Unify.RangeContainment | crates/frontend/src/tyck/solve/unify.rs:40-46 | two ranges leave the stores unchanged iff `lo1 <= lo2 && hi1 >= hi2`; otherwise exactly one narrow-range diagnostic carrying both pairs is added; `subst` never changes |
| Unify.NumberAsymmetry | crates/frontend/src/tyck/solve/unify.rs:156-163 | `(Number, Range)` is silent (line 48); `(Range, Number)` and `(Number, Number)` reach the fallback arm and add exactly one incompatible diagnostic |
| Unify.NameResolution | crates/frontend/src/tyck/solve/unify.rs:50-66 | a name bound in the context is replaced by its binding before comparison, on the expected side (50-53) and, when the expected side is not itself a bound name, on the actual side (55-58); two unbound names are silent iff equal, otherwise one incompatible diagnostic with no payload |
| Unify.ComponentsInOrder | crates/frontend/src/tyck/solve/unify.rs:68-76 | for `Fun` and `Product` pairs both component pairs are unified, left then right, whatever the first one reports |
| Unify.InvalidAndSelf | crates/frontend/src/tyck/solve/unify.rs:78-154 | `(Var v, Var v)` is a no-op; `Invalid` against a type that is not a placeholder, an instantiation or a bound name is silent on either side; `(Invalid, unbound mutable w)` commits `w := Invalid` |
| Unify.StoredIsResolved | crates/frontend/src/tyck/solve/unify.rs:80-111 | a stored placeholder, on the expected side (80-84) or the actual side (107-111), is never overwritten: unification continues against its re-tagged stored type under the merged contexts |
| Unify.UnstoredMutable | crates/frontend/src/tyck/solve/unify.rs:86-122 | unbound mutable `v` against `u`: if `v` does not occur in `u`, commit `v := u` under the context, record the cause, no diagnostic; otherwise one recursive-inference diagnostic and `v := Invalid`; on the expected side, and on the actual side against any type that is not a placeholder |
| Unify.UnstoredRigid | crates/frontend/src/tyck/solve/unify.rs:96-131 | an unbound rigid placeholder, on either side (the actual side against any type that is not a placeholder), changes neither `subst`, `causes` nor `messages` and appends exactly one worklist entry with the same span and orientation, wrapped in `Instantiated` iff the context is non-empty |
| Unify.InstantiatedIsTransparent | crates/frontend/src/tyck/solve/unify.rs:134-152 | an instantiated type, on the expected side (134-142) or the actual side (144-152), is unified as its base under the context chained with its bindings, the bindings winning on a collision |
| Unify.ReflexiveOnClosed | crates/frontend/src/tyck/solve/unify.rs:39-76 | a type built from ranges, names, `Invalid`, functions and products unifies with itself silently, leaving every store unchanged |
| Unify.CycleThroughStore | crates/frontend/src/tyck/solve/unify.rs:167-179 | since `occurs` does not follow `subst`, committing `v := w` and then `w := Fun(v, Invalid)` raises no diagnostic and stores a cycle |
| Unify.Unifier.constructor | crates/frontend/src/tyck/solve/unify.rs:18-26 | a new unifier has all four stores empty |
| Unify.Unifier.Unify | crates/frontend/src/tyck/solve/unify.rs:28-30 | `unify` is `unify_within` under the empty context |
| Unify.Unifier.UnifyWithin | crates/frontend/src/tyck/solve/unify.rs:32-165 | the fields after the call are exactly `UnifyResult` of the fields before |
| Unify.Unifier.BindUnstored | crates/frontend/src/tyck/solve/unify.rs:86-131 | the fields after handling an unbound placeholder are exactly `Unstored` of the fields before |
| Unify.Unifier.Get | crates/frontend/src/tyck/solve/unify.rs:181-185 | reads the stored binding as `Lookup` does |
| Unify.Unifier.Set | crates/frontend/src/tyck/solve/unify.rs:187-189 | requires the key to be absent, then inserts it with its context; nothing else changes |
| ConstraintSolver.At | crates/zippy-frontend/src/check/solve/mod.rs:139-149 | every constraint kind is reported at its own `at` field |
| ConstraintSolver.SolveBatchOnlyAppends | crates/zippy-frontend/src/check/solve/mod.rs:65-70 | processing a batch only appends to `messages`, the queue and `type_numeric`, and leaves the counters alone |
| ConstraintSolver.ReportAllAmbiguous | crates/zippy-frontend/src/check/solve/mod.rs:75-78 | reporting leftovers adds exactly one ambiguous message per constraint, in order, at its `at`, and changes nothing else |
| ConstraintSolver.MainLoopEmptiesQueue | crates/zippy-frontend/src/check/solve/mod.rs:63-81 | the main loop terminates with an empty queue and only appends messages |
| ConstraintSolver.StalledPassStops | crates/zippy-frontend/src/check/solve/mod.rs:72-80 | a pass that does not shrink the queue ends solving: everything it queued is reported ambiguous and dropped |
| ConstraintSolver.TypeNumericPassQueuesNothing | crates/zippy-frontend/src/check/solve/mod.rs:115-127 | the defaulting pass queues no constraint and no second-chance obligation, given that `equate` queues nothing |
| ConstraintSolver.SolveEmptiesQueues | crates/zippy-frontend/src/check/solve/mod.rs:63-84 | when `solve` returns, `constraints` and `type_numeric` are both empty, given that `equate` queues nothing |
| ConstraintSolver.NumericRouting | crates/zippy-frontend/src/check/solve/mod.rs:102-111 | `TypeNumeric` moves to `type_numeric`; an unsolved `Numeric` is re-queued with the returned span and type; its errors are appended to `messages` |
| ConstraintSolver.DefaultsToNumber | crates/zippy-frontend/src/check/solve/mod.rs:115-122 | an obligation still unsolved in the defaulting pass is equated with `Number` instead of being queued again |
| ConstraintSolver.MintedAreDistinct | crates/zippy-frontend/src/check/solve/mod.rs:130-136 | over any run of `fresh` calls, each placeholder carries its span and a count below that span's final counter, no two are equal, and counters never decrease |
| ConstraintSolver.Solver.constructor | crates/zippy-frontend/src/check/solve/mod.rs:45-61 | a new solver starts with the given counters and queue and nothing else |
| ConstraintSolver.Solver.Solve | crates/zippy-frontend/src/check/solve/mod.rs:63-84 | the fields after `solve` are exactly `SolveResult` of the fields before, and both queues are then empty if `equate` queues nothing |
| ConstraintSolver.Solver.SolvePass | crates/zippy-frontend/src/check/solve/mod.rs:65-70 | one pass drains the queue and dispatches every drained constraint in order: the fields afterwards are exactly `SolveBatch` over the drained queue |
| ConstraintSolver.Solver.ReportLeftover | crates/zippy-frontend/src/check/solve/mod.rs:75-78 | a stalled pass drains the queue and reports each constraint: the fields afterwards are exactly `ReportAll` of the drained queue |
| ConstraintSolver.Solver.SolveConstraint | crates/zippy-frontend/src/check/solve/mod.rs:86-113 | the fields after one dispatch are exactly `ConstraintStep` of the fields before |
| ConstraintSolver.Solver.Absorb | crates/zippy-frontend/src/check/solve/mod.rs:88-110 | a handler's effect appends its queued constraints and raised messages and installs its substitution |
| ConstraintSolver.Solver.SolveTypeNumerics | crates/zippy-frontend/src/check/solve/mod.rs:115-127 | the fields after the defaulting pass are exactly `DefaultingPass` of the fields before |
| ConstraintSolver.Solver.Fresh | crates/zippy-frontend/src/check/solve/mod.rs:130-136 | returns `Var{span, count}` with the span's previous counter (0 if absent) and increments only that counter |
| ConstraintSolver.Solver.ReportUnsolvable | crates/zippy-frontend/src/check/solve/mod.rs:139-152 | appends exactly one ambiguous message at the constraint's `at` |
| ConstraintSolver.Solve | crates/zippy-frontend/src/check/solve/mod.rs:22-30 | the solution's messages and substitution are those of `SolveResult` from a fresh solver |
| Unconcretify.ExprEffects | src/parse/unconcretify.rs:27-87 | translating an expression draws one binder id per lambda reached, in post-order; the ids are strictly increasing, all distinct and within the drawn range; messages are only appended |
| Unconcretify.PatEffects | src/parse/unconcretify.rs:89-104 | a pattern draws no binder id and adds at most one not-a-pattern message |
| Unconcretify.TypeEffects | src/parse/unconcretify.rs:106-152 | a type draws one id per lambda in its range bounds and only appends messages |
| Unconcretify.SpansKept | src/parse/unconcretify.rs:83-151 | in expression, pattern and type position `Group` is transparent (inner span included); otherwise the output keeps the input's span |
| Unconcretify.OperatorsDesugared | src/parse/unconcretify.rs:32-64 | `lo upto hi` and `t -> u` become `App(App(Name op, lhs'), rhs')`; the inner application spans `lhs'.span + op`, the outer keeps the whole span |
| Unconcretify.NotAPatternReported | src/parse/unconcretify.rs:89-104 | anything but a name, group or invalid node in pattern position is an invalid pattern with exactly one message at its span, and is not looked into |
| Unconcretify.RangeTypeChecked | src/parse/unconcretify.rs:106-132 | a range type is `Range(lo, hi)` iff both bounds translate to integers; otherwise it is `Invalid` with one message at the bad bound, or at `lo.span + hi.span` when both are bad |
| Unconcretify.NotATypeReported | src/parse/unconcretify.rs:134-145 | anything but a range, an arrow or a group in type position is `Invalid` with one not-a-type message |
| Unconcretify.Unconcretifier.constructor | src/parse/unconcretify.rs:16-21 | starts with no messages and binder id 0 |
| Unconcretify.Unconcretifier.Unconcretify | src/parse/unconcretify.rs:23-25 | the result and new state are exactly `ExprOf` of the old state |
| Unconcretify.Unconcretifier.UnconcExpr | src/parse/unconcretify.rs:27-87 | the result and new state are exactly `ExprOf` of the old state |
| Unconcretify.Unconcretifier.UnconcPat | src/parse/unconcretify.rs:89-104 | the result and new state are exactly `PatOf` of the old state |
| Unconcretify.Unconcretifier.UnconcType | src/parse/unconcretify.rs:106-152 | the result and new state are exactly `TypeOf` of the old state |
| Unconcretify.Unconcretifier.FreshBindId | src/parse/unconcretify.rs:154-158 | returns the current id and increments it by one |
| Eval.Env.Lookup | src/elab/eval/mod.rs:64-68 | `lookup` is `None` iff no map in the parent chain binds the name |
| Eval.LookupFirstFrame | src/elab/eval/mod.rs:64-68 | `lookup` returns the binding of the first map along the chain, own map first |
| Eval.Env.New | src/elab/eval/mod.rs:50-55 | a new environment binds nothing |
| Eval.Env.Child | src/elab/eval/mod.rs:57-62 | a child has an empty own map and resolves every name as the original does |
| Eval.Env.Set | src/elab/eval/mod.rs:70-72 | after `set(n, v)`, `n` resolves to `v`, every other name as before, and the parent is unchanged |
| Eval.Env.With | src/elab/eval/mod.rs:75-80 | `with(n, v)` resolves `n` to `v` and every other name as `self`, with `self` as its parent |
| Eval.NoteAllProperties | src/elab/eval/mod.rs:184-194 | discovery lookups only append to the worklist, never add a name already present, and leave every looked-up name in it |
| Eval.DefsByName | src/elab/eval/mod.rs:130-134 | the definitions map has a key for exactly the names some definition carries, each mapped to a definition of that name |
| Eval.DefsByNameKeepsLast | src/elab/eval/mod.rs:130-134 | the map's entry for a name is one of the definitions, the last one carrying that name, as collecting pairs into a map keeps the last |
| Eval.DiscoveredProperties | src/elab/eval/mod.rs:126-150 | discovery reduces each definition at most once and only definitions; every worklist entry visited is no longer pending; the worklist only grows and stays free of repeats |
| Eval.EmittedProperties | src/elab/eval/mod.rs:152-182 | emission emits exactly the popped names bound in the environment, each once, and rebinds only names already bound |
| Eval.ReachedBoundIffDefined | src/elab/eval/mod.rs:137-147 | after discovery from the entry, every name on the worklist is bound in the environment iff some definition carries that name |
| Eval.EvaluateEmitsReachable | src/elab/eval/mod.rs:26-33 | after discovery from the entry and emission, the emitted names are distinct and are exactly the reached names that some definition binds |
| Eval.Lowerer.constructor | src/elab/eval/mod.rs:105-124 | a new lowerer has an empty environment, full-evaluation behaviour and an empty worklist |
| Eval.Lowerer.Lookup | src/elab/eval/mod.rs:184-194 | in full evaluation the environment's answer and no worklist change; in discovery `None`, with the name appended only if absent |
| Eval.Lowerer.ReduceExprs | src/elab/eval/mod.rs:143-146 | the reducer's result, with each name it looked up noted on the worklist in order |
| Eval.Lowerer.Discover | src/elab/eval/mod.rs:126-150 | environment and worklist afterwards are exactly `Discovered`; the previous behaviour is restored |
| Eval.Lowerer.ReduceFrom | src/elab/eval/mod.rs:152-182 | the emitted definitions and environment are exactly `Emitted`, and the worklist is empty |
| Eval.Evaluate | src/elab/eval/mod.rs:18-41 | with an entry, discovery then emission; without one, no definitions |
| Declare.TryDeclareFirstWins | crates/zippy-frontend/src/names/declare.rs:109-118 | an already declared name keeps its span, and one duplicate message citing that span is added; a new name is added with its span; no entry is removed |
| Declare.PatternNameShape | crates/zippy-frontend/src/names/declare.rs:84-101 | annotations are transparent; a name pattern declares exactly one item name whose parent is the current scope; unit and invalid patterns declare nothing |
| Declare.ItemScopeParent | crates/zippy-frontend/src/names/declare.rs:54-73 | an item's body scope is its declared name, or else the unnamable pattern name with the current scope as parent and the pattern's span; either way its parent is the current scope |
| Declare.DeclareAllFirstWins | crates/zippy-frontend/src/names/declare.rs:109-118 | over any run of declarations `names` only grows; each name keeps the span of its first declaration; every message is a duplicate citing the span kept |
| Declare.DeclaredNamesFirstWins | crates/zippy-frontend/src/names/declare.rs:11-22 | across a module, a name is declared iff some item declares it, with the span of the first, and every duplicate message cites that span |
| Declare.Declarer.constructor | crates/zippy-frontend/src/names/declare.rs:31-39 | starts in the module's scope with an empty stack and no names |
| Declare.Declarer.DeclareSource | crates/zippy-frontend/src/names/declare.rs:41-45 | the table afterwards is `DeclareAll` over the items' declarations; scope and stack are unchanged |
| Declare.Declarer.DeclareItem | crates/zippy-frontend/src/names/declare.rs:47-82 | an item declares its pattern's name, if any, and nothing else; its body, if any, is declared within `ItemScope` (its declared name, or else its unnamable pattern name); scope and stack are restored |
| Declare.Declarer.DeclarePattern | crates/zippy-frontend/src/names/declare.rs:84-101 | returns the pattern's declared name, declaring it through `try_declare_name` |
| Declare.Declarer.TryDeclareName | crates/zippy-frontend/src/names/declare.rs:109-118 | the table afterwards is exactly `TryDeclare` of the table before |
| Declare.Declarer.Within | crates/zippy-frontend/src/names/declare.rs:121-136 | the body is declared with `name` as the scope; after the call, the scope and the scope stack equal their values before it |
| Declare.DeclaredNames | crates/zippy-frontend/src/names/declare.rs:11-22 | the names and messages are those of declaring every source's items in turn from the module's scope |
| Lower.TypeLowered | src/elab/lower.rs:86-98 | `lower_type` only appends to the table and returns the index of the last entry it added |
| Lower.PatLowered | src/elab/lower.rs:73-84 | `lower_pat` only appends to the table and refers to an entry of it |
| Lower.ExprLowered | src/elab/lower.rs:34-71 | `lower_expr` only appends to the table and refers to an entry of it |
| Lower.DeclsLowered | src/elab/lower.rs:17-32 | `lower_decls` keeps the number of definitions and only appends to the table |
| Lower.TypeRoundTrip | src/elab/lower.rs:86-98 | the entry `lower_type` returns decodes back to the type, and the table stays well formed (an arrow refers to earlier entries) |
| Lower.PatWellFormed | src/elab/lower.rs:73-84 | a lowered pattern keeps its span and its type entry decodes back to its type |
| Lower.ExprLoweredShape | src/elab/lower.rs:34-71 | lowering keeps every node's kind, payload and span; an `Invalid`-typed expression becomes an invalid node over an `Invalid` entry; any other's entry decodes back to its type |
| Lower.InvalidTypedExpr | src/elab/lower.rs:35-40 | an `Invalid`-typed expression is replaced whole by an invalid node with one new `Invalid` entry, its parts not lowered |
| Lower.DeclsKeepOrder | src/elab/lower.rs:17-32 | definitions keep their order and spans, each body keeps its shape, and the table stays well formed |
| Lower.Types.constructor | src/elab/lower.rs:12 | a new table is empty |
| Lower.Types.Add | src/elab/lower.rs:92-95 | `add` appends the entry and returns its index |
| Lower.LowerType | src/elab/lower.rs:86-98 | returns and leaves the table exactly as `TypeLowered` |
| Lower.LowerPat | src/elab/lower.rs:73-84 | returns and leaves the table exactly as `PatLowered` |
| Lower.LowerExpr | src/elab/lower.rs:34-71 | returns and leaves the table exactly as `ExprLowered` |
| Lower.LowerDecls | src/elab/lower.rs:17-32 | returns and leaves the table exactly as `DeclsLowered` |
| Lower.Lower | src/elab/lower.rs:11-15 | lowering starts from an empty table |
| Cursor.AdvanceShifts | src/parse/mod.rs:67-72 | advancing moves the current token into `prev`; tokens come out in stream order; once done, advancing again leaves both empty |
| Cursor.Parser.New | src/parse/mod.rs:45-61 | `new` performs exactly one `advance`: `curr` is the first token if any and `prev` is `None` |
| Cursor.Parser.IsDone | src/parse/mod.rs:63-65 | done iff there is no current token, iff the stream was exhausted before the last advance |
| Cursor.Parser.Advance | src/parse/mod.rs:67-72 | `prev` becomes the old `curr`, and `curr` the next token or `None` |
| Cursor.Parser.Peek | src/parse/mod.rs:74-79 | true iff there is a current token and the matcher accepts it; false when done |
| Cursor.Parser.Consume | src/parse/mod.rs:81-88 | advances exactly when `peek` holds and returns that value; otherwise nothing changes |

## Left out

- Unify.UnifyResult: the recursion is bounded by a `fuel` argument; when fuel runs out the call stops with the stores as they are. The source has no bound, because `occurs` does not follow `subst` and a context may map a name to itself.
- `merge_insts`, `make_mutability` and `pretty_type` come from `common::thir`, which is not part of this model. The first two are arbitrary function values. Incompatible-type diagnostics carry the two types unrendered.
- Rendered message text, and the `names` table that only serves rendering.
- ConstraintSolver.SolveEmptiesQueues: proved under the assumption that `equate` queues no constraint, because the handler modules are not part of this model.
- The solver's handlers are arbitrary functions of the substitution. In the model they do not call `fresh`, so `counts` changes only through `Solver.Fresh`.
- The solver's `coercions` field, and the database handle used for messages.
- The `i as i64` conversion of literals is the function value `toI64`, because the concrete tree's integer type is not part of this model.
- `parse`, `Parser::parse_expr`, the matchers' implementations and the lexer's tokens are not part of this model. Tokens are opaque codes. The parser's `msgs` field is left out because none of the modelled operations touches it, and `default_span` is only carried.
- Cursor.Parser.Advance: an exhausted stream is taken to stay exhausted. The model does not cover a non-fused iterator that yields again after `None`.
- The evaluator's irreducible values and MIR bodies are opaque codes. The driver calls `report_eval`, `done_eval` and `report` are left out, as are the `names`, `types`, `context` and `messages` references the lowerer only carries.
- Eval.Lowerer.ReduceExprs: the reducer is abstract and reports the names it looks up. The model does not capture lookups interleaved with other reducer work.
- Salsa tracking, interning and `common_db` are left out: interned names are plain datatype values.
- Declare.Declarer.Within: models only the callback the source passes to `within` (declaring an item's body). It cannot state what an arbitrary callback observes.
- `Types::add` is not part of this model: it is taken to append and return the new index, with no sharing of equal entries.
- Lower.ExprOk and Lower.Lowerable: the source panics on an annotation node and on lowering `Invalid` or `Number` as a type. The model makes these preconditions rather than modelling the panic.
- The x86 entry code, the command-line driver, message formatting and the HIR, LIR and resolver declaration files are outside the modelled core.
