/** Collecting the names a module declares (crates/zippy-frontend/src/names/declare.rs).

    Every `let` item declares the name its pattern binds, as a child of the current scope;
    a name declared twice keeps its first span and the second declaration is reported. An
    item's body is declared inside the item's own scope, which `Within` enters and leaves.
    The interned names (`ItemName::new`, `UnnamableName::new`) are datatype values here,
    and the diagnostics the source sends to its database are the `messages` field. */
module Declare {
  import opened Common

  type RawName = string

  datatype ItemName = ItemName(parent: Option<DeclarableName>, name: RawName)

  datatype UnnamableKind = Pattern

  datatype UnnamableName = UnnamableName(kind: UnnamableKind, parent: Option<DeclarableName>, span: Span)

  datatype DeclarableName = Item(item: ItemName) | Unnamable(unnamable: UnnamableName)

  /** A pattern of a `let` item; the annotation of `Annotate` and the reason carried by
      `Invalid` play no part in declaring names and are left out. */
  datatype Pattern = Pattern(node: PatternNode, span: Span)

  datatype PatternNode = Annotate(pattern: Pattern) | Name(name: RawName) | Unit | Invalid

  /** Expressions are not looked into (`declare_expression` is empty): an opaque code. */
  type Expression = nat

  /** `Item::Let`, its annotation left out. */
  datatype Item = Let(pattern: Pattern, body: Option<Expression>)

  datatype Message = DuplicateDefinition(at: Span, name: DeclarableName, previous: Span)

  /** The declared names with their spans, and the messages so far. */
  datatype Table = Table(names: map<DeclarableName, Span>, messages: seq<Message>)

  /** `try_declare_name`. */
  function TryDeclare(t: Table, name: DeclarableName, span: Span): Table {
    if name in t.names then
      t.(messages := t.messages + [DuplicateDefinition(span, name, t.names[name])])
    else
      t.(names := t.names[name := span])
  }

  /** A declared name is never replaced: a repeat keeps the first span and is reported with
      it; a new name is added with its span. Nothing else changes. */
  lemma TryDeclareFirstWins(t: Table, name: DeclarableName, span: Span)
    ensures var r := TryDeclare(t, name, span);
      && MapExtends(r.names, t.names)
      && r.names.Keys == t.names.Keys + {name}
      && r.names[name] == (if name in t.names then t.names[name] else span)
      && (name in t.names ==> r.messages == t.messages + [DuplicateDefinition(span, name, t.names[name])])
      && (name !in t.names ==> r.messages == t.messages)
  {
  }

  /** The name a pattern declares under `scope`, with the span of its `Name` node:
      `declare_pattern` with the closure `declare_item` passes. */
  function PatternName(scope: DeclarableName, p: Pattern): Option<(DeclarableName, Span)> {
    match p.node
    case Annotate(inner) => PatternName(scope, inner)
    case Name(raw) => Some((Item(ItemName(Some(scope), raw)), p.span))
    case Unit => None
    case Invalid => None
  }

  /** Annotations are transparent; a name pattern declares exactly that name as a child of
      the scope; unit and invalid patterns declare nothing. */
  lemma {:induction false} PatternNameShape(scope: DeclarableName, p: Pattern)
    ensures PatternName(scope, p).Some? <==> StripAnnotations(p).node.Name?
    ensures PatternName(scope, p).Some? ==>
      PatternName(scope, p).value == (Item(ItemName(Some(scope), StripAnnotations(p).node.name)), StripAnnotations(p).span)
    decreases p
  {
    if p.node.Annotate? {
      PatternNameShape(scope, p.node.pattern);
    }
  }

  function StripAnnotations(p: Pattern): (r: Pattern)
    ensures !r.node.Annotate?
  {
    if p.node.Annotate? then StripAnnotations(p.node.pattern) else p
  }

  /** The scope an item's body is declared in: its declared name, or else the unnamable
      name of its pattern. */
  function ItemScope(scope: DeclarableName, item: Item): DeclarableName {
    match PatternName(scope, item.pattern)
    case Some((name, _)) => name
    case None => Unnamable(UnnamableName(UnnamableKind.Pattern, Some(scope), item.pattern.span))
  }

  /** Whether an item's scope is named or unnamable, its parent is the current scope. */
  lemma ItemScopeParent(scope: DeclarableName, item: Item)
    ensures ItemScope(scope, item).Item? ==> ItemScope(scope, item).item.parent == Some(scope)
    ensures ItemScope(scope, item).Unnamable? ==>
      ItemScope(scope, item).unnamable == UnnamableName(UnnamableKind.Pattern, Some(scope), item.pattern.span)
    ensures PatternName(scope, item.pattern).None? <==> ItemScope(scope, item).Unnamable?
  {
    PatternNameShape(scope, item.pattern);
  }

  /** The declarations the items make, in order. */
  function Declarations(scope: DeclarableName, items: seq<Item>): seq<(DeclarableName, Span)>
    decreases |items|
  {
    if items == [] then []
    else
      var init := Declarations(scope, items[..|items| - 1]);
      match PatternName(scope, items[|items| - 1].pattern)
      case Some(d) => init + [d]
      case None => init
  }

  /** `try_declare_name` for each declaration in turn. */
  function DeclareAll(t: Table, ds: seq<(DeclarableName, Span)>): Table
    decreases |ds|
  {
    if ds == [] then t
    else
      var last := ds[|ds| - 1];
      TryDeclare(DeclareAll(t, ds[..|ds| - 1]), last.0, last.1)
  }

  /** The span of the first declaration of `n` in `ds`, if any. */
  function FirstSpan(ds: seq<(DeclarableName, Span)>, n: DeclarableName): Option<Span> {
    if ds == [] then None
    else if ds[0].0 == n then Some(ds[0].1)
    else FirstSpan(ds[1..], n)
  }

  lemma {:induction false} FirstSpanSnoc(ds: seq<(DeclarableName, Span)>, d: (DeclarableName, Span), n: DeclarableName)
    ensures FirstSpan(ds + [d], n) ==
      if FirstSpan(ds, n).Some? then FirstSpan(ds, n)
      else if d.0 == n then Some(d.1)
      else None
    decreases |ds|
  {
    if ds != [] {
      assert (ds + [d])[1..] == ds[1..] + [d];
      FirstSpanSnoc(ds[1..], d, n);
    }
  }

  /** Over any run of declarations the first one of each name wins: the table holds the
      names declared before or during the run, an earlier one with its earlier span, and
      every message is a duplicate citing the span that was kept. */
  lemma {:induction false} DeclareAllFirstWins(t: Table, ds: seq<(DeclarableName, Span)>)
    requires forall k :: 0 <= k < |t.messages| ==> t.messages[k].name in t.names && t.messages[k].previous == t.names[t.messages[k].name]
    ensures var r := DeclareAll(t, ds);
      && MapExtends(r.names, t.names)
      && (forall n :: n in r.names <==> n in t.names || FirstSpan(ds, n).Some?)
      && (forall n :: n in r.names && n !in t.names ==> r.names[n] == FirstSpan(ds, n).value)
      && Extends(r.messages, t.messages)
      && (forall k :: 0 <= k < |r.messages| ==> r.messages[k].name in r.names && r.messages[k].previous == r.names[r.messages[k].name])
    decreases |ds|
  {
    if ds != [] {
      var init := ds[..|ds| - 1];
      var last := ds[|ds| - 1];
      assert ds == init + [last];
      DeclareAllFirstWins(t, init);
      var m := DeclareAll(t, init);
      TryDeclareFirstWins(m, last.0, last.1);
      forall n
        ensures FirstSpan(ds, n) == if FirstSpan(init, n).Some? then FirstSpan(init, n) else if last.0 == n then Some(last.1) else None
      {
        FirstSpanSnoc(init, last, n);
      }
      var r := DeclareAll(t, ds);
      assert r.messages[..|m.messages|] == m.messages;
      ExtendsTrans(r.messages, m.messages, t.messages);
    }
  }

  // ---------------------------------------------------------------------------------------
  // The declarer object

  class Declarer {
    var stack: seq<DeclarableName>
    var scope: DeclarableName
    var names: map<DeclarableName, Span>
    var messages: seq<Message>
    /** The scopes item bodies have been declared in, in order. */
    ghost var entered: seq<DeclarableName>

    function Declared(): Table
      reads this
    {
      Table(names, messages)
    }

    constructor (root: ItemName)
      ensures stack == [] && scope == Item(root) && names == map[] && messages == []
    {
      stack := [];
      scope := Item(root);
      names := map[];
      messages := [];
      entered := [];
    }

    method DeclareSource(items: seq<Item>)
      modifies this
      ensures Declared() == DeclareAll(old(Declared()), Declarations(old(scope), items))
      ensures scope == old(scope) && stack == old(stack)
    {
      for i := 0 to |items|
        invariant scope == old(scope) && stack == old(stack)
        invariant Declared() == DeclareAll(old(Declared()), Declarations(scope, items[..i]))
      {
        DeclareItem(items[i]);
        assert items[..i + 1][..i] == items[..i];
        ghost var ds := Declarations(scope, items[..i]);
        match PatternName(scope, items[i].pattern) {
          case Some(d) => assert (ds + [d])[..|ds|] == ds;
          case None =>
        }
      }
      assert items[..|items|] == items;
    }

    method DeclareItem(item: Item)
      modifies this
      ensures Declared() == match PatternName(old(scope), item.pattern)
        case Some((name, span)) => TryDeclare(old(Declared()), name, span)
        case None => old(Declared())
      ensures scope == old(scope) && stack == old(stack)
      ensures entered == old(entered) + (if item.body.Some? then [ItemScope(old(scope), item)] else [])
    {
      var declared := DeclarePattern(item.pattern);
      var name := match declared
        case Some(name) => name
        case None => Unnamable(UnnamableName(UnnamableKind.Pattern, Some(scope), item.pattern.span));
      if item.body.Some? {
        Within(name, item.body.value);
      }
    }

    /** `declare_pattern`, with the closure `declare_item` gives it inlined: a name becomes
        an item name whose parent is the current scope. */
    method DeclarePattern(p: Pattern) returns (r: Option<DeclarableName>)
      modifies this
      ensures r.Some? <==> PatternName(scope, p).Some?
      ensures r.Some? ==> r.value == PatternName(scope, p).value.0
      ensures Declared() == match PatternName(scope, p)
        case Some((name, span)) => TryDeclare(old(Declared()), name, span)
        case None => old(Declared())
      ensures scope == old(scope) && stack == old(stack) && entered == old(entered)
      decreases p
    {
      match p.node {
        case Annotate(inner) =>
          r := DeclarePattern(inner);
        case Name(raw) =>
          var name := Item(ItemName(Some(scope), raw));
          TryDeclareName(name, p.span);
          r := Some(name);
        case Unit => r := None;
        case Invalid => r := None;
      }
    }

    /** `declare_expression`: nothing is declared inside expressions. */
    method DeclareExpression(e: Expression)
    {
    }

    method TryDeclareName(name: DeclarableName, span: Span)
      modifies this
      ensures Declared() == TryDeclare(old(Declared()), name, span)
      ensures scope == old(scope) && stack == old(stack) && entered == old(entered)
    {
      if name in names {
        messages := messages + [DuplicateDefinition(span, name, names[name])];
        return;
      }
      names := names[name := span];
    }

    /** `within` for the only callback the source passes it, declaring `body`: the body is
        declared with `name` as the scope, and the previous scope and stack come back. */
    method Within(name: DeclarableName, body: Expression)
      modifies this
      ensures scope == old(scope) && stack == old(stack) && Declared() == old(Declared())
      ensures entered == old(entered) + [name]
    {
      stack := stack + [scope];
      scope := name;
      entered := entered + [scope];
      DeclareExpression(body);
      scope := stack[|stack| - 1];
      stack := stack[..|stack| - 1];
    }
  }

  /** `declared_names`: every source's items in turn, from the module's own scope. */
  method DeclaredNames(root: ItemName, sources: seq<seq<Item>>) returns (names: map<DeclarableName, Span>, messages: seq<Message>)
    ensures Table(names, messages) == DeclareAll(Table(map[], []), Flatten(Item(root), sources))
  {
    var declarer := new Declarer(root);
    for i := 0 to |sources|
      invariant declarer.scope == Item(root)
      invariant declarer.Declared() == DeclareAll(Table(map[], []), Flatten(Item(root), sources[..i]))
    {
      declarer.DeclareSource(sources[i]);
      assert sources[..i + 1][..i] == sources[..i];
      DeclareAllAppend(Table(map[], []), Flatten(Item(root), sources[..i]), Declarations(Item(root), sources[i]));
    }
    assert sources[..|sources|] == sources;
    names := declarer.names;
    messages := declarer.messages;
  }

  /** The declarations of several sources, one after the other. */
  function Flatten(scope: DeclarableName, sources: seq<seq<Item>>): seq<(DeclarableName, Span)>
    decreases |sources|
  {
    if sources == [] then []
    else Flatten(scope, sources[..|sources| - 1]) + Declarations(scope, sources[|sources| - 1])
  }

  lemma {:induction false} DeclareAllAppend(t: Table, ds: seq<(DeclarableName, Span)>, es: seq<(DeclarableName, Span)>)
    ensures DeclareAll(t, ds + es) == DeclareAll(DeclareAll(t, ds), es)
    decreases |es|
  {
    if es != [] {
      assert (ds + es)[..|ds + es| - 1] == ds + es[..|es| - 1];
      DeclareAllAppend(t, ds, es[..|es| - 1]);
    } else {
      assert ds + es == ds;
    }
  }

  /** Across a whole module, the first declaration of a name fixes its span and every later
      one is reported against it. */
  lemma DeclaredNamesFirstWins(root: ItemName, sources: seq<seq<Item>>)
    ensures var ds := Flatten(Item(root), sources);
      var r := DeclareAll(Table(map[], []), ds);
      && (forall n :: n in r.names <==> FirstSpan(ds, n).Some?)
      && (forall n :: n in r.names ==> r.names[n] == FirstSpan(ds, n).value)
      && (forall k :: 0 <= k < |r.messages| ==> r.messages[k].name in r.names && r.messages[k].previous == r.names[r.messages[k].name])
  {
    DeclareAllFirstWins(Table(map[], []), Flatten(Item(root), sources));
  }
}
