/** The type-checked tree the lowering reads (the `tyck` types of src/elab/lower.rs). Their
    declaring file is not part of this model; the variants are the ones lowering matches. */
module Typed {
  import opened Common

  type Name = nat

  datatype Type = Fun(t: Type, u: Type) | Range(lo: int, hi: int) | Invalid | Number

  datatype Pat = Pat(node: PatNode, span: Span, data: Type)

  datatype PatNode = Name(name: Name) | Invalid

  datatype Expr = Expr(node: ExprNode, span: Span, data: Type)

  datatype ExprNode =
    | Int(value: int)
    | Name(name: Name)
    | Lam(param: Pat, body: Expr)
    | App(fun: Expr, arg: Expr)
    | Invalid
    | Anno(expr: Expr, anno: Type)

  datatype ValueDef = ValueDef(span: Span, pat: Pat, bind: Expr)
}

/** The MIR lowering produces: types live in a table and are referred to by index. */
module Mir {
  import opened Common

  type Name = nat

  type TypeId = nat

  datatype Type = Invalid | Fun(t: TypeId, u: TypeId) | Range(lo: int, hi: int)

  datatype Pat = Pat(node: PatNode, span: Span, typ: TypeId)

  datatype PatNode = Name(name: Name) | Invalid

  datatype Expr = Expr(node: ExprNode, span: Span, typ: TypeId)

  datatype ExprNode =
    | Int(value: int)
    | Name(name: Name)
    | Lam(param: Pat, body: Expr)
    | App(fun: Expr, arg: Expr)
    | Invalid

  datatype ValueDef = ValueDef(span: Span, pat: Pat, bind: Expr)
}

/** Lowering type-checked definitions to MIR (src/elab/lower.rs).

    Each expression, pattern and type is translated structurally while every type met is
    appended to the `Types` table. `TypeLowered`, `PatLowered`, `ExprLowered` and
    `DeclsLowered` are the specification: the result and the table afterwards. The methods
    of the same names without the suffix work on a `Types` object and are proved to compute
    them. `Types::add` is not part of this model: here it appends and returns the new index. */
module Lower {
  import opened Common
  import Typed
  import Mir

  /** The types `lower_type` accepts: neither `Invalid` nor `Number` anywhere. */
  predicate Lowerable(ty: Typed.Type) {
    match ty
    case Fun(t, u) => Lowerable(t) && Lowerable(u)
    case Range(_, _) => true
    case Invalid => false
    case Number => false
  }

  /** What lowering an expression demands: an expression typed `Invalid` is not looked
      into; any other has a lowerable type, contains no annotation, and its parts qualify
      (a lambda's parameter type included). */
  predicate ExprOk(e: Typed.Expr) {
    e.data.Invalid? ||
    (Lowerable(e.data) &&
      match e.node
      case Lam(p, body) => Lowerable(p.data) && ExprOk(body)
      case App(fun, arg) => ExprOk(fun) && ExprOk(arg)
      case Anno(_, _) => false
      case _ => true)
  }

  /** `Types::add`. */
  function Add(tb: seq<Mir.Type>, t: Mir.Type): (Mir.TypeId, seq<Mir.Type>) {
    (|tb|, tb + [t])
  }

  /** `lower_type`: the parts first, then the type itself. */
  function TypeLowered(tb: seq<Mir.Type>, ty: Typed.Type): (r: (Mir.TypeId, seq<Mir.Type>))
    requires Lowerable(ty)
    ensures Extends(r.1, tb) && r.0 == |r.1| - 1
    decreases ty
  {
    if ty.Fun? then
      var (t, tb1) := TypeLowered(tb, ty.t);
      var (u, tb2) := TypeLowered(tb1, ty.u);
      ExtendsTrans(tb2, tb1, tb);
      Add(tb2, Mir.Type.Fun(t, u))
    else
      Add(tb, Mir.Type.Range(ty.lo, ty.hi))
  }

  /** `lower_pat`. */
  function PatLowered(tb: seq<Mir.Type>, p: Typed.Pat): (r: (Mir.Pat, seq<Mir.Type>))
    requires Lowerable(p.data)
    ensures Extends(r.1, tb) && r.0.typ < |r.1|
  {
    var node := if p.node.Name? then Mir.PatNode.Name(p.node.name) else Mir.PatNode.Invalid;
    var (ty, tb1) := TypeLowered(tb, p.data);
    (Mir.Pat(node, p.span, ty), tb1)
  }

  /** `lower_expr`: the node's parts first, then its type. */
  function ExprLowered(tb: seq<Mir.Type>, e: Typed.Expr): (r: (Mir.Expr, seq<Mir.Type>))
    requires ExprOk(e)
    ensures Extends(r.1, tb) && r.0.typ < |r.1|
    decreases e
  {
    if e.data.Invalid? then
      var (ty, tb1) := Add(tb, Mir.Type.Invalid);
      (Mir.Expr(Mir.ExprNode.Invalid, e.span, ty), tb1)
    else
      var (node, tb1) := (match e.node
        case Int(v) => (Mir.ExprNode.Int(v), tb)
        case Name(n) => (Mir.ExprNode.Name(n), tb)
        case Lam(param, body) =>
          var (param', tbp) := PatLowered(tb, param);
          var (body', tbb) := ExprLowered(tbp, body);
          ExtendsTrans(tbb, tbp, tb);
          (Mir.ExprNode.Lam(param', body'), tbb)
        case App(fun, arg) =>
          var (fun', tbf) := ExprLowered(tb, fun);
          var (arg', tba) := ExprLowered(tbf, arg);
          ExtendsTrans(tba, tbf, tb);
          (Mir.ExprNode.App(fun', arg'), tba)
        case Invalid => (Mir.ExprNode.Invalid, tb));
      var (ty, tb2) := TypeLowered(tb1, e.data);
      ExtendsTrans(tb2, tb1, tb);
      (Mir.Expr(node, e.span, ty), tb2)
  }

  /** `lower_decls`: each definition's pattern, then its body. */
  function DeclsLowered(tb: seq<Mir.Type>, defs: seq<Typed.ValueDef>): (r: (seq<Mir.ValueDef>, seq<Mir.Type>))
    requires forall i :: 0 <= i < |defs| ==> Lowerable(defs[i].pat.data) && ExprOk(defs[i].bind)
    ensures Extends(r.1, tb) && |r.0| == |defs|
    decreases |defs|
  {
    if defs == [] then ([], tb)
    else
      var def := defs[|defs| - 1];
      var (values, tb1) := DeclsLowered(tb, defs[..|defs| - 1]);
      var (pat, tb2) := PatLowered(tb1, def.pat);
      var (bind, tb3) := ExprLowered(tb2, def.bind);
      ExtendsTrans(tb2, tb1, tb);
      ExtendsTrans(tb3, tb2, tb);
      (values + [Mir.ValueDef(def.span, pat, bind)], tb3)
  }

  // ---------------------------------------------------------------------------------------
  // Reading types back from the table

  /** Every arrow in the table refers to entries before it. */
  ghost predicate WellFormed(tb: seq<Mir.Type>) {
    forall i :: 0 <= i < |tb| && tb[i].Fun? ==> tb[i].t < i && tb[i].u < i
  }

  /** The type an entry of the table stands for. */
  function Decode(tb: seq<Mir.Type>, id: Mir.TypeId): Typed.Type
    requires WellFormed(tb) && id < |tb|
    decreases id
  {
    match tb[id]
    case Invalid => Typed.Type.Invalid
    case Range(lo, hi) => Typed.Type.Range(lo, hi)
    case Fun(t, u) => Typed.Type.Fun(Decode(tb, t), Decode(tb, u))
  }

  /** Appending to the table changes what no existing entry stands for. */
  lemma {:induction false} DecodeStable(tb: seq<Mir.Type>, big: seq<Mir.Type>, id: Mir.TypeId)
    requires WellFormed(tb) && WellFormed(big) && Extends(big, tb) && id < |tb|
    ensures Decode(big, id) == Decode(tb, id)
    decreases id
  {
    assert big[id] == big[..|tb|][id];
    if tb[id].Fun? {
      DecodeStable(tb, big, tb[id].t);
      DecodeStable(tb, big, tb[id].u);
    }
  }

  /** Lowering a type keeps the table well formed, and the entry it returns decodes back to
      the type. */
  lemma {:induction false} TypeRoundTrip(tb: seq<Mir.Type>, ty: Typed.Type)
    requires WellFormed(tb) && Lowerable(ty)
    ensures var (id, tb') := TypeLowered(tb, ty);
      WellFormed(tb') && Decode(tb', id) == ty
    decreases ty
  {
    if ty.Fun? {
      var (t, tb1) := TypeLowered(tb, ty.t);
      var (u, tb2) := TypeLowered(tb1, ty.u);
      TypeRoundTrip(tb, ty.t);
      TypeRoundTrip(tb1, ty.u);
      var tb3 := tb2 + [Mir.Type.Fun(t, u)];
      assert WellFormed(tb3);
      DecodeStable(tb1, tb3, t);
      DecodeStable(tb2, tb3, u);
      DecodeStable(tb1, tb2, t);
    } else {
      var tb' := tb + [Mir.Type.Range(ty.lo, ty.hi)];
      assert WellFormed(tb');
    }
  }

  lemma PatWellFormed(tb: seq<Mir.Type>, p: Typed.Pat)
    requires WellFormed(tb) && Lowerable(p.data)
    ensures var (p', tb') := PatLowered(tb, p);
      WellFormed(tb') && p'.span == p.span && Decode(tb', p'.typ) == p.data
  {
    TypeRoundTrip(tb, p.data);
  }

  // ---------------------------------------------------------------------------------------
  // The shape lowering keeps

  /** An expression with its types erased; an expression typed `Invalid` is a leaf. */
  datatype Shape =
    | IntShape(value: int, at: Span)
    | NameShape(name: Typed.Name, at: Span)
    | LamShape(param: Option<Typed.Name>, paramAt: Span, body: Shape, at: Span)
    | AppShape(fun: Shape, arg: Shape, at: Span)
    | InvalidShape(at: Span)

  function TypedShape(e: Typed.Expr): Shape {
    if e.data.Invalid? then InvalidShape(e.span)
    else match e.node
      case Int(v) => IntShape(v, e.span)
      case Name(n) => NameShape(n, e.span)
      case Lam(p, body) =>
        LamShape(if p.node.Name? then Some(p.node.name) else None, p.span, TypedShape(body), e.span)
      case App(fun, arg) => AppShape(TypedShape(fun), TypedShape(arg), e.span)
      case Invalid => InvalidShape(e.span)
      case Anno(x, _) => TypedShape(x)
  }

  function MirShape(e: Mir.Expr): Shape {
    match e.node
    case Int(v) => IntShape(v, e.span)
    case Name(n) => NameShape(n, e.span)
    case Lam(p, body) =>
      LamShape(if p.node.Name? then Some(p.node.name) else None, p.span, MirShape(body), e.span)
    case App(fun, arg) => AppShape(MirShape(fun), MirShape(arg), e.span)
    case Invalid => InvalidShape(e.span)
  }

  /** Lowering keeps every node's kind, payload and span, and keeps the table well formed:
      an expression typed `Invalid` becomes an invalid node over a fresh `Invalid` entry,
      any other gets an entry decoding back to its type. */
  lemma {:induction false} ExprLoweredShape(tb: seq<Mir.Type>, e: Typed.Expr)
    requires WellFormed(tb) && ExprOk(e)
    ensures var (e', tb') := ExprLowered(tb, e);
      && WellFormed(tb')
      && MirShape(e') == TypedShape(e)
      && (e.data.Invalid? ==> e'.node.Invalid? && tb'[e'.typ] == Mir.Type.Invalid)
      && (!e.data.Invalid? ==> Decode(tb', e'.typ) == e.data)
    decreases e
  {
    if e.data.Invalid? {
      assert WellFormed(tb + [Mir.Type.Invalid]);
    } else {
      var tb1: seq<Mir.Type>;
      match e.node {
        case Lam(param, body) =>
          var (param', tbp) := PatLowered(tb, param);
          PatWellFormed(tb, param);
          ExprLoweredShape(tbp, body);
          tb1 := ExprLowered(tbp, body).1;
        case App(fun, arg) =>
          var (fun', tbf) := ExprLowered(tb, fun);
          ExprLoweredShape(tb, fun);
          ExprLoweredShape(tbf, arg);
          tb1 := ExprLowered(tbf, arg).1;
        case Int(_) => tb1 := tb;
        case Name(_) => tb1 := tb;
        case Invalid => tb1 := tb;
      }
      TypeRoundTrip(tb1, e.data);
    }
  }

  /** An expression typed `Invalid` is replaced whole, whatever its parts. */
  lemma InvalidTypedExpr(tb: seq<Mir.Type>, node: Typed.ExprNode, span: Span)
    ensures ExprLowered(tb, Typed.Expr(node, span, Typed.Type.Invalid))
      == (Mir.Expr(Mir.ExprNode.Invalid, span, |tb|), tb + [Mir.Type.Invalid])
  {
  }

  /** `lower_decls` keeps the number, order and spans of the definitions, and every
      definition's body keeps its shape. */
  lemma {:induction false} DeclsKeepOrder(tb: seq<Mir.Type>, defs: seq<Typed.ValueDef>)
    requires WellFormed(tb)
    requires forall i :: 0 <= i < |defs| ==> Lowerable(defs[i].pat.data) && ExprOk(defs[i].bind)
    ensures var (values, tb') := DeclsLowered(tb, defs);
      && WellFormed(tb')
      && (forall i :: 0 <= i < |defs| ==> values[i].span == defs[i].span && values[i].pat.span == defs[i].pat.span)
      && (forall i :: 0 <= i < |defs| ==> MirShape(values[i].bind) == TypedShape(defs[i].bind))
    decreases |defs|
  {
    if defs != [] {
      var def := defs[|defs| - 1];
      var init := defs[..|defs| - 1];
      assert forall i :: 0 <= i < |init| ==> init[i] == defs[i];
      DeclsKeepOrder(tb, init);
      var (values, tb1) := DeclsLowered(tb, init);
      var (pat, tb2) := PatLowered(tb1, def.pat);
      var (bind, tb3) := ExprLowered(tb2, def.bind);
      DeclKeepsShape(tb1, def);
      var all := values + [Mir.ValueDef(def.span, pat, bind)];
      assert DeclsLowered(tb, defs) == (all, tb3);
      forall i | 0 <= i < |defs|
        ensures all[i].span == defs[i].span && all[i].pat.span == defs[i].pat.span
        ensures MirShape(all[i].bind) == TypedShape(defs[i].bind)
      {
        if i < |init| {
          assert all[i] == values[i] && defs[i] == init[i];
        }
      }
    }
  }

  /** One definition: its pattern keeps its span, its body its shape. */
  lemma DeclKeepsShape(tb: seq<Mir.Type>, def: Typed.ValueDef)
    requires WellFormed(tb) && Lowerable(def.pat.data) && ExprOk(def.bind)
    ensures var (pat, tb2) := PatLowered(tb, def.pat);
      var (bind, tb3) := ExprLowered(tb2, def.bind);
      WellFormed(tb3) && pat.span == def.pat.span && MirShape(bind) == TypedShape(def.bind)
  {
    PatWellFormed(tb, def.pat);
    ExprLoweredShape(PatLowered(tb, def.pat).1, def.bind);
  }

  // ---------------------------------------------------------------------------------------
  // The lowering on a mutable table

  class Types {
    var entries: seq<Mir.Type>

    constructor ()
      ensures entries == []
    {
      entries := [];
    }

    method Add(t: Mir.Type) returns (id: Mir.TypeId)
      modifies this
      ensures id == |old(entries)| && entries == old(entries) + [t]
    {
      id := |entries|;
      entries := entries + [t];
    }
  }

  method LowerType(types: Types, ty: Typed.Type) returns (id: Mir.TypeId)
    requires Lowerable(ty)
    modifies types
    ensures (id, types.entries) == TypeLowered(old(types.entries), ty)
    decreases ty
  {
    if ty.Fun? {
      var t := LowerType(types, ty.t);
      var u := LowerType(types, ty.u);
      id := types.Add(Mir.Type.Fun(t, u));
    } else {
      id := types.Add(Mir.Type.Range(ty.lo, ty.hi));
    }
  }

  method LowerPat(types: Types, p: Typed.Pat) returns (r: Mir.Pat)
    requires Lowerable(p.data)
    modifies types
    ensures (r, types.entries) == PatLowered(old(types.entries), p)
  {
    var node := match p.node
      case Name(name) => Mir.PatNode.Name(name)
      case Invalid => Mir.PatNode.Invalid;
    var ty := LowerType(types, p.data);
    r := Mir.Pat(node, p.span, ty);
  }

  method LowerExpr(types: Types, e: Typed.Expr) returns (r: Mir.Expr)
    requires ExprOk(e)
    modifies types
    ensures (r, types.entries) == ExprLowered(old(types.entries), e)
    decreases e
  {
    if e.data.Invalid? {
      var ty := types.Add(Mir.Type.Invalid);
      r := Mir.Expr(Mir.ExprNode.Invalid, e.span, ty);
    } else {
      var node: Mir.ExprNode;
      match e.node {
        case Int(v) => node := Mir.ExprNode.Int(v);
        case Name(n) => node := Mir.ExprNode.Name(n);
        case Lam(param, body) =>
          var param' := LowerPat(types, param);
          var body' := LowerExpr(types, body);
          node := Mir.ExprNode.Lam(param', body');
        case App(fun, arg) =>
          var fun' := LowerExpr(types, fun);
          var arg' := LowerExpr(types, arg);
          node := Mir.ExprNode.App(fun', arg');
        case Invalid => node := Mir.ExprNode.Invalid;
      }
      var ty := LowerType(types, e.data);
      r := Mir.Expr(node, e.span, ty);
    }
  }

  method LowerDecls(types: Types, defs: seq<Typed.ValueDef>) returns (values: seq<Mir.ValueDef>)
    requires forall i :: 0 <= i < |defs| ==> Lowerable(defs[i].pat.data) && ExprOk(defs[i].bind)
    modifies types
    ensures (values, types.entries) == DeclsLowered(old(types.entries), defs)
  {
    values := [];
    for i := 0 to |defs|
      invariant (values, types.entries) == DeclsLowered(old(types.entries), defs[..i])
    {
      assert defs[..i + 1][..i] == defs[..i];
      var pat := LowerPat(types, defs[i].pat);
      var bind := LowerExpr(types, defs[i].bind);
      values := values + [Mir.ValueDef(defs[i].span, pat, bind)];
    }
    assert defs[..|defs|] == defs;
  }

  /** `lower`: from an empty table. */
  method Lower(defs: seq<Typed.ValueDef>) returns (types: Types, values: seq<Mir.ValueDef>)
    requires forall i :: 0 <= i < |defs| ==> Lowerable(defs[i].pat.data) && ExprOk(defs[i].bind)
    ensures fresh(types)
    ensures (values, types.entries) == DeclsLowered([], defs)
  {
    types := new Types();
    values := LowerDecls(types, defs);
  }
}
