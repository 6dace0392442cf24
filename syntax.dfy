/** The concrete syntax tree the parser produces. Its declaring file (src/parse/tree.rs) is
    not part of this model; the variants below are the ones src/parse/unconcretify.rs matches
    on. The parser does not tell patterns, types and expressions apart, so all three are an
    `Expr` here. */
module Tree {
  import opened Common

  datatype Expr = Expr(node: ExprNode, span: Span)

  datatype ExprNode =
    | Name(name: string)
    | Int(value: int)
    | Group(inner: Expr)
    | Range(op: Span, lo: Expr, hi: Expr)
    | Fun(op: Span, t: Expr, u: Expr)
    | Lam(pat: Expr, body: Expr)
    | App(fun: Expr, arg: Expr)
    | Anno(expr: Expr, anno: Expr)
    | Invalid

  /** The node under any number of grouping parentheses. */
  function Ungroup(e: Expr): (r: Expr)
    ensures !r.node.Group?
  {
    if e.node.Group? then Ungroup(e.node.inner) else e
  }
}

/** The high-level intermediate representation (src/hir/mod.rs), with names as strings. */
module Hir {
  import opened Common

  type BindId = nat

  datatype Expr = Expr(node: ExprNode, span: Span)

  datatype ExprNode =
    | Name(name: string)
    | Int(value: int)
    | Lam(id: BindId, param: Pat, body: Expr)
    | App(fun: Expr, arg: Expr)
    | Anno(expr: Expr, anno: Type)
    | Invalid

  datatype Pat = Pat(node: PatNode, span: Span)

  datatype PatNode = Name(name: string) | Invalid

  datatype Type = Type(node: TypeNode, span: Span)

  datatype TypeNode = Range(lo: int, hi: int) | Fun(t: Type, u: Type) | Invalid

  /** The binder ids of the lambdas in an expression, each lambda after its body. */
  function BindIds(e: Expr): seq<BindId> {
    match e.node
    case Lam(id, _, body) => BindIds(body) + [id]
    case App(f, a) => BindIds(f) + BindIds(a)
    case Anno(x, _) => BindIds(x)
    case _ => []
  }
}
