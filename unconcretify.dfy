/** Turning the concrete syntax tree into HIR (src/parse/unconcretify.rs): range and arrow
    expressions become applications of `upto` and `->`, patterns and types are validated with
    one message per rejected node, and lambdas get sequential binder ids.

    `ExprOf`, `PatOf` and `TypeOf` are the specification: the node produced and the
    translator's state (messages, next binder id) afterwards. The class `Unconcretifier`
    holds that state as fields and its methods are proved to compute exactly those. The
    integer conversion of literals (`i as i64`) is the function value `toI64`. */
module Unconcretify {
  import opened Common
  import Tree
  import Hir

  datatype Message = NotAPattern(at: Span) | RangeNotAnInt(at: Span) | NotAType(at: Span)

  datatype St = St(msgs: seq<Message>, bindId: nat)

  function Say(st: St, m: Message): St {
    st.(msgs := st.msgs + [m])
  }

  /** `op lhs rhs` as two applications: the inner one spans `lhs` and the operator, the outer
      one keeps the span of the whole expression. */
  function Applied(op: string, opSpan: Span, lhs: Hir.Expr, rhs: Hir.Expr, span: Span): Hir.Expr {
    var fun := Hir.Expr(Hir.ExprNode.Name(op), opSpan);
    var partial := Hir.Expr(Hir.ExprNode.App(fun, lhs), Joined(lhs.span, opSpan));
    Hir.Expr(Hir.ExprNode.App(partial, rhs), span)
  }

  /** `unconc_expr`. */
  function ExprOf(toI64: int -> int, st: St, e: Tree.Expr): (Hir.Expr, St)
    decreases e
  {
    match e.node
    case Name(name) => (Hir.Expr(Hir.ExprNode.Name(name), e.span), st)
    case Int(i) => (Hir.Expr(Hir.ExprNode.Int(toI64(i)), e.span), st)
    case Group(inner) => ExprOf(toI64, st, inner)
    case Range(op, lo, hi) =>
      var (lo', st1) := ExprOf(toI64, st, lo);
      var (hi', st2) := ExprOf(toI64, st1, hi);
      (Applied("upto", op, lo', hi', e.span), st2)
    case Fun(op, t, u) =>
      var (t', st1) := ExprOf(toI64, st, t);
      var (u', st2) := ExprOf(toI64, st1, u);
      (Applied("->", op, t', u', e.span), st2)
    case Lam(pat, body) =>
      var (pat', st1) := PatOf(st, pat);
      var (body', st2) := ExprOf(toI64, st1, body);
      (Hir.Expr(Hir.ExprNode.Lam(st2.bindId, pat', body'), e.span), st2.(bindId := st2.bindId + 1))
    case App(fun, arg) =>
      var (fun', st1) := ExprOf(toI64, st, fun);
      var (arg', st2) := ExprOf(toI64, st1, arg);
      (Hir.Expr(Hir.ExprNode.App(fun', arg'), e.span), st2)
    case Anno(x, anno) =>
      var (x', st1) := ExprOf(toI64, st, x);
      var (anno', st2) := TypeOf(toI64, st1, anno);
      (Hir.Expr(Hir.ExprNode.Anno(x', anno'), e.span), st2)
    case Invalid => (Hir.Expr(Hir.ExprNode.Invalid, e.span), st)
  }

  /** `unconc_pat`: only names (possibly grouped) and invalid nodes are patterns. */
  function PatOf(st: St, p: Tree.Expr): (Hir.Pat, St)
    decreases p
  {
    match p.node
    case Name(name) => (Hir.Pat(Hir.PatNode.Name(name), p.span), st)
    case Group(inner) => PatOf(st, inner)
    case Invalid => (Hir.Pat(Hir.PatNode.Invalid, p.span), st)
    case _ => (Hir.Pat(Hir.PatNode.Invalid, p.span), Say(st, NotAPattern(p.span)))
  }

  /** Where a range type with a non-literal bound is reported. */
  function BadBoundAt(lo: Hir.Expr, hi: Hir.Expr): Span {
    if lo.node.Int? then hi.span else if hi.node.Int? then lo.span else Joined(lo.span, hi.span)
  }

  /** `unconc_type`: ranges of two integer literals, arrows, and grouped types. */
  function TypeOf(toI64: int -> int, st: St, t: Tree.Expr): (Hir.Type, St)
    decreases t
  {
    match t.node
    case Range(_, lo, hi) =>
      var (lo', st1) := ExprOf(toI64, st, lo);
      var (hi', st2) := ExprOf(toI64, st1, hi);
      if lo'.node.Int? && hi'.node.Int? then
        (Hir.Type(Hir.TypeNode.Range(lo'.node.value, hi'.node.value), t.span), st2)
      else
        (Hir.Type(Hir.TypeNode.Invalid, t.span), Say(st2, RangeNotAnInt(BadBoundAt(lo', hi'))))
    case Fun(_, a, b) =>
      var (a', st1) := TypeOf(toI64, st, a);
      var (b', st2) := TypeOf(toI64, st1, b);
      (Hir.Type(Hir.TypeNode.Fun(a', b'), t.span), st2)
    case Group(inner) => TypeOf(toI64, st, inner)
    case _ => (Hir.Type(Hir.TypeNode.Invalid, t.span), Say(st, NotAType(t.span)))
  }

  // ---------------------------------------------------------------------------------------
  // Properties of the specification

  /** The lambdas the translation reaches in expression position (types included: a range
      bound is translated as an expression), each of which draws one binder id. */
  function Lambdas(e: Tree.Expr): nat
    decreases e
  {
    match e.node
    case Group(inner) => Lambdas(inner)
    case Range(_, lo, hi) => Lambdas(lo) + Lambdas(hi)
    case Fun(_, t, u) => Lambdas(t) + Lambdas(u)
    case Lam(_, body) => Lambdas(body) + 1
    case App(fun, arg) => Lambdas(fun) + Lambdas(arg)
    case Anno(x, anno) => Lambdas(x) + TypeLambdas(anno)
    case _ => 0
  }

  function TypeLambdas(t: Tree.Expr): nat
    decreases t
  {
    match t.node
    case Range(_, lo, hi) => Lambdas(lo) + Lambdas(hi)
    case Fun(_, a, b) => TypeLambdas(a) + TypeLambdas(b)
    case Group(inner) => TypeLambdas(inner)
    case _ => 0
  }

  /** `ids` is strictly increasing and lies in `[lo, hi)`. */
  ghost predicate IdsWithin(ids: seq<Hir.BindId>, lo: nat, hi: nat) {
    && (forall i :: 0 <= i < |ids| ==> lo <= ids[i] < hi)
    && (forall i, j :: 0 <= i < j < |ids| ==> ids[i] < ids[j])
  }

  lemma IdsWithinConcat(a: seq<Hir.BindId>, b: seq<Hir.BindId>, lo: nat, mid: nat, hi: nat)
    requires lo <= mid <= hi
    requires IdsWithin(a, lo, mid) && IdsWithin(b, mid, hi)
    ensures IdsWithin(a + b, lo, hi)
  {
    forall i, j | 0 <= i < j < |a + b|
      ensures (a + b)[i] < (a + b)[j]
    {
      if j >= |a| && i < |a| {
        assert (a + b)[i] == a[i] && (a + b)[j] == b[j - |a|];
      }
    }
  }

  /** The operator's name carries no lambda: the ids are those of the two operands. */
  lemma AppliedIds(op: string, opSpan: Span, lhs: Hir.Expr, rhs: Hir.Expr, span: Span)
    ensures Hir.BindIds(Applied(op, opSpan, lhs, rhs, span)) == Hir.BindIds(lhs) + Hir.BindIds(rhs)
  {
    var fun := Hir.Expr(Hir.ExprNode.Name(op), opSpan);
    assert Hir.BindIds(fun) == [];
    assert [] + Hir.BindIds(lhs) == Hir.BindIds(lhs);
  }

  /** A pattern draws no binder id and adds at most one message. */
  lemma {:induction false} PatEffects(st: St, p: Tree.Expr)
    ensures var (_, st') := PatOf(st, p);
      st'.bindId == st.bindId && (st'.msgs == st.msgs || st'.msgs == st.msgs + [NotAPattern(Tree.Ungroup(p).span)])
    decreases p
  {
    if p.node.Group? {
      PatEffects(st, p.node.inner);
      assert PatOf(st, p) == PatOf(st, p.node.inner);
    }
  }

  /** Translating an expression draws exactly one binder id per lambda reached, hands them out
      in order (a lambda's after those of its body), so all ids are distinct and fresh, and
      only appends messages. */
  lemma {:induction false} ExprEffects(toI64: int -> int, st: St, e: Tree.Expr)
    ensures var (h, st') := ExprOf(toI64, st, e);
      && st'.bindId == st.bindId + Lambdas(e)
      && IdsWithin(Hir.BindIds(h), st.bindId, st'.bindId)
      && Extends(st'.msgs, st.msgs)
    decreases e
  {
    match e.node
    case Group(inner) => ExprEffects(toI64, st, inner);
    case Range(op, lo, hi) =>
      var (lo', st1) := ExprOf(toI64, st, lo);
      ExprEffects(toI64, st, lo);
      ExprEffects(toI64, st1, hi);
      var (hi', st2) := ExprOf(toI64, st1, hi);
      AppliedIds("upto", op, lo', hi', e.span);
      IdsWithinConcat(Hir.BindIds(lo'), Hir.BindIds(hi'), st.bindId, st1.bindId, st2.bindId);
      ExtendsTrans(st2.msgs, st1.msgs, st.msgs);
    case Fun(op, t, u) =>
      var (t', st1) := ExprOf(toI64, st, t);
      ExprEffects(toI64, st, t);
      ExprEffects(toI64, st1, u);
      var (u', st2) := ExprOf(toI64, st1, u);
      AppliedIds("->", op, t', u', e.span);
      IdsWithinConcat(Hir.BindIds(t'), Hir.BindIds(u'), st.bindId, st1.bindId, st2.bindId);
      ExtendsTrans(st2.msgs, st1.msgs, st.msgs);
    case Lam(pat, body) =>
      var (pat', st1) := PatOf(st, pat);
      PatEffects(st, pat);
      ExprEffects(toI64, st1, body);
      var (body', st2) := ExprOf(toI64, st1, body);
      IdsWithinConcat(Hir.BindIds(body'), [st2.bindId], st.bindId, st2.bindId, st2.bindId + 1);
      ExtendsTrans(st2.msgs, st1.msgs, st.msgs);
    case App(fun, arg) =>
      var (fun', st1) := ExprOf(toI64, st, fun);
      ExprEffects(toI64, st, fun);
      ExprEffects(toI64, st1, arg);
      var (arg', st2) := ExprOf(toI64, st1, arg);
      IdsWithinConcat(Hir.BindIds(fun'), Hir.BindIds(arg'), st.bindId, st1.bindId, st2.bindId);
      ExtendsTrans(st2.msgs, st1.msgs, st.msgs);
    case Anno(x, anno) =>
      var (x', st1) := ExprOf(toI64, st, x);
      ExprEffects(toI64, st, x);
      TypeEffects(toI64, st1, anno);
      var (anno', st2) := TypeOf(toI64, st1, anno);
      ExtendsTrans(st2.msgs, st1.msgs, st.msgs);
    case _ =>
  }

  lemma {:induction false} TypeEffects(toI64: int -> int, st: St, t: Tree.Expr)
    ensures var (_, st') := TypeOf(toI64, st, t);
      st'.bindId == st.bindId + TypeLambdas(t) && Extends(st'.msgs, st.msgs)
    decreases t
  {
    match t.node
    case Range(_, lo, hi) =>
      var (lo', st1) := ExprOf(toI64, st, lo);
      ExprEffects(toI64, st, lo);
      ExprEffects(toI64, st1, hi);
      var (hi', st2) := ExprOf(toI64, st1, hi);
      ExtendsTrans(st2.msgs, st1.msgs, st.msgs);
    case Fun(_, a, b) =>
      var (a', st1) := TypeOf(toI64, st, a);
      TypeEffects(toI64, st, a);
      TypeEffects(toI64, st1, b);
      var (b', st2) := TypeOf(toI64, st1, b);
      ExtendsTrans(st2.msgs, st1.msgs, st.msgs);
    case Group(inner) => TypeEffects(toI64, st, inner);
    case _ =>
  }

  /** Grouping is transparent, its inner span included; otherwise a node keeps its span. */
  lemma {:induction false} SpansKept(toI64: int -> int, st: St, e: Tree.Expr)
    ensures ExprOf(toI64, st, e).0.span == Tree.Ungroup(e).span
    ensures PatOf(st, e).0.span == Tree.Ungroup(e).span
    ensures TypeOf(toI64, st, e).0.span == Tree.Ungroup(e).span
    decreases e
  {
    if e.node.Group? {
      SpansKept(toI64, st, e.node.inner);
    }
  }

  /** `lo upto hi` and `t -> u` become applications of the operator's name. */
  lemma OperatorsDesugared(toI64: int -> int, st: St, op: Span, l: Tree.Expr, r: Tree.Expr, span: Span)
    ensures var (l', st1) := ExprOf(toI64, st, l);
      var (r', st2) := ExprOf(toI64, st1, r);
      && ExprOf(toI64, st, Tree.Expr(Tree.ExprNode.Range(op, l, r), span))
           == (Hir.Expr(Hir.ExprNode.App(
                 Hir.Expr(Hir.ExprNode.App(Hir.Expr(Hir.ExprNode.Name("upto"), op), l'), Joined(l'.span, op)),
                 r'), span), st2)
      && ExprOf(toI64, st, Tree.Expr(Tree.ExprNode.Fun(op, l, r), span))
           == (Hir.Expr(Hir.ExprNode.App(
                 Hir.Expr(Hir.ExprNode.App(Hir.Expr(Hir.ExprNode.Name("->"), op), l'), Joined(l'.span, op)),
                 r'), span), st2)
  {
  }

  /** A node that is neither a name, a group nor invalid is not a pattern: one message at
      its span, an invalid pattern, and nothing inside it is looked at. */
  lemma NotAPatternReported(st: St, p: Tree.Expr)
    requires !p.node.Name? && !p.node.Group? && !p.node.Invalid?
    ensures PatOf(st, p) == (Hir.Pat(Hir.PatNode.Invalid, p.span), st.(msgs := st.msgs + [NotAPattern(p.span)]))
  {
  }

  /** A range type is a `Range` iff both bounds translate to integer literals; otherwise it
      is invalid with one message at the bad bound (at both when both are bad). */
  lemma RangeTypeChecked(toI64: int -> int, st: St, op: Span, lo: Tree.Expr, hi: Tree.Expr, span: Span)
    ensures var (lo', st1) := ExprOf(toI64, st, lo);
      var (hi', st2) := ExprOf(toI64, st1, hi);
      var (ty, st') := TypeOf(toI64, st, Tree.Expr(Tree.ExprNode.Range(op, lo, hi), span));
      && ty.span == span
      && (ty.node.Range? <==> lo'.node.Int? && hi'.node.Int?)
      && (ty.node.Range? ==> ty.node == Hir.TypeNode.Range(lo'.node.value, hi'.node.value) && st' == st2)
      && (!ty.node.Range? ==> ty.node.Invalid? && st' == st2.(msgs := st2.msgs + [RangeNotAnInt(BadBoundAt(lo', hi'))]))
    ensures var (lo', st1) := ExprOf(toI64, st, lo);
      var (hi', _) := ExprOf(toI64, st1, hi);
      && (lo'.node.Int? && !hi'.node.Int? ==> BadBoundAt(lo', hi') == hi'.span)
      && (!lo'.node.Int? && hi'.node.Int? ==> BadBoundAt(lo', hi') == lo'.span)
      && (!lo'.node.Int? && !hi'.node.Int? ==> BadBoundAt(lo', hi') == Joined(lo'.span, hi'.span))
  {
  }

  /** Anything but a range, an arrow or a group in type position is one not-a-type message. */
  lemma NotATypeReported(toI64: int -> int, st: St, t: Tree.Expr)
    requires !t.node.Range? && !t.node.Fun? && !t.node.Group?
    ensures TypeOf(toI64, st, t) == (Hir.Type(Hir.TypeNode.Invalid, t.span), st.(msgs := st.msgs + [NotAType(t.span)]))
  {
  }

  // ---------------------------------------------------------------------------------------
  // The translator object

  class Unconcretifier {
    const toI64: int -> int
    var msgs: seq<Message>
    var bindId: nat

    function State(): St
      reads this
    {
      St(msgs, bindId)
    }

    constructor (toI64: int -> int)
      ensures this.toI64 == toI64 && msgs == [] && bindId == 0
    {
      this.toI64 := toI64;
      msgs := [];
      bindId := 0;
    }

    method Unconcretify(e: Tree.Expr) returns (h: Hir.Expr)
      modifies this
      ensures (h, State()) == ExprOf(toI64, old(State()), e)
    {
      h := UnconcExpr(e);
    }

    method UnconcExpr(e: Tree.Expr) returns (h: Hir.Expr)
      modifies this
      ensures (h, State()) == ExprOf(toI64, old(State()), e)
      decreases e
    {
      var node: Hir.ExprNode;
      match e.node {
        case Name(name) => node := Hir.ExprNode.Name(name);
        case Int(i) => node := Hir.ExprNode.Int(toI64(i));
        case Group(inner) =>
          h := UnconcExpr(inner);
          return;
        case Range(op, lo, hi) =>
          var lo' := UnconcExpr(lo);
          var hi' := UnconcExpr(hi);
          var fun := Hir.Expr(Hir.ExprNode.Name("upto"), op);
          var partial := Hir.Expr(Hir.ExprNode.App(fun, lo'), Joined(lo'.span, op));
          node := Hir.ExprNode.App(partial, hi');
        case Fun(op, t, u) =>
          var t' := UnconcExpr(t);
          var u' := UnconcExpr(u);
          var fun := Hir.Expr(Hir.ExprNode.Name("->"), op);
          var partial := Hir.Expr(Hir.ExprNode.App(fun, t'), Joined(t'.span, op));
          node := Hir.ExprNode.App(partial, u');
        case Lam(pat, body) =>
          var pat' := UnconcPat(pat);
          var body' := UnconcExpr(body);
          var id := FreshBindId();
          node := Hir.ExprNode.Lam(id, pat', body');
        case App(fun, arg) =>
          var fun' := UnconcExpr(fun);
          var arg' := UnconcExpr(arg);
          node := Hir.ExprNode.App(fun', arg');
        case Anno(x, anno) =>
          var x' := UnconcExpr(x);
          var anno' := UnconcType(anno);
          node := Hir.ExprNode.Anno(x', anno');
        case Invalid => node := Hir.ExprNode.Invalid;
      }
      h := Hir.Expr(node, e.span);
    }

    method UnconcPat(p: Tree.Expr) returns (h: Hir.Pat)
      modifies this
      ensures (h, State()) == PatOf(old(State()), p)
      decreases p
    {
      var node: Hir.PatNode;
      match p.node {
        case Name(name) => node := Hir.PatNode.Name(name);
        case Group(inner) =>
          h := UnconcPat(inner);
          return;
        case Invalid => node := Hir.PatNode.Invalid;
        case _ =>
          msgs := msgs + [NotAPattern(p.span)];
          node := Hir.PatNode.Invalid;
      }
      h := Hir.Pat(node, p.span);
    }

    method UnconcType(t: Tree.Expr) returns (h: Hir.Type)
      modifies this
      ensures (h, State()) == TypeOf(toI64, old(State()), t)
      decreases t
    {
      var node: Hir.TypeNode;
      match t.node {
        case Range(_, lo, hi) =>
          var lo' := UnconcExpr(lo);
          var hi' := UnconcExpr(hi);
          if lo'.node.Int? && hi'.node.Int? {
            node := Hir.TypeNode.Range(lo'.node.value, hi'.node.value);
          } else if lo'.node.Int? {
            msgs := msgs + [RangeNotAnInt(hi'.span)];
            node := Hir.TypeNode.Invalid;
          } else if hi'.node.Int? {
            msgs := msgs + [RangeNotAnInt(lo'.span)];
            node := Hir.TypeNode.Invalid;
          } else {
            msgs := msgs + [RangeNotAnInt(Joined(lo'.span, hi'.span))];
            node := Hir.TypeNode.Invalid;
          }
        case Fun(_, a, b) =>
          var a' := UnconcType(a);
          var b' := UnconcType(b);
          node := Hir.TypeNode.Fun(a', b');
        case Group(inner) =>
          h := UnconcType(inner);
          return;
        case _ =>
          msgs := msgs + [NotAType(t.span)];
          node := Hir.TypeNode.Invalid;
      }
      h := Hir.Type(node, t.span);
    }

    method FreshBindId() returns (id: Hir.BindId)
      modifies this
      ensures id == old(bindId) && bindId == old(bindId) + 1 && msgs == old(msgs)
    {
      id := bindId;
      bindId := bindId + 1;
    }
  }
}
