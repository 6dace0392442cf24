/** The parser's token cursor (src/parse/mod.rs): the current and the previous token over
    a token stream. The stream is a sequence read from position `pos`; once it is exhausted
    it keeps yielding nothing. Tokens come from a lexer that is not part of this model, so a
    token is an opaque code, and a matcher is a predicate on tokens. */
module Cursor {
  import opened Common

  type Token = nat

  type Matcher = Token -> bool

  /** The `i`-th token of the stream, if there is one. */
  function At(tokens: seq<(Token, Span)>, i: nat): (r: Option<(Token, Span)>)
    ensures r.None? <==> i >= |tokens|
  {
    if i < |tokens| then Some(tokens[i]) else None
  }

  datatype View = View(curr: Option<(Token, Span)>, prev: Option<(Token, Span)>)

  /** The current and previous token after `k` calls of `advance` from an empty cursor. */
  function After(tokens: seq<(Token, Span)>, k: nat): View {
    View(if k >= 1 then At(tokens, k - 1) else None, if k >= 2 then At(tokens, k - 2) else None)
  }

  /** Advancing shifts the current token into `prev` and reads the next one; the tokens
      come out in stream order, and once the stream is done both stay empty. */
  lemma AdvanceShifts(tokens: seq<(Token, Span)>, k: nat)
    ensures After(tokens, k + 1).prev == After(tokens, k).curr
    ensures 1 <= k <= |tokens| ==> After(tokens, k).curr == Some(tokens[k - 1])
    ensures k >= 1 && After(tokens, k).curr.None? ==> After(tokens, k + 1) == View(None, None)
  {
  }

  class Parser {
    const tokens: seq<(Token, Span)>
    const defaultSpan: Span
    var pos: nat
    var curr: Option<(Token, Span)>
    var prev: Option<(Token, Span)>
    ghost var advances: nat

    /** `curr` and `prev` are what `advances` calls of `advance` leave, and `pos` counts the
        tokens taken from the stream. */
    ghost predicate Valid()
      reads this
    {
      && advances >= 1
      && pos == (if advances <= |tokens| then advances else |tokens|)
      && View(curr, prev) == After(tokens, advances)
    }

    /** `new`: exactly one `advance` on an empty cursor. */
    constructor New(tokens: seq<(Token, Span)>, file: nat)
      ensures Valid() && advances == 1 && this.tokens == tokens
      ensures curr == At(tokens, 0) && prev == None && defaultSpan == Span(file, 0, 0)
    {
      this.tokens := tokens;
      defaultSpan := Span(file, 0, 0);
      curr := None;
      prev := None;
      pos := 0;
      advances := 0;
      new;
      Advance();
    }

    /** `is_done`. */
    function IsDone(): (r: bool)
      requires Valid()
      reads this
      ensures r <==> curr.None?
      ensures r <==> advances > |tokens|
    {
      curr.None?
    }

    /** `advance`: the old current token becomes `prev`, the next one (if any) current. */
    method Advance()
      requires advances == 0 ==> curr.None? && prev.None? && pos == 0
      requires advances >= 1 ==> Valid()
      modifies this
      ensures Valid() && advances == old(advances) + 1
      ensures prev == old(curr) && curr == At(tokens, old(advances))
      ensures pos == old(pos) || pos == old(pos) + 1
    {
      prev := curr;
      curr := None;
      if pos < |tokens| {
        curr := Some(tokens[pos]);
        pos := pos + 1;
      }
      advances := advances + 1;
    }

    /** `peek`: whether there is a current token and the matcher accepts it. */
    function Peek(m: Matcher): (r: bool)
      requires Valid()
      reads this
      ensures r <==> curr.Some? && m(curr.value.0)
      ensures IsDone() ==> !r
    {
      match curr
      case Some((tok, _)) => m(tok)
      case None => false
    }

    /** `consume`: advances exactly when `peek` holds, and says whether it did. */
    method Consume(m: Matcher) returns (b: bool)
      requires Valid()
      modifies this
      ensures Valid() && b == old(Peek(m))
      ensures b ==> advances == old(advances) + 1 && prev == old(curr) && curr == At(tokens, old(advances))
      ensures !b ==> advances == old(advances) && curr == old(curr) && prev == old(prev) && pos == old(pos)
    {
      if Peek(m) {
        Advance();
        b := true;
      } else {
        b := false;
      }
    }
  }
}
