/** Values shared by every part of the model: optional values and source spans. */
module Common {

  datatype Option<+T> = None | Some(value: T)

  /** A source location. `Joined` is the span covering two others (the `+` on spans);
      how the covering span is computed is left open, so it is kept as a constructor. */
  datatype Span = Span(file: nat, start: nat, end: nat) | Joined(left: Span, right: Span)

  /** `prefix` is an initial part of `s`: the sequences in this model that are only ever
      appended to (diagnostics, worklists) are related to their earlier values this way. */
  ghost predicate Extends<T>(s: seq<T>, prefix: seq<T>) {
    |prefix| <= |s| && s[..|prefix|] == prefix
  }

  lemma ExtendsTrans<T>(a: seq<T>, b: seq<T>, c: seq<T>)
    requires Extends(a, b) && Extends(b, c)
    ensures Extends(a, c)
  {
    assert a[..|c|] == a[..|b|][..|c|];
  }

  /** `big` keeps every entry of `small` with the same value. */
  ghost predicate MapExtends<K, V>(big: map<K, V>, small: map<K, V>) {
    forall k :: k in small ==> k in big && big[k] == small[k]
  }
}
