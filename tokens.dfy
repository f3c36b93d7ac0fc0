/**
 * The token type the `#[token]` macro generates: one variant per annotated enum variant, each
 * carrying its `position` span and, for `literal` variants, the matched text as `value`; its
 * variant-only equality, `position()` and `does_equal`.
 */
module Tokens {
  import opened Wrappers
  import opened Spans

  /** A token: the name of its variant, its span, and the matched text of a `literal` variant. */
  datatype Token = Token(variant: string, position: Span, value: Option<string>)

  /**
   * The generated `PartialEq`: one match arm `(Self::V { .. }, Self::V { .. }) => true` per
   * variant `V` of the enum, in order, and `_ => false` for everything else.
   */
  function TokenEq(variants: seq<string>, a: Token, b: Token): bool
  {
    if variants == [] then false
    else (a.variant == variants[0] && b.variant == variants[0]) || TokenEq(variants[1..], a, b)
  }

  /**
   * For tokens of the enum, equality holds exactly when both are the same variant, whatever
   * their `value` and `position`.
   */
  lemma {:induction false} TokenEqIsSameVariant(variants: seq<string>, a: Token, b: Token)
    requires a.variant in variants
    ensures TokenEq(variants, a, b) <==> a.variant == b.variant
  {
    TokenEqSound(variants, a, b);
    if a.variant != variants[0] {
      assert a.variant in variants[1..];
      TokenEqIsSameVariant(variants[1..], a, b);
    }
  }

  lemma {:induction false} TokenEqSound(variants: seq<string>, a: Token, b: Token)
    ensures TokenEq(variants, a, b) ==> a.variant == b.variant
  {
    if variants != [] {
      TokenEqSound(variants[1..], a, b);
    }
  }

  /** The payload never takes part in equality. */
  lemma TokenEqIgnoresPayload(variants: seq<string>, a: Token, b: Token, p: Span, v: Option<string>)
    requires a.variant in variants
    ensures TokenEq(variants, a, b) == TokenEq(variants, a.(position := p, value := v), b)
  {
    TokenEqIsSameVariant(variants, a, b);
    TokenEqIsSameVariant(variants, a.(position := p, value := v), b);
  }

  /** `position()`: the token's span. */
  function PositionOf(t: Token): (s: Span)
    ensures s == t.position
  {
    t.position
  }

  /** `does_equal`: compares the two positions, which as spans are always equal. */
  function DoesEqual(a: Token, b: Token): (r: bool)
    ensures r
  {
    SpanEq(PositionOf(a), PositionOf(b))
  }
}
