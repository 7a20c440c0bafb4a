/**
 * Tokens of the language: a kind and an optional payload string
 * (main.cpp:13-28). The payload is meant to be present exactly for
 * identifiers and integer literals.
 */
module Tokens {
  import opened Wrappers

  datatype TokenType =
    | Func        // keyword `fun`
    | Ident       // identifier, payload = its name
    | OpenParen   // `(`
    | CloseParen  // `)`
    | OpenCurl    // `{`
    | CloseCurl   // `}`
    | Ret         // keyword `ret`
    | LitInt      // decimal literal, payload = its digits
    | Semi        // `;`

  datatype Token = Token(kind: TokenType, value: Option<string>)

  /** Kinds that carry a payload. */
  predicate HasPayload(kind: TokenType) {
    kind == Ident || kind == LitInt
  }

  /** A token carries a payload exactly when its kind calls for one. */
  predicate WellFormed(t: Token) {
    t.value.Some? <==> HasPayload(t.kind)
  }
}
