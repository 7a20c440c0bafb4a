/**
 * Classification of lexemes into tokens: the if-chain of
 * `Tokenizer::tokenize` (main.cpp:53-73), its inverse `Spelling`, and the
 * token sequence a whole scan produces.
 */
module Classification {
  import opened Wrappers
  import opened Tokens
  import opened Scanner

  /**
   * The priority chain: the keywords `fun` and `ret`, then the five
   * punctuation lexemes, then all-digit strings (integer literals), then
   * all-alphanumeric strings (identifiers); anything else yields no token.
   * Stated kind by kind: each kind is picked exactly for the lexemes the
   * chain reaches it with, and a payload, when present, is the lexeme.
   */
  function Classify(l: string): (r: Option<Token>)
    ensures r.None? <==> !AllAlnum(l) && !(|l| == 1 && l[0] in Punctuation)
    ensures r.Some? ==>
      var t := r.value;
      WellFormed(t) &&
      (t.kind == Func <==> l == "fun") &&
      (t.kind == Ret <==> l == "ret") &&
      (t.kind == LitInt <==> AllDigits(l)) &&
      (t.kind == Ident <==> AllAlnum(l) && !AllDigits(l) && l != "fun" && l != "ret") &&
      (t.value.Some? ==> t.value.value == l)
    ensures |l| == 1 && l[0] in Punctuation ==> r.Some? && Spelling(r.value) == l
  {
    assert !AllDigits("fun") by { assert !IsDigit("fun"[0]); }
    assert !AllDigits("ret") by { assert !IsDigit("ret"[0]); }
    assert !AllDigits("(") && !AllAlnum("(") by { assert !IsAlnum("("[0]); }
    assert !AllDigits(")") && !AllAlnum(")") by { assert !IsAlnum(")"[0]); }
    assert !AllDigits("{") && !AllAlnum("{") by { assert !IsAlnum("{"[0]); }
    assert !AllDigits("}") && !AllAlnum("}") by { assert !IsAlnum("}"[0]); }
    assert !AllDigits(";") && !AllAlnum(";") by { assert !IsAlnum(";"[0]); }
    if l == "fun" then Some(Token(Func, None))
    else if l == "ret" then Some(Token(Ret, None))
    else if l == "(" then Some(Token(OpenParen, None))
    else if l == ")" then Some(Token(CloseParen, None))
    else if l == "{" then Some(Token(OpenCurl, None))
    else if l == "}" then Some(Token(CloseCurl, None))
    else if l == ";" then Some(Token(Semi, None))
    else if AllDigits(l) then Some(Token(LitInt, Some(l)))
    else if AllAlnum(l) then Some(Token(Ident, Some(l)))
    else None
  }

  /** The source text of a token. */
  function Spelling(t: Token): string {
    match t.kind
    case Func => "fun"
    case Ret => "ret"
    case OpenParen => "("
    case CloseParen => ")"
    case OpenCurl => "{"
    case CloseCurl => "}"
    case Semi => ";"
    case LitInt | Ident => (match t.value case Some(v) => v case None => "")
  }

  /** A token the tokenizer can produce: well formed, an integer literal's
      payload non-empty digits, an identifier's payload alphanumeric, neither
      all digits nor a keyword. */
  predicate Canonical(t: Token) {
    WellFormed(t) &&
    (t.kind == LitInt ==> t.value.value != [] && AllDigits(t.value.value)) &&
    (t.kind == Ident ==>
      t.value.value != [] && AllAlnum(t.value.value) && !AllDigits(t.value.value) &&
      t.value.value != "fun" && t.value.value != "ret")
  }

  /** Every lexeme is classified, into a canonical token spelled as the lexeme. */
  lemma ClassifyLexeme(l: string)
    requires IsLexeme(l)
    ensures Classify(l).Some?
    ensures Canonical(Classify(l).value) && Spelling(Classify(l).value) == l
  {
    if l != "fun" && l != "ret" && AllAlnum(l) && !AllDigits(l) {
      assert Classify(l) == Some(Token(Ident, Some(l)));
    }
  }

  /** Classification inverts spelling on every canonical token. */
  lemma ClassifySpelling(t: Token)
    requires Canonical(t)
    ensures IsLexeme(Spelling(t))
    ensures Classify(Spelling(t)) == Some(t)
  {
    var s := Spelling(t);
    match t.kind
    case LitInt =>
      assert s == t.value.value;
      assert s != "fun" by { assert IsDigit(s[0]); }
      assert s != "ret" by { assert IsDigit(s[0]); }
      assert s !in {"(", ")", "{", "}", ";"} by { assert IsDigit(s[0]); }
      assert AllAlnum(s);
    case Ident =>
      assert s == t.value.value;
      assert s !in {"(", ")", "{", "}", ";"} by { assert IsAlnum(s[0]); }
    case _ =>
  }

  lemma ClassifyExamples()
    ensures Classify("42") == Some(Token(LitInt, Some("42")))
    ensures Classify("4a") == Some(Token(Ident, Some("4a")))
    ensures Classify("main") == Some(Token(Ident, Some("main")))
  {
    assert !IsDigit("4a"[1]);
    assert !IsDigit("main"[0]);
  }

  /** What `tokenize()` pushes for one lexeme: at most one token, none
      exactly when no branch of the chain applies, and for a lexeme a
      canonical token spelled as that lexeme. */
  function Emit(l: string): (r: seq<Token>)
    ensures |r| <= 1
    ensures r == [] <==> !AllAlnum(l) && !(|l| == 1 && l[0] in Punctuation)
    ensures IsLexeme(l) ==> |r| == 1 && Canonical(r[0]) && Spelling(r[0]) == l
  {
    match Classify(l) case Some(t) => [t] case None => []
  }

  /** The tokens `tokenize()` pushes for a sequence of lexemes. */
  function ClassifyAll(ls: seq<string>): seq<Token> {
    if ls == [] then [] else Emit(ls[0]) + ClassifyAll(ls[1..])
  }

  /** The tokens of a whole scan of the unread input `rest`: no lexeme is
      dropped, so there is one token per lexeme. */
  function TokensOf(rest: string): (ts: seq<Token>)
    ensures |ts| == |Lexemes(rest)|
  {
    ClassifyAllLexemes(Lexemes(rest));
    ClassifyAll(Lexemes(rest))
  }

  /** Every token of a scan is canonical (so well formed) and spells the
      lexeme at the same place. */
  lemma TokensOfCanonical(rest: string)
    ensures forall i :: 0 <= i < |TokensOf(rest)| ==>
      Canonical(TokensOf(rest)[i]) && WellFormed(TokensOf(rest)[i]) &&
      Spelling(TokensOf(rest)[i]) == Lexemes(rest)[i]
  {
    ClassifyAllLexemes(Lexemes(rest));
  }

  /** No lexeme is dropped: each token is the classification of the lexeme
      at the same place, and each is canonical (hence well formed). */
  lemma {:induction false} ClassifyAllLexemes(ls: seq<string>)
    requires forall i :: 0 <= i < |ls| ==> IsLexeme(ls[i])
    ensures |ClassifyAll(ls)| == |ls|
    ensures forall i :: 0 <= i < |ls| ==>
      Canonical(ClassifyAll(ls)[i]) && Spelling(ClassifyAll(ls)[i]) == ls[i]
  {
    if ls != [] {
      ClassifyLexeme(ls[0]);
      ClassifyAllLexemes(ls[1..]);
      forall i | 0 <= i < |ls|
        ensures Canonical(ClassifyAll(ls)[i]) && Spelling(ClassifyAll(ls)[i]) == ls[i]
      {
        if i > 0 {
          assert ClassifyAll(ls)[i] == ClassifyAll(ls[1..])[i - 1];
        }
      }
    }
  }

  /** The spellings of a token sequence, token by token. */
  function SpellAll(ts: seq<Token>): (ls: seq<string>)
    ensures |ls| == |ts|
    ensures forall i :: 0 <= i < |ts| ==> ls[i] == Spelling(ts[i])
  {
    if ts == [] then [] else [Spelling(ts[0])] + SpellAll(ts[1..])
  }

  lemma {:induction false} ClassifyAllSpellAll(ts: seq<Token>)
    requires forall i :: 0 <= i < |ts| ==> Canonical(ts[i])
    ensures forall i :: 0 <= i < |ts| ==> IsLexeme(SpellAll(ts)[i])
    ensures ClassifyAll(SpellAll(ts)) == ts
  {
    if ts != [] {
      ClassifySpelling(ts[0]);
      ClassifyAllSpellAll(ts[1..]);
      var ls := SpellAll(ts);
      assert ls[0] == Spelling(ts[0]) && ls[1..] == SpellAll(ts[1..]);
      forall i | 0 <= i < |ts| ensures IsLexeme(ls[i]) {
        if i > 0 { assert ls[i] == SpellAll(ts[1..])[i - 1]; }
      }
    }
  }

  /** Tokenizing the text of canonical tokens, each followed by a space,
      gives the tokens back. */
  lemma TokensRoundTrip(ts: seq<Token>)
    requires forall i :: 0 <= i < |ts| ==> Canonical(ts[i])
    ensures TokensOf(Render(SpellAll(ts))) == ts
  {
    ClassifyAllSpellAll(ts);
    LexemesRoundTrip(SpellAll(ts));
  }

  /** One call of `next()` followed by the classification step: the tokens
      of the input are those of the first lexeme, then those of the rest. */
  lemma TokensOfStep(rest: string)
    requires NextLexeme(rest).lexeme.Some?
    ensures var st := NextLexeme(rest);
      TokensOf(rest) == Emit(st.lexeme.value) + TokensOf(rest[st.consumed..])
  {
    var st := NextLexeme(rest);
    var ls := Lexemes(rest);
    assert ls == [st.lexeme.value] + Lexemes(rest[st.consumed..]);
    assert ls[0] == st.lexeme.value && ls[1..] == Lexemes(rest[st.consumed..]);
  }
}
