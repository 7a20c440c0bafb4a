/** Concrete inputs and the tokens a scan of them yields. */
module Examples {
  import opened Wrappers
  import opened Tokens
  import opened Scanner
  import opened Classification

  /** The lexemes of `fun main ( ) { ret ; } `. */
  const BareReturnLexemes: seq<string> := ["fun", "main", "(", ")", "{", "ret", ";", "}"]

  const BareReturnTokens: seq<Token> :=
    [Token(Func, None), Token(Ident, Some("main")), Token(OpenParen, None),
     Token(CloseParen, None), Token(OpenCurl, None), Token(Ret, None),
     Token(Semi, None), Token(CloseCurl, None)]

  lemma BareReturnSpelling()
    ensures forall i :: 0 <= i < |BareReturnTokens| ==> Canonical(BareReturnTokens[i])
    ensures SpellAll(BareReturnTokens) == BareReturnLexemes
  {
    assert !IsDigit("main"[0]);
  }

  /** A minimal program with a bare return tokenizes to the eight tokens of
      its eight lexemes. */
  lemma MainWithBareReturn()
    ensures TokensOf(Render(BareReturnLexemes)) == BareReturnTokens
  {
    BareReturnSpelling();
    TokensRoundTrip(BareReturnTokens);
  }

  lemma BareReturnUnspacedText()
    ensures Render(BareReturnLexemes[..7]) + ['}'] == "fun main ( ) { ret ; }"
  {
    var ls := BareReturnLexemes[..7];
    assert ls == ["fun", "main", "(", ")", "{", "ret", ";"];
    assert Render([";"]) == "; " by { assert [";"][1..] == []; }
    assert Render(["ret", ";"]) == "ret ; " by { assert ["ret", ";"][1..] == [";"]; }
    assert Render(["{", "ret", ";"]) == "{ ret ; " by { assert ["{", "ret", ";"][1..] == ["ret", ";"]; }
    assert Render([")", "{", "ret", ";"]) == ") { ret ; " by {
      assert [")", "{", "ret", ";"][1..] == ["{", "ret", ";"];
    }
    assert Render(["(", ")", "{", "ret", ";"]) == "( ) { ret ; " by {
      assert ["(", ")", "{", "ret", ";"][1..] == [")", "{", "ret", ";"];
    }
    assert Render(["main", "(", ")", "{", "ret", ";"]) == "main ( ) { ret ; " by {
      assert ["main", "(", ")", "{", "ret", ";"][1..] == ["(", ")", "{", "ret", ";"];
    }
    assert ls[1..] == ["main", "(", ")", "{", "ret", ";"];
  }

  /** The same program without the trailing space: the closing `}` at the
      very end of the input is still returned, since punctuation needs no
      terminator. */
  lemma MainWithBareReturnUnspaced()
    ensures TokensOf("fun main ( ) { ret ; }") == BareReturnTokens
  {
    var ls := BareReturnLexemes[..7];
    assert forall i :: 0 <= i < |ls| ==> IsLexeme(ls[i]);
    LexemesOfRenderPunctuation(ls, '}');
    BareReturnUnspacedText();
    assert ls + [['}']] == BareReturnLexemes;
    BareReturnSpelling();
    ClassifyAllSpellAll(BareReturnTokens);
  }

  /** `ret 42 ; x`: `42` is an integer literal, and the run `x` that ends
      the input with nothing after it is dropped. */
  lemma ReturnLiteral()
    ensures TokensOf(Render(["ret", "42", ";"]) + "x") ==
      [Token(Ret, None), Token(LitInt, Some("42")), Token(Semi, None)]
  {
    var ls := ["ret", "42", ";"];
    assert IsLexeme("ret") && IsLexeme("42") && IsLexeme(";");
    LexemesOfRender(ls, "x");
    ClassifyExamples();
    assert !AllDigits("ret") by { assert !IsDigit("ret"[0]); }
    assert AllDigits("42");
    assert ClassifyAll(ls[2..]) == [Token(Semi, None)];
  }

  /** Whitespace and characters outside every class yield nothing. */
  lemma NoiseOnly()
    ensures TokensOf("@@@ $$$") == []
  {
    var s := "@@@ $$$";
    assert forall i :: 0 <= i < |s| ==> s[i] == '@' || s[i] == ' ' || s[i] == '$';
    NoiseYieldsNothing(s);
  }
}
