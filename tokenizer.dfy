/**
 * The `Tokenizer` object (main.cpp:43-121): a fixed source buffer, its
 * length, and a cursor that `next()` moves forward and `reset()` puts back
 * to the start.
 */
module Tokenizing {
  import opened Wrappers
  import opened Tokens
  import opened Scanner
  import opened Classification

  /** The characters of `source` at positions `pos` up to `length`. */
  function Window(source: string, length: int, pos: nat): string
    requires length <= |source|
  {
    if pos < length then source[pos..length] else []
  }

  /** Moving the cursor by `n` drops the first `n` characters of the window. */
  lemma WindowAdvance(source: string, length: int, pos: nat, n: nat)
    requires length <= |source|
    requires n <= |Window(source, length, pos)|
    ensures Window(source, length, pos + n) == Window(source, length, pos)[n..]
  {
  }

  /** One call of `next()` splits the tokens of the window into those of its
      lexeme and those of the rest of the window. */
  lemma TokensOfWindowStep(source: string, length: int, from: nat, to: nat, l: string)
    requires length <= |source|
    requires from <= to
    requires NextLexeme(Window(source, length, from)) == Step(Some(l), to - from)
    ensures TokensOf(Window(source, length, from)) == Emit(l) + TokensOf(Window(source, length, to))
    ensures |Window(source, length, to)| < |Window(source, length, from)|
  {
    var w := Window(source, length, from);
    var v := Window(source, length, to);
    WindowAdvance(source, length, from, to - from);
    TokensOfStep(w);
    assert TokensOf(w) == Emit(l) + TokensOf(w[to - from..]);
    assert v == w[to - from..];
  }

  class Tokenizer {
    const source: string
    const length: int
    var pos: int

    /** The cursor is never negative and never past the length; the length
        never exceeds the buffer (every read is in bounds). */
    ghost predicate Valid()
      reads this
    {
      length <= |source| && 0 <= pos && (pos <= length || pos == 0)
    }

    /** The input the cursor has not reached yet. */
    ghost function Unread(): string
      reads this
      requires Valid()
    {
      Window(source, length, pos)
    }

    constructor (source: string, length: int)
      requires length <= |source|
      ensures Valid()
      ensures this.source == source && this.length == length && pos == 0
    {
      this.source := source;
      this.length := length;
      pos := 0;
    }

    /**
     * Extracts one lexeme (main.cpp:87-112): the result and the new cursor
     * are those of `NextLexeme` on the unread input. In particular the
     * cursor never moves backwards, stays within the length, and moves
     * forward whenever a lexeme is returned.
     */
    method Next() returns (lexeme: Option<string>)
      requires Valid()
      modifies this`pos
      ensures Valid()
      ensures var st := NextLexeme(old(Unread()));
        lexeme == st.lexeme && pos == old(pos) + st.consumed
    {
      if pos >= length {
        return None;
      }
      ghost var start := pos;
      var result: string := [];
      while pos < length
        invariant start <= pos <= length
        invariant NextLexeme(source[start..length]) == Shift(Scan(source[pos..length], result), pos - start)
      {
        var curr := source[pos];
        assert source[pos..length][0] == curr;
        assert source[pos..length][1..] == source[pos + 1..length];
        if IsAlnum(curr) {
          result := result + [curr];
          pos := pos + 1;
        } else if IsSpace(curr) && result != [] {
          pos := pos + 1;
          return Some(result);
        } else if curr in Punctuation {
          if result == [] {
            pos := pos + 1;
            return Some([curr]);
          } else {
            return Some(result);
          }
        } else {
          pos := pos + 1;
        }
      }
      return None;
    }

    /** Puts the cursor back to the start of the input (main.cpp:114). */
    method Reset()
      requires Valid()
      modifies this`pos
      ensures Valid() && pos == 0
      ensures Unread() == Window(source, length, 0)
    {
      pos := 0;
    }

    /**
     * Calls `next()` until it returns nothing, classifying each lexeme, then
     * resets the cursor (main.cpp:48-82). The tokens are those of the unread
     * input, and the cursor ends at the start again.
     */
    method Tokenize() returns (tokens: seq<Token>)
      requires Valid()
      modifies this`pos
      ensures Valid() && pos == 0
      ensures tokens == TokensOf(old(Unread()))
    {
      tokens := [];
      ghost var start := Window(source, length, pos);
      while true
        invariant Valid()
        invariant tokens + TokensOf(Window(source, length, pos)) == TokensOf(start)
        decreases |Window(source, length, pos)|
      {
        ghost var from := pos;
        var lexeme := Next();
        if lexeme.None? {
          break;
        }
        TokensOfWindowStep(source, length, from, pos, lexeme.value);
        var token := Classify(lexeme.value);
        if token.Some? {
          assert tokens + [token.value] + TokensOf(Window(source, length, pos)) ==
            tokens + ([token.value] + TokensOf(Window(source, length, pos)));
          tokens := tokens + [token.value];
        }
      }
      Reset();
    }
  }

  /**
   * `tokenize()` leaves the cursor at the start, so a second call on the
   * same tokenizer returns the same tokens as the first: those of the whole
   * window of the buffer.
   */
  method TokenizeTwice(source: string, length: int) returns (first: seq<Token>, second: seq<Token>)
    requires length <= |source|
    ensures first == second
    ensures first == TokensOf(Window(source, length, 0))
  {
    var tokenizer := new Tokenizer(source, length);
    first := tokenizer.Tokenize();
    second := tokenizer.Tokenize();
  }
}
