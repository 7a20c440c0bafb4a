/**
 * The lexeme scanner of `Tokenizer::next` (main.cpp:87-112), stated as pure
 * functions over the part of the input that has not been read yet.
 *
 * `Scan(rest, buf)` is one call of `next()` from the moment its buffer holds
 * `buf`: it says which lexeme the call returns and how many characters of
 * `rest` the cursor moves over. `Lexemes(rest)` is what repeated calls
 * return until the first call that returns nothing.
 */
module Scanner {
  import opened Wrappers

  // Character classes, as ASCII predicates (the source calls std::isalnum
  // and std::isspace of <cctype>).

  predicate IsDigit(c: char) { '0' <= c <= '9' }

  predicate IsAlnum(c: char) { IsDigit(c) || 'a' <= c <= 'z' || 'A' <= c <= 'Z' }

  /** Space, tab, newline, vertical tab, form feed, carriage return. */
  predicate IsSpace(c: char) { c == ' ' || 9 <= c as int <= 13 }

  /** The `constraints` set (main.cpp:118): characters that always end a lexeme. */
  const Punctuation: set<char> := {'(', ')', '{', '}', ';'}

  /** A character the scanner steps over without any effect. */
  predicate IsJunk(c: char) { !IsAlnum(c) && !IsSpace(c) && c !in Punctuation }

  predicate AllDigits(s: string) { forall i :: 0 <= i < |s| ==> IsDigit(s[i]) }

  predicate AllAlnum(s: string) { forall i :: 0 <= i < |s| ==> IsAlnum(s[i]) }

  predicate HasAlnum(s: string) { exists i :: 0 <= i < |s| && IsAlnum(s[i]) }

  /** The alphanumeric characters of `s`, in order. */
  function AlnumOnly(s: string): string {
    if s == [] then []
    else (if IsAlnum(s[0]) then [s[0]] else []) + AlnumOnly(s[1..])
  }

  /** What `next()` may return: a run of alphanumerics or one punctuation character. */
  predicate IsLexeme(l: string) {
    (|l| >= 1 && AllAlnum(l)) || (|l| == 1 && l[0] in Punctuation)
  }

  /** The outcome of one call of `next()`: the lexeme returned, if any, and
      how far the cursor moved. */
  datatype Step = Step(lexeme: Option<string>, consumed: nat)

  function Shift(st: Step, k: nat): Step {
    Step(st.lexeme, st.consumed + k)
  }

  /**
   * The loop of `next()` from a state whose buffer is `buf` and whose unread
   * input is `rest`. Its contract is the cursor's discipline: it never moves
   * past the end; a call that returns nothing runs to the end; a call that
   * returns a lexeme from an empty buffer has moved at least one character.
   */
  function Scan(rest: string, buf: string): (st: Step)
    ensures st.consumed <= |rest|
    ensures st.lexeme.None? ==> st.consumed == |rest|
    ensures st.lexeme.Some? ==> 1 <= st.consumed || buf != []
    decreases |rest|
  {
    if rest == [] then Step(None, 0)
    else
      var c := rest[0];
      if IsAlnum(c) then Shift(Scan(rest[1..], buf + [c]), 1)
      else if IsSpace(c) && buf != [] then Step(Some(buf), 1)
      else if c in Punctuation then
        (if buf == [] then Step(Some([c]), 1) else Step(Some(buf), 0))
      else Shift(Scan(rest[1..], buf), 1)
  }

  /** One call of `next()` on the unread input `rest`: the cursor stays
      within the input, and a call that returns a lexeme moves it forward. */
  function NextLexeme(rest: string): (st: Step)
    ensures st.consumed <= |rest|
    ensures st.lexeme.None? ==> st.consumed == |rest|
    ensures st.lexeme.Some? ==> 1 <= st.consumed
  {
    Scan(rest, [])
  }

  /** The lexemes returned by successive calls of `next()` until the first
      call that returns nothing: each is a lexeme, and since every call that
      returns one moves the cursor, there are at most as many as characters. */
  function Lexemes(rest: string): (ls: seq<string>)
    ensures |ls| <= |rest|
    ensures forall i :: 0 <= i < |ls| ==> IsLexeme(ls[i])
    decreases |rest|
  {
    var st := NextLexeme(rest);
    if st.lexeme.None? then []
    else
      NextLexemeShape(rest);
      [st.lexeme.value] + Lexemes(rest[st.consumed..])
  }

  // ---------------------------------------------------------------------
  // What one call returns

  /** The alphanumerics of a non-empty prefix: those of its first character,
      then those of the rest of the prefix. */
  lemma AlnumOnlyPrefix(s: string, n: nat)
    requires 1 <= n <= |s|
    ensures AlnumOnly(s[..n]) == (if IsAlnum(s[0]) then [s[0]] else []) + AlnumOnly(s[1..][..n - 1])
  {
    assert s[..n][0] == s[0];
    assert s[..n][1..] == s[1..][..n - 1];
  }

  /**
   * A returned lexeme is either the buffer followed by exactly the
   * alphanumerics of the characters the call moved over (everything else it
   * moved over was skipped), or, when the buffer was empty, the single
   * punctuation character the call ended on, with no alphanumeric before it.
   */
  lemma {:induction false} ScanSpan(rest: string, buf: string)
    requires AllAlnum(buf)
    ensures var st := Scan(rest, buf);
      st.lexeme.Some? ==>
        var l := st.lexeme.value;
        (l != [] && AllAlnum(l) && l == buf + AlnumOnly(rest[..st.consumed])) ||
        (buf == [] && 1 <= st.consumed && l == [rest[st.consumed - 1]] &&
         rest[st.consumed - 1] in Punctuation && AlnumOnly(rest[..st.consumed - 1]) == [])
    decreases |rest|
  {
    if rest != [] {
      var c := rest[0];
      var st := Scan(rest, buf);
      if IsAlnum(c) {
        ScanSpan(rest[1..], buf + [c]);
        AlnumOnlyPrefix(rest, st.consumed);
      } else if IsSpace(c) && buf != [] {
        AlnumOnlyPrefix(rest, 1);
      } else if c in Punctuation {
      } else {
        ScanSpan(rest[1..], buf);
        if st.lexeme.Some? {
          AlnumOnlyPrefix(rest, st.consumed);
          if 2 <= st.consumed {
            AlnumOnlyPrefix(rest, st.consumed - 1);
          }
        }
      }
    }
  }

  /** Every lexeme `next()` returns is non-empty and is alphanumeric or a
      single punctuation character; it never holds whitespace or a skipped
      character. */
  lemma NextLexemeShape(rest: string)
    ensures var st := NextLexeme(rest);
      st.lexeme.Some? ==>
        (IsLexeme(st.lexeme.value) &&
         forall i :: 0 <= i < |st.lexeme.value| ==>
           !IsSpace(st.lexeme.value[i]) && !IsJunk(st.lexeme.value[i]))
  {
    ScanSpan(rest, []);
  }

  /** Some character of `rest` ends the lexeme being built: a punctuation
      character, or a whitespace character once the buffer or the input
      before it holds an alphanumeric. */
  predicate Terminated(rest: string, buf: string) {
    exists j :: 0 <= j < |rest| &&
      (rest[j] in Punctuation || (IsSpace(rest[j]) && (buf != [] || HasAlnum(rest[..j]))))
  }

  /** A call returns nothing exactly when no character of the unread input
      ends a lexeme; a trailing alphanumeric run is then dropped. */
  lemma {:induction false} ScanNoneIff(rest: string, buf: string)
    ensures Scan(rest, buf).lexeme.None? <==> !Terminated(rest, buf)
    decreases |rest|
  {
    if rest != [] {
      var c := rest[0];
      if IsAlnum(c) {
        ScanNoneIff(rest[1..], buf + [c]);
        if Terminated(rest[1..], buf + [c]) {
          var k :| 0 <= k < |rest| - 1 && (rest[1..][k] in Punctuation || IsSpace(rest[1..][k]));
          assert rest[..k + 1][0] == c;
          assert HasAlnum(rest[..k + 1]);
          assert rest[k + 1] == rest[1..][k];
        }
        if Terminated(rest, buf) {
          var j :| 0 <= j < |rest| &&
            (rest[j] in Punctuation || (IsSpace(rest[j]) && (buf != [] || HasAlnum(rest[..j]))));
          assert j != 0;
          assert rest[1..][j - 1] == rest[j];
          assert Terminated(rest[1..], buf + [c]);
        }
      } else if IsSpace(c) && buf != [] {
        assert Terminated(rest, buf) by { assert rest[0] == c; }
      } else if c in Punctuation {
        assert Terminated(rest, buf) by { assert rest[0] == c; }
      } else {
        ScanNoneIff(rest[1..], buf);
        if Terminated(rest[1..], buf) {
          var k :| 0 <= k < |rest[1..]| &&
            (rest[1..][k] in Punctuation ||
             (IsSpace(rest[1..][k]) && (buf != [] || HasAlnum(rest[1..][..k]))));
          assert rest[k + 1] == rest[1..][k];
          if HasAlnum(rest[1..][..k]) {
            var i :| 0 <= i < k && IsAlnum(rest[1..][..k][i]);
            assert rest[..k + 1][i + 1] == rest[1..][..k][i];
          }
        }
        if Terminated(rest, buf) {
          var j :| 0 <= j < |rest| &&
            (rest[j] in Punctuation || (IsSpace(rest[j]) && (buf != [] || HasAlnum(rest[..j]))));
          assert j != 0;
          assert rest[1..][j - 1] == rest[j];
          if HasAlnum(rest[..j]) {
            var i :| 0 <= i < j && IsAlnum(rest[..j][i]);
            assert i != 0;
            assert rest[1..][..j - 1][i - 1] == rest[..j][i];
          }
          assert Terminated(rest[1..], buf);
        }
      }
    }
  }

  /** A call stops at the first character that ends a lexeme: nothing before
      the last character it consumed ends one. So a non-empty run is ended
      by its first whitespace or punctuation character, whatever kind of
      whitespace it is, and a call that returns a run consumes no
      punctuation at all, not even as its last character. */
  lemma {:induction false} StopsAtFirstTerminator(rest: string, buf: string)
    ensures var st := Scan(rest, buf);
      st.lexeme.Some? && 1 <= st.consumed ==> !Terminated(rest[..st.consumed - 1], buf)
    ensures var st := Scan(rest, buf);
      st.lexeme.Some? && AllAlnum(st.lexeme.value) ==>
        forall i :: 0 <= i < st.consumed ==> rest[i] !in Punctuation
    decreases |rest|
  {
    AlnumCallConsumesNoPunctuation(rest, buf);
    var st := Scan(rest, buf);
    if rest != [] && st.lexeme.Some? && 2 <= st.consumed {
      var c := rest[0];
      var p := rest[..st.consumed - 1];
      var q := p[1..];
      assert p[0] == c;
      assert q == rest[1..][..st.consumed - 2];
      if IsAlnum(c) {
        StopsAtFirstTerminator(rest[1..], buf + [c]);
        forall j | 0 <= j < |p|
          ensures !(p[j] in Punctuation || IsSpace(p[j]))
        {
          if 0 < j { assert p[j] == q[j - 1]; }
        }
      } else {
        StopsAtFirstTerminator(rest[1..], buf);
        forall j | 0 <= j < |p|
          ensures !(p[j] in Punctuation || (IsSpace(p[j]) && (buf != [] || HasAlnum(p[..j]))))
        {
          HasAlnumShift(p, j);
          if 0 < j { assert p[j] == q[j - 1]; }
        }
      }
    }
  }

  /** A call that returns a run of alphanumerics has consumed no punctuation
      character: punctuation met with a non-empty buffer is left unread. */
  lemma {:induction false} AlnumCallConsumesNoPunctuation(rest: string, buf: string)
    ensures var st := Scan(rest, buf);
      st.lexeme.Some? && AllAlnum(st.lexeme.value) ==>
        forall i :: 0 <= i < st.consumed ==> rest[i] !in Punctuation
    decreases |rest|
  {
    if rest != [] {
      var c := rest[0];
      var st := Scan(rest, buf);
      if IsAlnum(c) || (!(IsSpace(c) && buf != []) && c !in Punctuation) {
        var b := if IsAlnum(c) then buf + [c] else buf;
        AlnumCallConsumesNoPunctuation(rest[1..], b);
        assert st == Shift(Scan(rest[1..], b), 1);
        if st.lexeme.Some? && AllAlnum(st.lexeme.value) {
          forall i | 0 <= i < st.consumed ensures rest[i] !in Punctuation {
            if 0 < i { assert rest[i] == rest[1..][i - 1]; }
          }
        }
      } else if c in Punctuation && buf == [] {
        assert !AllAlnum([c]) by { assert [c][0] == c; }
      }
    }
  }

  /** An alphanumeric occurs in a prefix exactly when it is the first
      character or occurs in the rest of the prefix. */
  lemma HasAlnumShift(s: string, j: nat)
    requires 1 <= |s| && j <= |s|
    ensures HasAlnum(s[..j]) <==> 1 <= j && (IsAlnum(s[0]) || HasAlnum(s[1..][..j - 1]))
  {
    if HasAlnum(s[..j]) {
      var i :| 0 <= i < j && IsAlnum(s[..j][i]);
      if 0 < i { assert s[1..][..j - 1][i - 1] == s[..j][i]; }
    }
    if 1 <= j && HasAlnum(s[1..][..j - 1]) {
      var i :| 0 <= i < j - 1 && IsAlnum(s[1..][..j - 1][i]);
      assert s[..j][i + 1] == s[1..][..j - 1][i];
    }
    if 1 <= j && IsAlnum(s[0]) {
      assert s[..j][0] == s[0];
    }
  }

  /** Input made only of whitespace and skipped characters yields no lexeme. */
  lemma {:induction false} NoiseYieldsNothing(rest: string)
    requires forall i :: 0 <= i < |rest| ==> !IsAlnum(rest[i]) && rest[i] !in Punctuation
    ensures Lexemes(rest) == []
  {
    ScanNoneIff(rest, []);
  }

  /** When a run of alphanumerics is ended by something other than
      whitespace, that something is a punctuation character the call did not
      consume. */
  lemma {:induction false} ScanStopsBeforePunctuation(rest: string, buf: string)
    ensures var st := Scan(rest, buf);
      st.lexeme.Some? && AllAlnum(st.lexeme.value) ==>
        (1 <= st.consumed && IsSpace(rest[st.consumed - 1])) ||
        (st.consumed < |rest| && rest[st.consumed] in Punctuation)
    decreases |rest|
  {
    if rest != [] {
      var c := rest[0];
      if IsAlnum(c) {
        ScanStopsBeforePunctuation(rest[1..], buf + [c]);
      } else if IsSpace(c) && buf != [] {
      } else if c in Punctuation {
        if buf == [] {
          assert !AllAlnum([c]) by { assert [c][0] == c; }
        }
      } else {
        ScanStopsBeforePunctuation(rest[1..], buf);
      }
    }
  }

  /** Lookahead never consumes punctuation: a call that returns a run has
      consumed no punctuation character, and when the run is not ended by
      whitespace, the next call returns the punctuation character after it,
      alone. */
  lemma PunctuationLeftForNextCall(rest: string)
    ensures var st := NextLexeme(rest);
      st.lexeme.Some? && AllAlnum(st.lexeme.value) ==>
        forall i :: 0 <= i < st.consumed ==> rest[i] !in Punctuation
    ensures var st := NextLexeme(rest);
      st.lexeme.Some? && AllAlnum(st.lexeme.value) && !IsSpace(rest[st.consumed - 1]) ==>
        st.consumed < |rest| &&
        NextLexeme(rest[st.consumed..]) == Step(Some([rest[st.consumed]]), 1)
  {
    AlnumCallConsumesNoPunctuation(rest, []);
    ScanStopsBeforePunctuation(rest, []);
    var st := NextLexeme(rest);
    if st.lexeme.Some? && st.consumed < |rest| {
      assert rest[st.consumed..][0] == rest[st.consumed];
    }
  }

  // ---------------------------------------------------------------------
  // Successive calls

  /** Whitespace in front of the input changes nothing (it is skipped while
      the buffer is empty). */
  lemma LeadingSpaceSkipped(rest: string, c: char)
    requires IsSpace(c)
    ensures Lexemes([c] + rest) == Lexemes(rest)
  {
    var st := Scan(rest, []);
    assert ([c] + rest)[1..] == rest;
    assert NextLexeme([c] + rest) == Shift(st, 1);
    if st.lexeme.Some? {
      assert ([c] + rest)[st.consumed + 1..] == rest[st.consumed..];
    }
  }

  /** Scanning a run of alphanumerics only adds it to the buffer. */
  lemma {:induction false} ScanRun(w: string, tail: string, buf: string)
    requires AllAlnum(w)
    ensures Scan(w + tail, buf) == Shift(Scan(tail, buf + w), |w|)
    decreases |w|
  {
    if w != [] {
      assert (w + tail)[0] == w[0];
      assert (w + tail)[1..] == w[1..] + tail;
      ScanRun(w[1..], tail, buf + [w[0]]);
      assert buf + [w[0]] + w[1..] == buf + w;
    } else {
      assert w + tail == tail && buf + w == buf;
    }
  }

  /** The text a sequence of lexemes is written as: each followed by a space. */
  function Render(ls: seq<string>): string {
    if ls == [] then [] else ls[0] + " " + Render(ls[1..])
  }

  /**
   * Scanning text written from lexemes gives those lexemes back, and an
   * alphanumeric run at the very end of the input, with no whitespace or
   * punctuation after it, is dropped.
   */
  lemma {:induction false} LexemesOfRender(ls: seq<string>, w: string)
    requires forall i :: 0 <= i < |ls| ==> IsLexeme(ls[i])
    requires AllAlnum(w)
    ensures Lexemes(Render(ls) + w) == ls
    decreases |ls|
  {
    if ls == [] {
      assert Render(ls) + w == w;
      ScanRun(w, [], []);
      assert w + [] == w;
    } else {
      var l := ls[0];
      var r := Render(ls[1..]) + w;
      assert Render(ls) + w == l + ([' '] + r);
      LexemesOfRender(ls[1..], w);
      LexemesOfSpaced(l, ' ', r);
    }
  }

  /** A lexeme followed by any whitespace character is returned whole, and
      scanning goes on after that character. */
  lemma LexemesOfSpaced(l: string, c: char, r: string)
    requires IsLexeme(l) && IsSpace(c)
    ensures Lexemes(l + ([c] + r)) == [l] + Lexemes(r)
  {
    var s := l + ([c] + r);
    if AllAlnum(l) && |l| >= 1 {
      ScanRun(l, [c] + r, []);
      assert [] + l == l;
      assert ([c] + r)[0] == c;
      assert Scan([c] + r, l) == Step(Some(l), 1);
      assert NextLexeme(s) == Step(Some(l), |l| + 1);
      assert s[|l| + 1..] == r;
    } else {
      assert l == [l[0]] && l[0] in Punctuation;
      assert s[0] == l[0];
      assert NextLexeme(s) == Step(Some(l), 1);
      assert s[1..] == [c] + r;
      LeadingSpaceSkipped(r, c);
    }
  }

  /** A punctuation character at the very end of the input, with nothing
      after it, is still returned. */
  lemma {:induction false} LexemesOfRenderPunctuation(ls: seq<string>, p: char)
    requires forall i :: 0 <= i < |ls| ==> IsLexeme(ls[i])
    requires p in Punctuation
    ensures Lexemes(Render(ls) + [p]) == ls + [[p]]
    decreases |ls|
  {
    if ls == [] {
      assert Render(ls) + [p] == [p];
      assert NextLexeme([p]) == Step(Some([p]), 1);
      assert [p][1..] == [];
    } else {
      var l := ls[0];
      var r := Render(ls[1..]) + [p];
      assert Render(ls) + [p] == l + ([' '] + r);
      LexemesOfRenderPunctuation(ls[1..], p);
      LexemesOfSpaced(l, ' ', r);
      assert ls + [[p]] == [l] + (ls[1..] + [[p]]);
    }
  }

  lemma LexemesRoundTrip(ls: seq<string>)
    requires forall i :: 0 <= i < |ls| ==> IsLexeme(ls[i])
    ensures Lexemes(Render(ls)) == ls
  {
    LexemesOfRender(ls, []);
    assert Render(ls) + [] == Render(ls);
  }
}
