# tyr lexical front end, modelled in Dafny

This project models the front end of the `tyr` compiler in `main.cpp`. Two parts are modelled:

- **The tokenizer.** `Tokenizer::next` scans one lexeme from a character buffer bounded by an explicit length, moving a cursor `m_pos` forward. `Tokenizer::tokenize` calls `next()` until it returns nothing, classifies each lexeme into a token, and then `reset()` puts the cursor back to 0.
- **The parser's token cursor.** `Parser::next` peeks at the current token; `Parser::consume` returns it and moves past it.

Layout:

- `wrappers.dfy`: `Option`, standing for `std::optional`.
- `tokens.dfy`: `TokenType` and `Token`, a kind plus an optional payload.
- `scanner.dfy`: one call of `next()` as a pure function of the unread input (`Scan`, `NextLexeme`), the lexemes of successive calls (`Lexemes`), and the lemmas about them.
- `classify.dfy`: the priority chain of `tokenize()` (`Classify`), its inverse (`Spelling`), the token sequence of a whole scan (`TokensOf`), and the round trip.
- `tokenizer.dfy`: the `Tokenizer` class. Its fields are `source`, `length` and the cursor `pos`. Its methods `Next`, `Reset` and `Tokenize` are imperative, and each is proved against the functions above.
- `parser.dfy`: the `Parser` class with its cursor methods.
- `examples.dfy`: concrete inputs and the tokens they produce.

Character classes are ASCII. Alphanumeric means `0-9`, `a-z` and `A-Z`. Whitespace means space, tab, newline, vertical tab, form feed and carriage return.

Two facts about the code shape the model:

- `Parser::parse` is an empty stub, so only the token cursor is modelled.
- `tokenize()` starts from the current cursor, not from 0, so `Tokenizer.Tokenize` is specified from whatever the cursor is. The cursor is 0 after construction and after every `tokenize()`, so every call scans the whole window.

## Model

| member | source | states |
|---|---|---|
| Scanner.Scan | main.cpp:91-111 | One pass of `next()`'s loop, taking its branches in the source's order. The punctuation set is `Punctuation`, the `constraints` set of main.cpp:118. A pass never moves the cursor past the length. A pass that returns nothing runs to the end of the input. A pass that returns a lexeme from an empty buffer has moved at least one character. |
| Scanner.NextLexeme | main.cpp:87-112 | One call of `next()`: the cursor stays within the input. Returning nothing means it reached the end. Returning a lexeme means it advanced by at least one, which is what makes `tokenize()`'s loop terminate. |
| Scanner.ScanSpan | main.cpp:93-104 | A returned lexeme is one of two things. Either it is the buffer followed by exactly the alphanumerics of the characters passed over, non-empty and all alphanumeric. Or the buffer was empty and it is the single punctuation character the call stopped on, with no alphanumeric before it. |
| Scanner.NextLexemeShape | main.cpp:93-105 | Every lexeme `next()` returns is non-empty. It is either all alphanumeric or one character of `( ) { } ;`. It never holds whitespace or a skipped character. |
| Scanner.ScanNoneIff | main.cpp:88-111 | A call returns nothing exactly when no character of the unread input ends a lexeme. A character ends a lexeme if it is punctuation, or whitespace after the buffer or an earlier character held an alphanumeric. Both directions are proved. So a trailing unterminated run is dropped. |
| Scanner.StopsAtFirstTerminator | main.cpp:96-104 | A call stops at the first character that ends a lexeme. No character before the last one it consumed is punctuation, or whitespace following an alphanumeric, so any whitespace character, including tab and newline, ends a non-empty run. A call that returns a run has consumed no punctuation at all, the last consumed character included. |
| Scanner.AlnumCallConsumesNoPunctuation | main.cpp:99-104 | A call that returns an alphanumeric run has consumed no punctuation character: punctuation met with a non-empty buffer is returned before and left unread. |
| Scanner.NoiseYieldsNothing | main.cpp:96-108 | Input with no alphanumeric and no punctuation yields no lexemes. Whitespace met with an empty buffer fails the test at line 96, and it and every other such character are skipped by the final `else`. |
| Scanner.ScanStopsBeforePunctuation | main.cpp:99-104 | An alphanumeric lexeme not ended by consumed whitespace is followed by an unconsumed punctuation character. |
| Scanner.PunctuationLeftForNextCall | main.cpp:99-104 | Lookahead never consumes punctuation. A call that returns a run consumed none. When the run is ended by punctuation, the cursor stops on it, and the next call returns it alone, advancing by one. |
| Scanner.Lexemes | main.cpp:52 | The lexemes of successive calls of `next()`, up to the first call that returns nothing. Every one is well shaped: a non-empty alphanumeric run or a single punctuation character. Each call that returns one moves the cursor, so there are at most as many lexemes as input characters. |
| Scanner.LeadingSpaceSkipped | main.cpp:96-107 | Whitespace met with an empty buffer fails the test at line 96 and is skipped by the final `else`, so it changes nothing and is never turned into a lexeme. |
| Scanner.ScanRun | main.cpp:93-95 | Scanning an alphanumeric run only appends it to the buffer and advances the cursor by its length. |
| Scanner.LexemesOfSpaced | main.cpp:93-102 | A lexeme followed by any whitespace character is returned whole, and the scan resumes right after that character. |
| Scanner.LexemesOfRender | main.cpp:87-112 | Scanning text written from lexemes, each followed by a space, gives those lexemes back. An alphanumeric run at the very end of the input is dropped. |
| Scanner.LexemesOfRenderPunctuation | main.cpp:99-102 | A punctuation character at the very end of the input, with nothing after it, is still returned, unlike a final alphanumeric run. |
| Scanner.LexemesRoundTrip | main.cpp:87-112 | `Lexemes(Render(ls)) == ls` for every sequence of well-shaped lexemes. |
| Classification.Classify | main.cpp:53-73 | The priority chain, kind by kind, in both directions. `fun` is `Func` and `ret` is `Ret`. An all-digit lexeme is `LitInt`. An alphanumeric lexeme that is neither a keyword nor all digits is `Ident`. A payload, when present, equals the lexeme, and every token is well formed. There is no token exactly when the lexeme is neither alphanumeric nor a single punctuation character. Each single punctuation character gets a token spelled as itself, which fixes the five punctuation kinds. |
| Classification.ClassifyLexeme | main.cpp:53-73 | Classification is total on lexemes. Each lexeme becomes a canonical token that is spelled as the lexeme, so no branch ever drops one. |
| Classification.ClassifySpelling | main.cpp:53-73 | Classification inverts spelling on every canonical token. `Classify` and `Spelling` are inverse bijections between lexemes and canonical tokens. |
| Classification.ClassifyExamples | main.cpp:67-73 | `"42"` is `LitInt("42")`. `"4a"` and `"main"` are identifiers with their text as payload. |
| Classification.Emit | main.cpp:53-73 | One pass of the chain pushes at most one token. It pushes none exactly when the lexeme is neither alphanumeric nor a single punctuation character. For every lexeme it pushes one canonical token that spells the lexeme. |
| Classification.TokensOf | main.cpp:48-82 | The tokens of a whole scan. No lexeme is dropped: there is exactly one token per lexeme. |
| Classification.ClassifyAllLexemes | main.cpp:53-73 | Classifying a sequence of lexemes yields one canonical token per lexeme, in order, each spelled as its lexeme. |
| Classification.TokensOfCanonical | main.cpp:13-28 | Every token of a scan is canonical and well formed: a payload exactly for `ident` and `lit_int`. Each token spells the lexeme at the same place. |
| Classification.ClassifyAllSpellAll | main.cpp:53-73 | Classifying the spellings of canonical tokens gives the tokens back, and each spelling is a lexeme. |
| Classification.TokensRoundTrip | main.cpp:48-82 | Tokenizing the text of canonical tokens, each followed by a space, returns exactly those tokens. |
| Tokenizing.Tokenizer.constructor | main.cpp:45-46 | A new tokenizer holds the buffer and length with the cursor at 0. The length must not exceed the buffer, since `at()` is never out of bounds. |
| Tokenizing.Tokenizer.Next | main.cpp:87-112 | The imperative scan loop returns exactly the lexeme of `NextLexeme` on the unread input. The cursor moves by exactly its `consumed` count. So the cursor never moves backwards, stays within max(length, 0), and advances on every returned lexeme. |
| Tokenizing.Tokenizer.Reset | main.cpp:114 | The cursor is back at 0, and the unread input is the whole window again. |
| Tokenizing.Tokenizer.Tokenize | main.cpp:48-82 | The tokens returned are `TokensOf` the unread input, classified in priority order. The cursor ends at 0. |
| Tokenizing.TokenizeTwice | main.cpp:80 | Because `tokenize()` ends with `reset()`, two calls on one tokenizer return identical token sequences: those of the whole window. |
| Parsing.Parser.constructor | main.cpp:125 | A new parser holds the token vector with the cursor at 0, so every token remains. |
| Parsing.Parser.Next | main.cpp:130-135 | Peek returns the first remaining token, or nothing exactly when none remain. It changes nothing. |
| Parsing.Parser.Consume | main.cpp:137-142 | Consume returns the same token peek would. It removes exactly that token from the remaining ones by moving the cursor by one. With none left, it returns nothing and the cursor stays put. |
| Examples.BareReturnSpelling | main.cpp:13-28 | The eight tokens of `fun main ( ) { ret ; }` are canonical and spell its eight lexemes. |
| Examples.MainWithBareReturn | main.cpp:48-82 | `fun main ( ) { ret ; } ` tokenizes to `func, ident "main", (, ), {, ret, ;, }`. |
| Examples.MainWithBareReturnUnspaced | main.cpp:48-82 | `fun main ( ) { ret ; }` with no trailing space gives the same eight tokens: the final `}` needs no terminator. |
| Examples.ReturnLiteral | main.cpp:53-73 | `ret 42 ; x` tokenizes to `ret, lit_int "42", ;`. The trailing `x` is dropped. |
| Examples.NoiseOnly | main.cpp:106-107 | `@@@ $$$` tokenizes to nothing. |

## Left out

- `Tokenizer::has_main_func` and `m_has_main_func` (main.cpp:74-76, 84, 119): the test reads `prev.type`, but `prev` is declared and never assigned, so the flag depends on an indeterminate value. The flag is also never cleared by `reset()`.
- `Parser::parse` and the AST structs `NodeStmt`, `NodeMain`, `NodeProg` (main.cpp:30-41, 127): the function has an empty body and the structs are empty, so there is no parsing behaviour to model.
- `print` (main.cpp:148-185): console output only.
- `main` (main.cpp:187-219): file loading and command-line handling are I/O. The model takes the buffer and its length as parameters.
- `std::isalnum` and `std::isspace` depend on the locale and on the sign of `char`. They are modelled as ASCII predicates.
- `std::execution::seq` in the two `std::all_of` calls is an execution policy with no effect on the result.
- The `std::out_of_range` exception of `std::string::at` when the length exceeds the buffer: this is a precondition `length <= |source|` on the constructor. A negative length is allowed and gives an empty window.
- Integer widths: `m_pos` and `m_length` are `int` and the parser's `m_pos` is `size_t`. The cursors never exceed the buffer's or the vector's size, so no wrap-around can occur and none is modelled.
