/**
 * The token cursor of `Parser` (main.cpp:123-146): `next()` peeks at the
 * token under the cursor, `consume()` returns it and moves past it.
 */
module Parsing {
  import opened Wrappers
  import opened Tokens

  class Parser {
    const tokens: seq<Token>
    var pos: nat

    ghost predicate Valid()
      reads this
    {
      pos <= |tokens|
    }

    /** The tokens the cursor has not passed yet. */
    ghost function Remaining(): seq<Token>
      reads this
      requires Valid()
    {
      tokens[pos..]
    }

    constructor (tokens: seq<Token>)
      ensures Valid() && this.tokens == tokens && pos == 0
      ensures Remaining() == tokens
    {
      this.tokens := tokens;
      pos := 0;
    }

    /** Peek (main.cpp:130-135): the first remaining token, or nothing when
        none remain; the cursor does not move. */
    method Next() returns (t: Option<Token>)
      requires Valid()
      ensures t.None? <==> Remaining() == []
      ensures t.Some? ==> t.value == Remaining()[0]
    {
      if pos >= |tokens| {
        return None;
      }
      return Some(tokens[pos]);
    }

    /** Consume (main.cpp:137-142): the token `Next` would return, after
        which exactly that token is no longer remaining; with none left,
        nothing changes. */
    method Consume() returns (t: Option<Token>)
      requires Valid()
      modifies this`pos
      ensures Valid()
      ensures t.None? <==> old(Remaining()) == []
      ensures t.Some? ==> t.value == old(Remaining())[0] && Remaining() == old(Remaining())[1..]
      ensures t.None? ==> pos == old(pos)
      ensures t.Some? ==> pos == old(pos) + 1
    {
      if pos >= |tokens| {
        return None;
      }
      t := Some(tokens[pos]);
      pos := pos + 1;
    }
  }
}
