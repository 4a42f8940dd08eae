/**
 * Where the cursor lands when trivia is absorbed. The trivia classification
 * of token kinds is a parameter, the set `trivia` of trivial kinds; the only
 * thing assumed of it is that the end-of-input kind is not trivia.
 */
module Trivia {
  import opened Syntax

  /** A token list the parse context accepts, paired with a trivia classification it can use. */
  predicate WellFormed(tokens: seq<Token>, trivia: set<TokenKind>)
  {
    |tokens| >= 1 && tokens[|tokens| - 1].kind == T_EOF && T_EOF !in trivia
  }

  /** The first position at or after `i` holding a token that is not trivia. */
  function SkipTrivia(tokens: seq<Token>, trivia: set<TokenKind>, i: nat): (j: nat)
    requires WellFormed(tokens, trivia) && i < |tokens|
    ensures i <= j < |tokens|
    ensures tokens[j].kind !in trivia
    ensures forall k | i <= k < j :: tokens[k].kind in trivia
    decreases |tokens| - i
  {
    if tokens[i].kind in trivia then SkipTrivia(tokens, trivia, i + 1) else i
  }

  datatype Option<T> = None | Some(value: T)

  /**
   * Where `n` successive bumps from position `i` leave the cursor, or `None`
   * when one of them would have to start on the final end-of-input slot. A
   * bump consumes one token, then the trivia after it.
   */
  function BumpsEnd(tokens: seq<Token>, trivia: set<TokenKind>, i: nat, n: nat): (r: Option<nat>)
    requires WellFormed(tokens, trivia) && i < |tokens|
    ensures r.Some? ==> i + n <= r.value < |tokens|
    ensures r.Some? && n > 0 ==> tokens[r.value].kind !in trivia
    decreases n
  {
    if n == 0 then Some(i)
    else if i + 1 < |tokens| then BumpsEnd(tokens, trivia, SkipTrivia(tokens, trivia, i + 1), n - 1)
    else None
  }

  /** From position `i`, `n` successive bumps can all run. */
  predicate CanBumpMany(tokens: seq<Token>, trivia: set<TokenKind>, i: nat, n: nat)
    requires WellFormed(tokens, trivia) && i < |tokens|
  {
    BumpsEnd(tokens, trivia, i, n).Some?
  }

  /** The guard `bumpMany` asserts before its loop, as written. */
  predicate BumpManyGuardAsWritten(tokens: seq<Token>, index: int, count: int)
  {
    count >= 0 && index + count < |tokens|
  }

  /** Whenever `count` bumps can run, the guard as written holds too. */
  lemma CanBumpManyImpliesGuard(tokens: seq<Token>, trivia: set<TokenKind>, i: nat, n: nat)
    requires WellFormed(tokens, trivia) && i < |tokens|
    requires CanBumpMany(tokens, trivia, i, n)
    ensures BumpManyGuardAsWritten(tokens, i, n)
  {
  }

  /**
   * The guard as written lets through an input on which the loop fails: after
   * `x` the two spaces are absorbed, the cursor reaches the end-of-input
   * token, and the second bump's own assertion is violated.
   */
  lemma BumpManyGuardAsWrittenTooWeak()
    ensures
      var space := T_OTHER("T_SPACE");
      var tokens := [Token(T_OTHER("T_IDENT"), "x"), Token(space, " "), Token(space, " "), Token(T_EOF, "")];
      var trivia := {space};
      && WellFormed(tokens, trivia)
      && BumpManyGuardAsWritten(tokens, 0, 2)
      && SkipTrivia(tokens, trivia, 1) == 3
      && !CanBumpMany(tokens, trivia, 0, 2)
  {
  }

  /** Without trivia ahead of the cursor, the guard as written is exactly the right one. */
  lemma {:induction false} GuardExactWithoutTrivia(tokens: seq<Token>, trivia: set<TokenKind>, i: nat, n: nat)
    requires WellFormed(tokens, trivia) && i < |tokens|
    requires forall k | i < k < |tokens| :: tokens[k].kind !in trivia
    ensures BumpManyGuardAsWritten(tokens, i, n) <==> CanBumpMany(tokens, trivia, i, n)
    decreases n
  {
    if n > 0 && i + 1 < |tokens| {
      assert SkipTrivia(tokens, trivia, i + 1) == i + 1;
      GuardExactWithoutTrivia(tokens, trivia, i + 1, n - 1);
    }
  }
}
