/**
 * What consuming tokens appends to a node: one `L_TOKEN` leaf per token, and
 * right after the leaf of a `T_ERROR` token an `L_ERROR(PE_INVALID_CHAR)`
 * marker, so that lexical errors surface in the tree.
 */
module Consumption {
  import opened Syntax

  /** The children appended when the single token `t` is consumed. */
  function Consumed(t: Token): seq<GreenElement>
  {
    [L_TOKEN(t)] + (if t.kind == T_ERROR then [L_ERROR(PE_INVALID_CHAR)] else [])
  }

  /** The children appended when the tokens `ts` are consumed one after another. */
  function ConsumedAll(ts: seq<Token>): seq<GreenElement>
  {
    if |ts| == 0 then [] else Consumed(ts[0]) + ConsumedAll(ts[1..])
  }

  /** The number of tokens of `ts` whose kind is the lexer's error kind. */
  function ErrorTokenCount(ts: seq<Token>): nat
  {
    if |ts| == 0 then 0 else (if ts[0].kind == T_ERROR then 1 else 0) + ErrorTokenCount(ts[1..])
  }

  /**
   * The shape consumption leaves behind: no nested nodes, every error marker is
   * an invalid-character marker directly after the leaf of an error token, and
   * every error token's leaf is directly followed by such a marker.
   */
  predicate EscalatedShape(cs: seq<GreenElement>)
  {
    && (|cs| > 0 ==> cs[0].L_TOKEN?)
    && (forall p | 0 <= p < |cs| :: !cs[p].L_NODE?)
    && (forall p | 0 <= p < |cs| && cs[p].L_ERROR? ::
          0 < p && cs[p].errorKind == PE_INVALID_CHAR
          && cs[p - 1].L_TOKEN? && cs[p - 1].token.kind == T_ERROR)
    && (forall p | 0 <= p < |cs| && cs[p].L_TOKEN? && cs[p].token.kind == T_ERROR ::
          p + 1 < |cs| && cs[p + 1] == L_ERROR(PE_INVALID_CHAR))
  }

  /** Consuming one token and then another is consuming both. */
  lemma {:induction false} ConsumedAllAppend(a: seq<Token>, b: seq<Token>)
    ensures ConsumedAll(a + b) == ConsumedAll(a) + ConsumedAll(b)
  {
    if a == [] {
      assert a + b == b;
    } else {
      assert (a + b)[1..] == a[1..] + b;
      ConsumedAllAppend(a[1..], b);
    }
  }

  /** Consuming the run `ts[i..i+1]` is consuming the single token `ts[i]`. */
  lemma ConsumedAllSingle(ts: seq<Token>, i: nat)
    requires i < |ts|
    ensures ConsumedAll(ts[i..i + 1]) == Consumed(ts[i])
  {
  }

  /** Consuming the tokens of `ts` from `before` to `after` extends a run that covered `start` to `before`. */
  lemma ConsumedAllExtend(ts: seq<Token>, start: nat, before: nat, after: nat, prefix: seq<GreenElement>,
                          was: seq<GreenElement>, now: seq<GreenElement>)
    requires start <= before <= after <= |ts|
    requires was == prefix + ConsumedAll(ts[start..before])
    requires now == was + ConsumedAll(ts[before..after])
    ensures now == prefix + ConsumedAll(ts[start..after])
  {
    var left, right := ts[start..before], ts[before..after];
    assert left + right == ts[start..after];
    ConsumedAllAppend(left, right);
    ConcatAssociative(prefix, ConsumedAll(left), ConsumedAll(right));
  }

  lemma ConcatAssociative(a: seq<GreenElement>, b: seq<GreenElement>, c: seq<GreenElement>)
    ensures (a + b) + c == a + (b + c)
  {
  }

  /** The same extension, for runs that start at the beginning of `ts`. */
  lemma ConsumedAllExtendPrefix(ts: seq<Token>, before: nat, after: nat, was: seq<GreenElement>, now: seq<GreenElement>)
    requires before <= after <= |ts|
    requires was == ConsumedAll(ts[..before])
    requires now == was + ConsumedAll(ts[before..after])
    ensures now == ConsumedAll(ts[..after])
  {
    var left, right := ts[..before], ts[before..after];
    assert left + right == ts[..after];
    ConsumedAllAppend(left, right);
  }

  /** Losslessness: the token leaves of consumed children are exactly the consumed tokens, in order. */
  lemma {:induction false} ConsumedAllLeaves(ts: seq<Token>)
    ensures Leaves(ConsumedAll(ts)) == ts
  {
    if ts != [] {
      var head := Consumed(ts[0]);
      LeavesAppend(head, ConsumedAll(ts[1..]));
      ConsumedAllLeaves(ts[1..]);
      assert head[1..] == (if ts[0].kind == T_ERROR then [L_ERROR(PE_INVALID_CHAR)] else []);
      assert Leaves(head) == [ts[0]];
    }
  }

  /** Losslessness for a node: consuming `ts` after `prefix` extends its token leaves by exactly `ts`. */
  lemma ConsumedAllLeavesAfter(prefix: seq<GreenElement>, ts: seq<Token>)
    ensures Leaves(prefix + ConsumedAll(ts)) == Leaves(prefix) + ts
  {
    LeavesAppend(prefix, ConsumedAll(ts));
    ConsumedAllLeaves(ts);
  }

  /** Consumption adds one invalid-character marker per error token and no other error marker. */
  lemma {:induction false} ConsumedAllErrors(ts: seq<Token>)
    ensures |Errors(ConsumedAll(ts))| == ErrorTokenCount(ts)
    ensures forall e | e in Errors(ConsumedAll(ts)) :: e == PE_INVALID_CHAR
  {
    if ts != [] {
      var head := Consumed(ts[0]);
      ErrorsAppend(head, ConsumedAll(ts[1..]));
      ConsumedAllErrors(ts[1..]);
      assert head[1..] == (if ts[0].kind == T_ERROR then [L_ERROR(PE_INVALID_CHAR)] else []);
      if ts[0].kind == T_ERROR {
        assert head[1..][1..] == [];
        assert Errors(head) == [PE_INVALID_CHAR];
      } else {
        assert Errors(head) == [];
      }
    }
  }

  /** Gluing two well-shaped runs of children gives a well-shaped run. */
  lemma EscalatedShapeAppend(a: seq<GreenElement>, b: seq<GreenElement>)
    requires EscalatedShape(a) && EscalatedShape(b)
    ensures EscalatedShape(a + b)
  {
  }

  /**
   * Lexical error escalation: in consumed children an error marker appears
   * exactly after each error token's leaf, and nothing else produces one.
   */
  lemma {:induction false} ConsumedAllShape(ts: seq<Token>)
    ensures EscalatedShape(ConsumedAll(ts))
  {
    if ts != [] {
      var head := Consumed(ts[0]);
      assert EscalatedShape(head);
      ConsumedAllShape(ts[1..]);
      EscalatedShapeAppend(head, ConsumedAll(ts[1..]));
    }
  }
}
