/**
 * The parse state: a read-only token list ending in the end-of-input token,
 * a cursor into it, and the operations grammar code uses to consume tokens
 * into green nodes and to open, wrap, attach to and seal nodes.
 */
module Parse {
  import opened Syntax
  import opened Trivia
  import opened Consumption

  class ParseContext {
    /** The token list built by the lexer; never changed. */
    const tokens: seq<Token>
    /** The token kinds classified as trivia. */
    const trivia: set<TokenKind>
    /** The cursor: the position of the next token. */
    var index: nat

    /** The class invariant, checked by the source's `assertInvariants`. */
    ghost predicate Valid()
      reads this
    {
      WellFormed(tokens, trivia) && index < |tokens|
    }

    constructor (tokens: seq<Token>, trivia: set<TokenKind>)
      requires |tokens| >= 1 && tokens[|tokens| - 1].kind == T_EOF
      requires T_EOF !in trivia
      ensures Valid()
      ensures this.tokens == tokens && this.trivia == trivia && index == 0
    {
      this.tokens := tokens;
      this.trivia := trivia;
      index := 0;
    }

    function CurrentIndex(): (i: nat)
      requires Valid()
      reads this
      ensures i == index && i < |tokens|
    {
      index
    }

    /** The kind of the next token; always defined, since the list ends in end-of-input. */
    function Next(): (k: TokenKind)
      requires Valid()
      reads this
      ensures k == tokens[index].kind
      ensures index == |tokens| - 1 ==> k == T_EOF
    {
      tokens[index].kind
    }

    /** True at end of input; when false, a bump is allowed. */
    predicate AtEof()
      requires Valid()
      reads this
      ensures AtEof() <==> tokens[index].kind == T_EOF
      ensures !AtEof() ==> index + 1 < |tokens|
    {
      Next() == T_EOF
    }

    /** Consumes exactly the next token (trivia or not), escalating a lexical error. */
    method DoBump(node: GreenNode)
      requires Valid() && index + 1 < |tokens|
      modifies this`index, node`children
      ensures Valid() && index == old(index) + 1
      ensures node.children == old(node.children) + Consumed(tokens[old(index)])
    {
      var kind := Next();
      node.children := node.children + [L_TOKEN(tokens[index])];
      index := index + 1;
      if kind == T_ERROR {
        AttachError(node, PE_INVALID_CHAR);
      }
    }

    /** Consumes the run of trivia at the cursor into `node`. */
    method BumpTrivial(node: GreenNode)
      requires Valid()
      modifies this`index, node`children
      ensures Valid() && index == SkipTrivia(tokens, trivia, old(index))
      ensures node.children == old(node.children) + ConsumedAll(tokens[old(index)..index])
    {
      while Next() in trivia
        invariant Valid() && old(index) <= index
        invariant SkipTrivia(tokens, trivia, index) == SkipTrivia(tokens, trivia, old(index))
        invariant node.children == old(node.children) + ConsumedAll(tokens[old(index)..index])
        decreases |tokens| - index
      {
        ghost var before, was := index, node.children;
        DoBump(node);
        ConsumedAllSingle(tokens, before);
        ConsumedAllExtend(tokens, old(index), before, index, old(node.children), was, node.children);
      }
    }

    /**
     * Consumes the next token and the trivia after it into `node`. The end
     * token is never consumed, and the cursor stops on the first token after
     * the consumed one that is not trivia.
     */
    method Bump(node: GreenNode)
      requires Valid() && index + 1 < |tokens|
      modifies this`index, node`children
      ensures Valid() && index == SkipTrivia(tokens, trivia, old(index) + 1)
      ensures Next() !in trivia
      ensures forall k | old(index) < k < index :: tokens[k].kind in trivia
      ensures node.children == old(node.children) + ConsumedAll(tokens[old(index)..index])
      ensures Leaves(node.children) == Leaves(old(node.children)) + tokens[old(index)..index]
    {
      ghost var start, prefix := index, node.children;
      DoBump(node);
      ghost var middle, mid := index, node.children;
      ConsumedAllSingle(tokens, start);
      BumpTrivial(node);
      ConsumedAllExtend(tokens, start, middle, index, prefix, mid, node.children);
      ConsumedAllLeavesAfter(prefix, tokens[start..index]);
    }

    /** Bumps `count` times into `node`. */
    method BumpMany(node: GreenNode, count: nat)
      requires Valid() && CanBumpMany(tokens, trivia, index, count)
      modifies this`index, node`children
      ensures Valid() && BumpsEnd(tokens, trivia, old(index), count) == Some(index)
      ensures index >= old(index) + count
      ensures node.children == old(node.children) + ConsumedAll(tokens[old(index)..index])
      ensures Leaves(node.children) == Leaves(old(node.children)) + tokens[old(index)..index]
    {
      ghost var start, prefix := index, node.children;
      for i := 0 to count
        invariant Valid() && start <= index
        invariant BumpsEnd(tokens, trivia, index, count - i) == BumpsEnd(tokens, trivia, start, count)
        invariant node.children == prefix + ConsumedAll(tokens[start..index])
      {
        ghost var before, was := index, node.children;
        Bump(node);
        ConsumedAllExtend(tokens, start, before, index, prefix, was, node.children);
      }
      ConsumedAllLeavesAfter(prefix, tokens[start..index]);
    }

    /** A new, unsealed, empty node. */
    method StartNode() returns (node: GreenNode)
      ensures fresh(node) && node.kind == N_ROOT && node.children == []
    {
      node := new GreenNode(N_ROOT, []);
    }

    /** A new, unsealed node whose only child is `childNode`, so that it can become its parent. */
    method StartBefore(childNode: GreenNode) returns (node: GreenNode)
      ensures fresh(node) && node.kind == N_ROOT && node.children == [L_NODE(childNode)]
    {
      node := new GreenNode(N_ROOT, [L_NODE(childNode)]);
    }

    /** Opens the root node at the start of input and absorbs the leading trivia into it. */
    method StartRoot() returns (node: GreenNode)
      requires Valid() && index == 0
      modifies this`index
      ensures Valid() && fresh(node) && node.kind == N_ROOT
      ensures index == SkipTrivia(tokens, trivia, 0)
      ensures Next() !in trivia
      ensures node.children == ConsumedAll(tokens[..index])
    {
      node := StartNode();
      BumpTrivial(node);
    }

    /** Seals `node` with its kind; a node already sealed with another kind is refused. */
    method EndNode(node: GreenNode, nodeKind: NodeKind) returns (r: GreenNode)
      requires node.kind == N_ROOT
      modifies node`kind
      ensures r == node && node.kind == nodeKind && node.children == old(node.children)
    {
      node.kind := nodeKind;
      r := node;
    }

    /** Appends `childNode` as the last child of `parentNode`. */
    method Attach(parentNode: GreenNode, childNode: GreenNode)
      modifies parentNode`children
      ensures parentNode.children == old(parentNode.children) + [L_NODE(childNode)]
      ensures index == old(index)
    {
      parentNode.children := parentNode.children + [L_NODE(childNode)];
    }

    /** Appends a zero-width error marker as the last child of `node`. */
    method AttachError(node: GreenNode, errorKind: ParseErrorKind)
      modifies node`children
      ensures node.children == old(node.children) + [L_ERROR(errorKind)]
      ensures index == old(index)
    {
      node.children := node.children + [L_ERROR(errorKind)];
    }

    /** Ends the parse: the whole input must have been consumed. */
    method Finish(root: GreenNode) returns (r: GreenNode)
      requires Valid() && index == |tokens| - 1
      ensures r == root && AtEof()
    {
      r := root;
    }
  }

  /**
   * A parse of a list holding only the end-of-input token: the root has no
   * children at all, in particular no error marker.
   */
  method ParseOnlyEof(eof: Token, trivia: set<TokenKind>, rootKind: NodeKind) returns (root: GreenNode)
    requires eof.kind == T_EOF && T_EOF !in trivia
    ensures root.kind == rootKind && root.children == []
  {
    var cx := new ParseContext([eof], trivia);
    var node := cx.StartRoot();
    node := cx.EndNode(node, rootKind);
    root := cx.Finish(node);
  }

  /**
   * The simplest grammar on top of the context: bump until end of input.
   * When only the last token is the end-of-input kind, `Finish` is reached
   * and the root's token leaves are the whole input except the end token.
   */
  method ParseFlat(tokens: seq<Token>, trivia: set<TokenKind>, rootKind: NodeKind) returns (root: GreenNode)
    requires |tokens| >= 1 && tokens[|tokens| - 1].kind == T_EOF && T_EOF !in trivia
    requires forall k | 0 <= k < |tokens| - 1 :: tokens[k].kind != T_EOF
    ensures root.kind == rootKind
    ensures Leaves(root.children) == tokens[..|tokens| - 1]
    ensures EscalatedShape(root.children)
  {
    var cx := new ParseContext(tokens, trivia);
    var node := cx.StartRoot();
    while !cx.AtEof()
      invariant cx.Valid() && cx.tokens == tokens && cx.trivia == trivia
      invariant node.kind == N_ROOT
      invariant node.children == ConsumedAll(tokens[..cx.index])
      decreases |tokens| - cx.index
    {
      ghost var before, was := cx.index, node.children;
      cx.Bump(node);
      ConsumedAllExtendPrefix(tokens, before, cx.index, was, node.children);
    }
    assert cx.index == |tokens| - 1;
    ghost var consumed := tokens[..cx.index];
    ConsumedAllLeaves(consumed);
    ConsumedAllShape(consumed);
    node := cx.EndNode(node, rootKind);
    root := cx.Finish(node);
  }
}
