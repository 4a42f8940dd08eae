/**
 * The green-tree shapes the parse context reads and builds: tokens, node
 * kinds, error kinds and the children of a node. Only the kinds the parse
 * context itself inspects are named; every other kind is carried as an
 * opaque name.
 */
module Syntax {

  /** Lexical token kinds: the end-of-input sentinel, the lexer's error kind, and the rest. */
  datatype TokenKind = T_EOF | T_ERROR | T_OTHER(name: string)

  datatype Token = Token(kind: TokenKind, text: string)

  /** Syntactic node kinds; `N_ROOT` doubles as the "not yet sealed" placeholder. */
  datatype NodeKind = N_ROOT | N_OTHER(name: string)

  /** Parse error kinds; `PE_INVALID_CHAR` is the one the lexer's errors escalate into. */
  datatype ParseErrorKind = PE_INVALID_CHAR | PE_OTHER(name: string)

  /** A child of a green node: a consumed token, a nested node, or a zero-width error marker. */
  datatype GreenElement =
    | L_TOKEN(token: Token)
    | L_NODE(node: GreenNode)
    | L_ERROR(errorKind: ParseErrorKind)

  /** A node under construction or sealed; its kind and children are updated in place. */
  class GreenNode {
    var kind: NodeKind
    var children: seq<GreenElement>

    constructor (kind: NodeKind, children: seq<GreenElement>)
      ensures this.kind == kind && this.children == children
    {
      this.kind := kind;
      this.children := children;
    }
  }

  function LeafOf(e: GreenElement): seq<Token>
  {
    if e.L_TOKEN? then [e.token] else []
  }

  function ErrorOf(e: GreenElement): seq<ParseErrorKind>
  {
    if e.L_ERROR? then [e.errorKind] else []
  }

  /** The token leaves among `cs`, in order; nested nodes and error markers contribute none. */
  function Leaves(cs: seq<GreenElement>): seq<Token>
  {
    if |cs| == 0 then []
    else LeafOf(cs[0]) + Leaves(cs[1..])
  }

  /** The error markers among `cs`, in order. */
  function Errors(cs: seq<GreenElement>): seq<ParseErrorKind>
  {
    if |cs| == 0 then []
    else ErrorOf(cs[0]) + Errors(cs[1..])
  }

  lemma {:induction false} LeavesAppend(a: seq<GreenElement>, b: seq<GreenElement>)
    ensures Leaves(a + b) == Leaves(a) + Leaves(b)
  {
    if a == [] {
      assert a + b == b;
    } else {
      assert (a + b)[0] == a[0];
      assert (a + b)[1..] == a[1..] + b;
      LeavesAppend(a[1..], b);
      calc {
        Leaves(a + b);
        LeafOf(a[0]) + Leaves(a[1..] + b);
        LeafOf(a[0]) + (Leaves(a[1..]) + Leaves(b));
      }
    }
  }

  lemma {:induction false} ErrorsAppend(a: seq<GreenElement>, b: seq<GreenElement>)
    ensures Errors(a + b) == Errors(a) + Errors(b)
  {
    if a == [] {
      assert a + b == b;
    } else {
      assert (a + b)[0] == a[0];
      assert (a + b)[1..] == a[1..] + b;
      ErrorsAppend(a[1..], b);
      calc {
        Errors(a + b);
        ErrorOf(a[0]) + Errors(a[1..] + b);
        ErrorOf(a[0]) + (Errors(a[1..]) + Errors(b));
      }
    }
  }
}
