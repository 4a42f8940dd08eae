# ParseContext: the parse-state cursor and green-tree builder of zoaride

This project models the parse context of the zoaride language's front end in
Dafny. The parse context is the object that grammar code calls while it
builds a lossless concrete syntax tree (a "green tree"). It holds:

- the token list produced by the lexer, read-only, whose last token has kind `T_EOF`;
- a cursor `index` into that list.

Grammar code calls the context to:

- consume tokens into mutable green nodes (`bump`, `bumpMany`), absorbing the trivia that follows each token;
- turn lexer `T_ERROR` tokens into `PE_INVALID_CHAR` error markers;
- open, wrap, attach to and seal nodes;
- check at the end that the whole input was consumed.

Files:

- `syntax.dfy` (module `Syntax`): token, node-kind and error-kind datatypes. It also holds the
  `GreenElement` child union (`L_TOKEN`, `L_NODE`, `L_ERROR`), the `GreenNode` class (its `kind`
  and `children` are updated in place), and `Leaves`/`Errors`, which list a node's token leaves and
  error markers.
- `consumption.dfy` (module `Consumption`): `Consumed`/`ConsumedAll` give the exact children that
  consuming a run of tokens appends. Its lemmas prove losslessness and the error-escalation shape.
- `trivia.dfy` (module `Trivia`): `SkipTrivia` (where absorbing trivia stops), `BumpsEnd` and
  `CanBumpMany` (where `count` bumps land, and whether they can all run), and the `bumpMany` guard
  finding below.
- `parse_context.dfy` (module `Parse`): the `ParseContext` class, with the source's fields and
  mutating methods. It also has two small clients: a parse of the empty input, and a flat parse
  that bumps until end of input.

The trivia classification `tokenIsTrivial` belongs to a module that is not part of this model.
Here it is a parameter: the finite set `trivia` of trivial token kinds, given to the constructor.
The one thing assumed of it is that `T_EOF` is not in it. Without that, absorbing trivia could run past the end.
Token, node and error kinds other than the ones the context inspects are carried as opaque names.

The source's `assert.ok`/`assert.equal` checks are method preconditions. The source's
`assertInvariants` is the class invariant `ParseContext.Valid()`: the token list is well formed and
`0 <= index < |tokens|`. The constructor establishes it, every method that moves the cursor keeps it,
and `Bump` ensures it where the source calls `assertInvariants`.

The code checks only that the LAST token is `T_EOF`. It does not check that no earlier token has
that kind. The model follows the code. So `AtEof()` means only "the current kind is `T_EOF`". The
guard `index + 1 < |tokens|` on `bump` means "the cursor is not on the final slot". `AtEof` ensures
that `!AtEof()` implies that guard. The client `ParseFlat` additionally requires the end-of-input
kind to be unique. Given that, stopping at `AtEof()` and calling `finish` succeed.

## Model

| member | source | states |
|---|---|---|
| Parse.ParseContext.constructor | zoaride-js/src/zl_parse_context.ts:31-36 | needs a non-empty token list whose last token is `T_EOF`; starts at index 0 with the invariant established |
| Parse.ParseContext.CurrentIndex | zoaride-js/src/zl_parse_context.ts:46-48 | returns the cursor, which is always a valid slot of the token list |
| Parse.ParseContext.AtEof | zoaride-js/src/zl_parse_context.ts:50-52 | holds iff the current kind is `T_EOF`; when it does not hold, a bump is permitted (`index + 1 < |tokens|`) |
| Parse.ParseContext.Next | zoaride-js/src/zl_parse_context.ts:57-59 | the current token's kind, read without changing state; on the last slot it is `T_EOF` |
| Parse.ParseContext.DoBump | zoaride-js/src/zl_parse_context.ts:64-79 | needs a non-final slot; appends the `L_TOKEN` leaf of `tokens[index]`, then `L_ERROR(PE_INVALID_CHAR)` exactly when that token is `T_ERROR`; advances the index by one |
| Parse.ParseContext.BumpTrivial | zoaride-js/src/zl_parse_context.ts:84-88 | moves the cursor to the first non-trivia token at or after it, and appends exactly the skipped tokens' children to the node |
| Parse.ParseContext.Bump | zoaride-js/src/zl_parse_context.ts:93-100 | needs a non-final slot; keeps the invariant; afterwards the current token is not trivia and every skipped token was; the node gains exactly the children of `tokens[old index .. new index)`, and its token leaves grow by exactly that slice |
| Parse.ParseContext.BumpMany | zoaride-js/src/zl_parse_context.ts:105-112 | given that `count` bumps can run, advances the index by at least `count`, to the position `count` bumps reach; the node gains exactly the children of `tokens[old index .. new index)`, and its token leaves grow by exactly that slice |
| Parse.ParseContext.StartNode | zoaride-js/src/zl_parse_context.ts:117-122 | a fresh unsealed node (`N_ROOT`) with no children |
| Parse.ParseContext.StartBefore | zoaride-js/src/zl_parse_context.ts:130-140 | a fresh unsealed node whose only child is `L_NODE` of the given node |
| Parse.ParseContext.StartRoot | zoaride-js/src/zl_parse_context.ts:145-152 | needs index 0; a fresh unsealed root holding exactly the leading trivia, and the cursor on the first non-trivia token |
| Parse.ParseContext.EndNode | zoaride-js/src/zl_parse_context.ts:154-158 | needs the node still `N_ROOT`; sets the kind, leaves children unchanged and returns the same node, so a second seal after a non-`N_ROOT` kind is refused |
| Parse.ParseContext.Attach | zoaride-js/src/zl_parse_context.ts:163-168 | appends exactly one `L_NODE` child; earlier children and the index are unchanged |
| Parse.ParseContext.AttachError | zoaride-js/src/zl_parse_context.ts:173-178 | appends exactly one `L_ERROR` child; earlier children and the index are unchanged |
| Parse.ParseContext.Finish | zoaride-js/src/zl_parse_context.ts:183-186 | needs the cursor on the final slot; returns the root unchanged, and the context is at end of input |
| Parse.ParseOnlyEof | zoaride-js/src/zl_parse_context.ts:145-152 | a token list of only `T_EOF` parses to a sealed root with no children and no error marker |
| Parse.ParseFlat | zoaride-js/src/zl_parse_context.ts:183-186 | bumping from `startRoot` until end of input reaches `finish`; the root's token leaves are the whole input except `T_EOF`, in order, and its error markers are exactly the escalated lexical errors |
| Trivia.SkipTrivia | zoaride-js/src/zl_parse_context.ts:84-88 | the stopping point of trivia absorption: not before the start, inside the list, on a non-trivia token, with every token before it trivia |
| Trivia.BumpsEnd | zoaride-js/src/zl_parse_context.ts:105-111 | when `n` bumps can run, they advance by at least `n`, stay inside the list, and (for `n > 0`) stop on a non-trivia token |
| Trivia.CanBumpManyImpliesGuard | zoaride-js/src/zl_parse_context.ts:105-107 | whenever `count` bumps can run, the guard `bumpMany` asserts holds too |
| Trivia.BumpManyGuardAsWrittenTooWeak | zoaride-js/src/zl_parse_context.ts:105-111 | an input that satisfies the asserted guard but on which the second bump's own precondition fails |
| Trivia.GuardExactWithoutTrivia | zoaride-js/src/zl_parse_context.ts:105-111 | with no trivia after the cursor, the asserted guard holds iff `count` bumps can run |
| Consumption.ConsumedAllLeaves | zoaride-js/src/zl_parse_context.ts:69-73 | losslessness: the token leaves that consumption appends are exactly the consumed tokens, in order |
| Consumption.ConsumedAllErrors | zoaride-js/src/zl_parse_context.ts:75-78 | consumption appends one `PE_INVALID_CHAR` marker per `T_ERROR` token and no other error marker |
| Consumption.ConsumedAllShape | zoaride-js/src/zl_parse_context.ts:75-78 | each error marker directly follows a `T_ERROR` leaf, each `T_ERROR` leaf is directly followed by one, and no node is appended |

## Findings

| source | as written | input that shows it | evidently intended | confidence | as-written member | corrected member |
|---|---|---|---|---|---|---|
| zoaride-js/src/zl_parse_context.ts:105-111 | `bumpMany` asserts `index + count < tokens.length` once, then calls `bump` `count` times; each bump also absorbs the trivia after its token, so it can move more than one position | tokens `x`, space, space, `T_EOF` with spaces trivia, index 0, count 2: the guard holds (0 + 2 < 4), the first bump lands on index 3, and the second bump's assertion 3 + 1 < 4 fails | the up-front check guarantees that all `count` bumps succeed | medium; not executed | Trivia.BumpManyGuardAsWrittenTooWeak | Parse.ParseContext.BumpMany |

The corrected `BumpMany` requires `CanBumpMany`, which holds exactly when each of the `count` bumps
starts before the final slot. The method is proved to run all its bumps under that requirement.
`CanBumpManyImpliesGuard` shows that the corrected requirement is at least as strong as the asserted
guard. `GuardExactWithoutTrivia` shows the two agree whenever no trivia follows the cursor.

## Left out

- `tokenIsTrivial` and the concrete token, node and error kind enumerations: they belong to a module
  that is not part of this model. The classification is a parameter, assumed only not to call `T_EOF` trivia.
- The source's runtime assertion failures: a violated `assert` becomes a precondition the caller
  must meet. So the model has no "defect" outcome to observe.
- Mutation after sealing: the source does not prevent `attach`/`attachError` on a sealed node, and
  the model does not either. Only `EndNode` checks the node is unsealed.
- Whole-tree text round-trip across nested nodes: nested nodes are heap objects reached through
  `L_NODE`, and the grammar that nests them is not part of this model. Losslessness is proved per
  node, for the tokens consumed into that node. The flat client shows it for a whole parse.
- Parse.ParseContext.BumpMany: takes `count` as a `nat` instead of checking `count >= 0`. Its requirement
  is the stronger `CanBumpMany` instead of the asserted guard, per the finding above.
- The language-server and debug-adapter sessions, and the build configuration: protocol I/O,
  process and socket management, with no parsing logic.
