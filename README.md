# The `in` operator rewrite of decaffeinate, in Dafny

decaffeinate turns CoffeeScript into JavaScript by queueing text edits
against the original source. Its `InOpPatcher` handles the membership
operator. `a in b` becomes `b.includes(a)`, and `a not in b` becomes
`!b.includes(a)`. The right operand, the receiver, may be wrapped in
`Array.from(...)` or parenthesised. When an operand is impure, the left
operand is hoisted into a `needle` temporary. The result is then
`(needle = a, b.includes(needle))`, so `a` runs exactly once and before `b`.

The project has three modules.

- `Tokens` (`tokens.dfy`): a lexer token reduced to its type and span. The
  operator token has type `Relation`.
- `TextEdits` (`text_edits.dfy`): the edit buffer the patchers write into.
  - Edits are logged in call order, against offsets of the original text.
  - `Render` composes them offset by offset. Text inserted at `p` follows
    the text inserted earlier at `p`.
  - A removal of `[s, e)` drops the original characters of the range. It
    also drops what was inserted earlier at offsets `s < p <= e`. Text
    inserted at `s` itself, or inserted later, survives.
  - `TextBuffer` is a class whose methods append to the log.
- `InOp` (`in_op_patcher.dfy`): the rule itself.
  - Operand shapes form the closed datatype `Shape`, which stands for the
    source's `instanceof` tests.
  - `ShouldWrapInArrayFrom`, `RhsNeedsParens`, `StatementNeedsParens` and
    `OperatorTokenPredicate` are the policy functions.
  - `InPlaceEdits` and `ExtractedEdits` are the exact edit sequences of the
    two paths, as functions of the prior log.
  - `InPlaceText` and `ExtractedText` are the texts the two paths are meant
    to produce.
  - The class `InOpPatcher` holds the `negated` flag and a reference to the
    buffer. Its methods issue the edits step by step, as the source does.

The main theorems are `RenderInPlace` and `RenderExtracted`. On a fresh
buffer, the queued edits render as the original text with one span
replaced:

- on the in-place path, `[!]RECV.includes(L)` replaces the span from the
  left operand's start to the right operand's end;
- on the extraction path, `(needle = L, [!]RECV.includes(needle))` replaces
  the span from the node's start to the right operand's end.

`RECV` is the same receiver on both paths (`Receiver`). On the extraction
path it is assembled from separate insertions of `!`, `Array.from`, `(`,
the right code and `)`. Whatever the right operand's own `patch()` inserted
on the in-place path is erased by the later removal. Only the spliced
`rightCode` remains.

The rule adds at most one pair of parentheses around the receiver (lines
44-48 and 87-98). For `x in (a or b)`, the expected output
`Array.from((a || b)).includes(x)` gets its inner pair from the right
operand's own code, which keeps the parentheses of the CoffeeScript source.
The model follows the code here. `ReceiverForms` states the single pair.

## Model

| member | source | states |
|---|---|---|
| InOp.InOpPatcher.constructor | src/stages/main/patchers/InOpPatcher.js:21-24 | `negated` starts equal to the node's `isNot`, and no `negate()` has been counted yet |
| InOp.InOpPatcher.Negate | src/stages/main/patchers/InOpPatcher.js:26-28 | flips `negated`; afterwards `negated` is `isNot` when the number of calls so far is even and its inverse when it is odd |
| InOp.NegationParity | src/stages/main/patchers/InOpPatcher.js:23-28 | after any number of flips, `negated` depends only on the parity of that number |
| InOp.OperatorTokenPredicate | src/stages/main/patchers/InOpPatcher.js:30-32 | a token is the operator exactly when its type is `Relation` |
| InOp.InOpPatcher.PatchAsExpression | src/stages/main/patchers/InOpPatcher.js:37-69 | queues the extraction path's edits when either operand is impure and the in-place edits otherwise; on a fresh buffer the text becomes the source with the rewritten span in place; the patcher stays valid |
| InOp.InPlaceAt | src/stages/main/patchers/InOpPatcher.js:43-68 | after the in-place edits: `!` then `RECV.includes(` then the left code stand at the left operand's start, `)` stands at its end, nothing else is inserted, and exactly the characters from the left operand's start to the right operand's end are gone |
| InOp.RenderInPlace | src/stages/main/patchers/InOpPatcher.js:50-68 | the in-place edits render as the source with `[left.outerStart, right.outerEnd)` replaced by `[!]RECV.includes(L)`: the operator and the right operand's text are gone and the left code appears once |
| InOp.InOpPatcher.PatchWithLhsExtracted | src/stages/main/patchers/InOpPatcher.js:71-100 | queues exactly the extraction path's edits in call order; on a fresh buffer the text becomes the source with `(needle = L, [!]RECV.includes(needle))` in place of the node |
| InOp.InOpPatcher.PatchRepeatable | src/stages/main/patchers/InOpPatcher.js:75 | the left operand is replaced by `needle = ` followed by its code, and the reference returned is `needle` |
| InOp.ExtractedAt | src/stages/main/patchers/InOpPatcher.js:71-99 | after the extraction edits, each offset carries exactly its inserted text. `(` is at the node's start and `needle = L` at the left operand. `, ` is at the left operand's end. `!`, `Array.from`, `(` and the right code are at the right operand's start, in that order. `)` and `.includes(needle))` are at its end. Exactly the characters of `[left.outerStart, right.outerEnd)` are gone |
| InOp.RenderExtracted | src/stages/main/patchers/InOpPatcher.js:71-99 | the extraction edits render as the source with `[contentStart, right.outerEnd)` replaced by `(needle = L, [!]RECV.includes(needle))` |
| InOp.ExtractedTextParts | src/stages/main/patchers/InOpPatcher.js:82-99 | the extraction text is the opening, `needle = L`, `, `, then `!`, `Array.from`, `(`, the right code, `)` and the call: the left code comes before the right code and `!` precedes `Array.from` |
| InOp.ReceiverParts | src/stages/main/patchers/InOpPatcher.js:87-98 | the receiver the extraction path assembles from separate inserts is the same receiver the in-place path splices in |
| InOp.RenderRewrite | src/stages/main/patchers/InOpPatcher.js:37-41 | whichever path is chosen, the edits render as the source with the rewritten span in place |
| InOp.NegationAddsBang | src/stages/main/patchers/InOpPatcher.js:54-86 | `not in` differs from `in` by one `!`, in front of the call on the in-place path and after the `needle` assignment on the extraction path |
| InOp.ShouldWrapInArrayFrom | src/stages/main/patchers/InOpPatcher.js:102-107 | never wraps when `looseIncludes` is set; otherwise wraps exactly when the right operand is not an array literal |
| InOp.ArrayLiteralIsNeverWrapped | src/stages/main/patchers/InOpPatcher.js:102-107 | an array literal on the right is never wrapped and is used as the receiver as it is |
| InOp.RhsNeedsParens | src/stages/main/patchers/InOpPatcher.js:109-119 | parentheses are needed exactly when the right operand is none of identifier, member access, dynamic member access, function application, array literal or string |
| InOp.ReceiverForms | src/stages/main/patchers/InOpPatcher.js:43-48 | the receiver is `Array.from(R)` exactly when wrapping applies, `(R)` exactly when it does not but parentheses are needed, and `R` otherwise: never two pairs of parentheses |
| InOp.StatementNeedsParens | src/stages/main/patchers/InOpPatcher.js:121-126 | the rewritten expression never needs parentheses in statement position |
| TextEdits.InsertsAccumulateForward | src/stages/main/patchers/InOpPatcher.js:54-62 | two inserts at one offset come out in call order, which puts `!` before `RECV.includes(` |
| TextEdits.RemoveKeepsInsertAtStart | src/stages/main/patchers/InOpPatcher.js:43-52 | a removal erases what was inserted earlier strictly inside its range or at its end, such as the right operand's own patch at its start inside `[left.outerEnd, right.outerEnd)`, but keeps what was inserted at the range's start and what is inserted later |
| InOp.InOpPatcher.PatchChild | src/stages/main/patchers/InOpPatcher.js:64 | a child's `patch()`, as called at lines 43, 64 and 95: the child's span is removed and its code is inserted at its start, after what was already inserted there; text inserted earlier inside the span or at its end is gone, and nothing else changes |
| InOp.ChildPatchAt | src/stages/main/patchers/InOpPatcher.js:95 | after a child's patch, at every offset: the child's code follows the earlier inserts at its start, nothing remains inserted inside its span or at its end, exactly the span's characters are gone, and every other offset is as before |

## Left out

- The `NodePatcher` and `BinaryOpPatcher` framework is not modelled. Each child's recursive `patch()` and `patchAndGetCode()` becomes an operand value carrying its patched code as an opaque string. A child's patch removes its own span and inserts that code at its start. The edits a child makes inside its span are not modelled.
- InOp.InOpPatcher.PatchRepeatable: always returns `needle` and emits `needle = <code>`. It does not model how a free name is claimed (a clash would give another name) or any parentheses the child adds.
- `isPure()` is an input boolean on each operand. How purity is computed is not modelled.
- The lexer and its `SourceType` enum are reduced to a token type with a `Relation` case and a span.
- `operatorTokenPredicate` returns a closure in the source. Here it is the predicate itself.
- `instanceof` tests against sibling patcher classes are replaced by the closed `Shape` datatype.
- The real text buffer is not modelled beyond the insert and remove composition rule. Its chunk structure and offsets past the end of the source are not modelled.
- InOp.InOpPatcher.PatchAsExpression: the rendered text is stated only for a buffer with no earlier edits. For any earlier log, the contract states only the log that results.
- InOp.InOpPatcher.PatchWithLhsExtracted: the same restriction to a buffer with no earlier edits applies to its rendered text.
- Node offsets are taken as given by the parser (`WellFormed`). Each operand spans at least one character. The operator lies between the operands. The node starts no later than its left operand.
- The runtime meaning of `Array.from` and `.includes` in the generated JavaScript is not modelled.
