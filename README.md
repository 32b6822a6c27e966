# Glimmer VM: iterable keys, the native-iterator wrapper and the `strip` tag

This project models two small parts of the Glimmer VM in Dafny and proves
their behaviour.

**`IterableImpl`** (`iterable_impl.dfy`) models `packages/@glimmer/reference/lib/iterable-impl.ts`:

- `keyFor` looks up the key function registered under a path in an
  `IterableKeyDefinitions`. When there is none, it falls back to the
  `default` entry itself, unapplied.
  - The TypeScript union return `KeyFor | UnknownKeyFor` is the datatype `KeyForChoice`.
- `NativeIteratorIterator` is the opaque iterator that wraps a one-shot
  native iterator. It is a class with the source's fields `current` (the
  states `empty` / `first` / `progress`) and `pos`.
  - The constructor prefetches one value.
  - `isEmpty` reports the `empty` state.
  - `next` hands out `{ key, value, memo }` items, and `null` once the wrapped
    iterator is done.
  - The wrapped native iterator is the class `SequenceIterator`: the values it
    still has to yield, and how many times its `next()` was called.
  - Ghost fields record the values the wrapped iterator still had when the
    wrapper was built (`source`), the number of calls to `next()` made so far
    (`calls`) and the items handed out so far (`produced`). The invariant
    `Valid()` ties these to `current`, `pos` and the wrapped iterator.
  - Each call is proved against a reference answer
    `Response(source, keyFor, call)`: the `call`-th value with index `call`,
    or nothing once the values run out. `Produced` is the list of the non-null
    answers.

**`StripTag`** (`strip_tag.dfy`) models the exported `strip` template-tag
helper of `packages/@glimmer/syntax/test/parser-node-test.ts`. For each
literal piece of a tagged template it:

1. splits the piece on `'\n'`;
2. trims every line;
3. glues the lines back together with `''`;
4. appends the piece's argument when that argument is truthy.

The pieces are then concatenated. Supporting definitions:

- `Trim` removes the characters of ECMAScript's WhiteSpace and LineTerminator
  productions, which is the set `String.prototype.trim` removes.
- `Split` and `Join` model `String.prototype.split` with a one-character
  separator and `Array.prototype.join`.
- `Visible` (the non-whitespace characters of a string, in order) is the
  reference used to state that stripping deletes whitespace and nothing else.
- The named-blocks test's template is written as its lines behind their
  indentation, joined by line breaks. Its stripped form is proved to be the
  one-line markup the test parses.

## Model

| member | source | states |
|---|---|---|
| IterableImpl.KeyFor | packages/@glimmer/reference/lib/iterable-impl.ts:18-24 | the result is a named key function exactly when `path` is a key of `named`, and then it is `named[path]`; otherwise it is the `default` entry itself, not applied to `path` |
| IterableImpl.KeyForDefine | packages/@glimmer/reference/lib/iterable-impl.ts:18-24 | registering a key function under one path makes that path resolve to it and leaves the lookup of every other path unchanged |
| IterableImpl.KeyForDefaultIgnoresPath | packages/@glimmer/reference/lib/iterable-impl.ts:18-24 | every path without a named key function gets the same `default` entry, whatever the path |
| IterableImpl.SequenceIterator.Next | packages/@glimmer/reference/lib/iterable-impl.ts:104 | each call of the native iterator's `next()` is counted; it yields the next remaining value and drops it, or reports done and stays exhausted |
| IterableImpl.NativeIteratorIterator.constructor | packages/@glimmer/reference/lib/iterable-impl.ts:82-90 | the wrapped iterator is advanced exactly once; the state is `empty` when it had no value and `first` holding that value otherwise; `pos` is 0 and nothing has been produced |
| IterableImpl.NativeIteratorIterator.IsEmpty | packages/@glimmer/reference/lib/iterable-impl.ts:92-94 | true exactly when the wrapped iterator had no value when the wrapper was built; `Next` keeps its answer unchanged, so it is fixed for the object's lifetime |
| IterableImpl.NativeIteratorIterator.Next | packages/@glimmer/reference/lib/iterable-impl.ts:96-120 | the answer is the reference answer for this call: `{ key: keyFor(s[k], k), value: s[k], memo: k }` for the k-th call while values remain, null after; the memo equals `pos`. In state `first` it moves to `progress` without touching the wrapped iterator or `pos`. In every other state it keeps its state, advances the wrapped iterator once and increments `pos`, even when it answers null. It never enters or leaves `empty` (so `IsEmpty` keeps its answer), and never returns to `first`. The invariant is kept |
| IterableImpl.ProducedItems | packages/@glimmer/reference/lib/iterable-impl.ts:96-120 | after `n` calls, as many items have been produced as the smaller of `n` and the length of `s`, and the k-th is `{ key: keyFor(s[k], k), value: s[k], memo: k }` |
| IterableImpl.ExhaustedAnswersNull | packages/@glimmer/reference/lib/iterable-impl.ts:104-109 | once as many calls as `s` has values have been made, every call answers null, on an empty source too, so exactly one item per value of `s` is ever produced |
| StripTag.IsWhitespace | packages/@glimmer/syntax/test/parser-node-test.ts:560 | the characters `trim` removes: ECMAScript WhiteSpace (TAB, VT, FF, SP, NBSP, ZWNBSP and the Unicode space separators) and LineTerminator (LF, CR, LS, PS); `TrimStart`, `TrimEnd` and `Trim` state their results in terms of it |
| StripTag.TrimStart | packages/@glimmer/syntax/test/parser-node-test.ts:560 | the result is a suffix of the input, what was dropped is all whitespace, and the result does not start with whitespace |
| StripTag.TrimEnd | packages/@glimmer/syntax/test/parser-node-test.ts:560 | the result is a prefix of the input, what was dropped is all whitespace, and the result does not end with whitespace |
| StripTag.Trim | packages/@glimmer/syntax/test/parser-node-test.ts:560 | the trimmed line is no longer than the line and has no whitespace at either end |
| StripTag.TrimIsInfix | packages/@glimmer/syntax/test/parser-node-test.ts:560 | the trimmed line is a contiguous block of the line with only whitespace before and after it |
| StripTag.TrimPadded | packages/@glimmer/syntax/test/parser-node-test.ts:560 | trimming a string without edge whitespace that is padded with whitespace on both sides gives back that string |
| StripTag.Split | packages/@glimmer/syntax/test/parser-node-test.ts:559 | splitting always gives at least one piece, and no piece contains the separator |
| StripTag.JoinSplit | packages/@glimmer/syntax/test/parser-node-test.ts:559 | joining the pieces of a split with the separator gives back the original string |
| StripTag.SplitJoin | packages/@glimmer/syntax/test/parser-node-test.ts:559 | splitting a join of separator-free lines gives back exactly those lines |
| StripTag.ArgText | packages/@glimmer/syntax/test/parser-node-test.ts:561 | an argument contributes itself, untrimmed, when it is present and non-empty, and nothing when it is missing or empty |
| StripTag.Join | packages/@glimmer/syntax/test/parser-node-test.ts:561-563 | `Array.prototype.join`: the parts in order with the separator between neighbours, nothing for no parts; `JoinSplit` and `SplitJoin` prove it the inverse of `Split`, and `JoinEmptyAppend` that joining with nothing appends parts one by one |
| StripTag.StripLines | packages/@glimmer/syntax/test/parser-node-test.ts:558-561 | the literal part of one piece: the piece split on line breaks, each line trimmed, the lines joined with nothing; `StripLinesNoNewline`, `StripLinesOfLines` and `StripLinesKeepsVisible` hold its properties |
| StripTag.MapIndexed | packages/@glimmer/syntax/test/parser-node-test.ts:557-562 | the outer `map`, whose callback receives each literal piece and its index: one result per piece, in order (`MapIndexedAppend`, `PiecesAt`) |
| StripTag.Strip | packages/@glimmer/syntax/test/parser-node-test.ts:555-564 | `strip(strings, ...args)`: the pieces, each stripped and followed by its argument text, joined with nothing; `StripAppend`, `StripNoNewline`, `StripIndentedTemplate` and `NamedBlocksExample` hold its properties |
| StripTag.PiecesAt | packages/@glimmer/syntax/test/parser-node-test.ts:557-561 | the outer `map` has one entry per literal piece, and entry `i` is piece `i` split on line breaks, its lines trimmed and joined with nothing, followed by the text of argument `i` |
| StripTag.StripAppend | packages/@glimmer/syntax/test/parser-node-test.ts:556-563 | the result is the in-order concatenation of the pieces with no separator: one more literal piece appends its stripped lines, then its argument text |
| StripTag.StripLinesNoNewline | packages/@glimmer/syntax/test/parser-node-test.ts:558-560 | a stripped literal piece contains no line break |
| StripTag.StripNoNewline | packages/@glimmer/syntax/test/parser-node-test.ts:555-564 | when no argument holds a line break, the result holds none |
| StripTag.StripLinesOfLines | packages/@glimmer/syntax/test/parser-node-test.ts:557-561 | a piece written as lines joined by line breaks strips to those lines, each trimmed, in their original order |
| StripTag.VisibleTrim | packages/@glimmer/syntax/test/parser-node-test.ts:560 | trimming removes whitespace only: the non-whitespace characters are unchanged |
| StripTag.StripLinesKeepsVisible | packages/@glimmer/syntax/test/parser-node-test.ts:557-561 | stripping a literal piece removes whitespace and nothing else: its non-whitespace characters all survive, in order |
| StripTag.StripIndentedTemplate | packages/@glimmer/syntax/test/parser-node-test.ts:555-564 | a template without interpolations, written as indented lines that have no line breaks inside and no whitespace at their ends, strips to the concatenation of the lines' contents |
| StripTag.NamedBlocksExample | packages/@glimmer/syntax/test/parser-node-test.ts:525-535 | the indented multi-line named-blocks template strips to the one-line markup `<Tab>`, `<:header>`, `It's a header!`, `</:header>`, `<:body as ...>` (binding `contents`), `<div>{{contents}}</div>`, `</:body>`, `</Tab>`, concatenated with nothing between them |

## Left out

- `IterableImpl` (iterable-impl.ts:26-76) is left out. It only forwards to `UpdatableReference`, `VersionedReference` and `Tag` from other packages. Its `iterate()` relies on a JavaScript runtime check for `Symbol.iterator`. None of these is part of this model.
- The native `Iterator` is modelled by `SequenceIterator`, over the finite sequence of values it will yield. Iterators that throw, are infinite, or change their values behind the wrapper's back are not modelled.
- IterableImpl.KeyFor: `path in definitions.named` also matches properties inherited through the prototype chain. The model's `named` is a map of own keys only.
- IterableImpl.KeyFor: the key functions' `unknown` item and index parameters are a type parameter and a `nat`. Key functions are pure functions here, so calls with side effects are not modelled.
- The template parser, `astEqual`, the builders and the QUnit harness are not part of this model. The named-blocks test is modelled up to the string that `strip` hands to `parse`, not the AST comparison at lines 537-546.
- StripTag.Strip: arguments are modelled as strings, following the `...args: string[]` signature, and truthy means non-empty. Non-string arguments and their coercion inside the template literal are not modelled.
- StripTag.NamedBlocksExample: the template is represented as its lines behind their indentation in spaces (0, 4, 6, 8, 6, 0, 6, 8, 6, 4, 2), joined by line breaks. The line at 530 is taken to be empty. The expected output is written as the concatenation of its eight tag and text parts.
- StripTag.Split: only single-character separators are modelled, which is the only kind `strip` uses.
