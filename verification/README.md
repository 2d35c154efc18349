# rope-ts in Dafny

A model of the `rope-ts` rope library. A rope is an immutable binary
concatenation tree. Its leaves hold string fragments. Its nodes join a left
rope and a right rope. Every operation returns a new value.

The model is in five modules:

- `Wrappers` (`wrappers.dfy`): `Option`, the model's stand-in for `undefined`.
- `Ropes` (`rope.dfy`): the `Rope` datatype and its operations `Empty`,
  `FromString`, `IsLeaf`, `IsNode`, `Length`, `Concat` and `CharAt`. It also
  holds the abstraction function `ToString`, which is `ropeToString` from
  the test matchers: a leaf's string, or the left flattening followed by the
  right one. Every operation's contract is stated against `ToString`.
- `Validation` (`validation.dfy`): the `isRope` boundary check over a small
  dynamic `Value` type. `Value` has the cases number, function, `null`,
  string, and a record whose `left`/`right` fields may be missing. `ToRope`
  reads the validated value as a typed rope. `ValueOf` gives a rope's
  runtime form.
- `Matchers` (`matchers.dfy`): the `toBeEquivalentTo` comparison, as a
  method with a loop over indices.
- `RopeScenarios` (`scenarios.dfy`): the concrete test cases, as lemmas.

The rope representation follows the tests, not the type draft in
`src/rope.ts`. That draft makes the leaf the literal `"_leaf"` and gives a
node a `data` field. The tests disagree on four points:

- they treat any string as a rope;
- they build nodes with only `left` and `right`;
- they require `length(empty())` to be 0;
- they import their implementation from `src/index`, which is not part of
  this model.

So here a leaf is any string, `Empty()` is the leaf `""`, and a node has
only its two children.

Where the implementation is not visible, the model picks these rules:

- `Concat` absorbs the empty rope by structural equality with `Leaf("")`.
- `CharAt` sends index `i` at a node to the left child when
  `0 <= i < Length(left)`. Otherwise it goes to the right child with
  `i - Length(left)`. Negative and too-large indices give `None`.

## Model

| member | source | states |
|---|---|---|
| `Ropes.Empty` | src/rope.ts:13 | the empty rope is a leaf, its content is the empty string, its length is 0, and `CharAt` gives `None` at every index |
| `Ropes.FromString` | test/rope.ts:32-35 | the rope built from `s` has content `s` and length `|s|`; for a non-empty `s` it differs from the empty rope |
| `Ropes.ExactlyOneCase` | src/rope.ts:10-11 | every rope is exactly one of leaf and node, and the leaves are exactly the ropes built from strings |
| `Ropes.Length` | test/rope.ts:12-14 | the length is the number of characters in the in-order flattening |
| `Ropes.Concat` | test/rope.ts:37-56 | the result's content is the left content followed by the right; lengths add; the empty rope on either side is absorbed, so the other operand comes back unchanged |
| `Ropes.CharAt` | test/rope.ts:49-55 | for `0 <= i < Length(r)` the result is the `i`-th character of the flattened string; every other index gives `None`, never an error |
| `Ropes.CharAtDeterminesContent` | test/matchers.ts:19-47 | two ropes have the same content if and only if they have the same length and `CharAt` agrees at every index below it, whatever the tree shapes |
| `Ropes.ConcatPreservesCanonical` | test/rope.ts:16-18 | if neither input has a node with an empty child, neither does the concatenation |
| `Ropes.CanonicalEmptyIffZeroLength` | test/rope.ts:12-18 | in that canonical form, a rope has length 0 if and only if it is the empty rope |
| `Validation.ValueOf` | src/rope.ts:4-5 | a node's children are ropes all the way down, so the runtime form of every rope passes the `isRope` check |
| `Validation.ToRope` | test/isRope.ts:3-39 | reading a value as a rope succeeds exactly when `isRope` accepts it; on success the value is that rope's runtime form |
| `Validation.ToRopeOfValueOf` | test/isNode.ts:4-10 | reading back a rope's runtime form (a string for a leaf, a `{left, right}` record for a node) gives the same rope |
| `Validation.IsRopeIffRuntimeForm` | test/isRope.ts:3-39 | `isRope` accepts a value if and only if it is the runtime form of some rope |
| `Matchers.ToBeEquivalentTo` | test/matchers.ts:11-48 | a non-rope fails at once; a length difference fails with both lengths; otherwise it fails at the smallest index where the characters differ, with the contents equal before it; it passes if and only if the flattened strings are equal |
| `Matchers.PrefixAgreement` | test/matchers.ts:31-42 | `CharAt` agrees on both ropes at every index below `n` if and only if the first `n` characters of the two contents are equal |
| `RopeScenarios.EmptyRopeCases` | test/rope.ts:3-24 | the empty rope is a leaf, not a node; it has length 0; empty concatenated with empty is the empty rope; `CharAt` at 0 and 1 is absent |
| `RopeScenarios.ShortRopeCases` | test/rope.ts:26-58 | "test string" gives a non-empty rope of length 11; adding the empty rope on either side keeps its length; concatenated with "1234" it has length 15, `'s'` at 5 and `'2'` at 12 |
| `RopeScenarios.IsRopeCases` | test/isRope.ts:3-39 | `isRope` rejects numbers, functions, records missing `left` or `right`, records with a number or `null` field, and accepts strings |
| `RopeScenarios.IsNodeCases` | test/isNode.ts:3-11 | a string is not a node; a `{left, right}` record of strings is a rope and a node |

`ToString`, `IsLeaf`, `IsNode`, `IsRope`, `Canonical` and `Equivalent` are
definitions. The rows above state what they mean.

Because Dafny functions are pure, `Empty()` gives the same value on every
call. No lemma is needed for that.

## Left out

- `slice`, `insertAt` and `deleteRange`: their implementation is in `src/index`, which is not part of this model. No test in the model's sources exercises them.
- The test framework plumbing: `expect.extend`, the failure-message closures, the `inspect` pretty-printer and the `jest.Matchers` declaration. The failure reason a message reports is kept as the `MatchResult` case and its fields.
- The `"_leaf"` sentinel and the `data` field of `src/rope.ts`: the tests contradict them, as described above.
- JavaScript runtime typing beyond the kinds the tests use. There are no prototype chains, extra record fields or `typeof` quirks. A number or a function carries no payload.
- UTF-16 code units: characters are Dafny `char` and indices are unbounded integers, with no surrogate-pair handling.
- Cost: length is recomputed by traversal and there is no balancing. The model states results, not running time.
- Ropes.FromString: the contract promises content and length only, not that the result is a single leaf, because an implementation may split a long input.
