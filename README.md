# Feature detection in `detect.js`, modelled in Dafny

This project models the feature-detection engine of `compat`, in `src/js/detect.js`.
`traverseAST` walks a parsed program's syntax tree in pre-order. At each node it calls every
feature detector in catalog order with `(node, parent)`. Each occurrence a detector reports is
appended to a dictionary under the occurrence's own `type`, and the key's list is created on
first use. `withFeatures` parses the program and runs the traversal. It returns
`{type: 'success', features}`, or `{type: 'error', errorMsg}` for any exception, whether the
parser or a detector threw it. `withAllFeatures` is `withFeatures` over the full catalog.

Modules and files:

- `wrappers.dfy` (`Wrappers`): `Option` and `Result`.
- `tree.dfy` (`Tree`): the syntax tree `Node` and the walk order. `PreOrder` lists the walk's
  `(node, parent)` visits. `Pending` gives what a worklist still owes, which is how the
  imperative walk is tied to `PreOrder`.
- `aggregation.dfy` (`Aggregation`): the pure specification of `traverseAST` and its lemmas.
  `Calls` lists every detector call in order: visits in pre-order, and detectors in catalog
  order at each visit. `Run` folds the calls' answers into the dictionary and stops at the
  first exception. `Traverse` is `Run` from the empty dictionary. The independent reference
  definitions are `Found` (the reported occurrences in call order), `FirstFault`, `ByType`
  (occurrences grouped by type with order kept, built on `Filter`) and `MatchCount`.
- `detect.dfy` (`Detect`): the imperative `TraverseAST`. It has a worklist loop for the walk
  and calls `Enter`, the `enter` callback, whose `forEach` loop updates a local map. It also
  holds the `Outcome` record, `WithFeatures` and `WithAllFeatures`.

What is a parameter and what is abstract:

- The parser `esprima.parse` is the parameter `parse: Parser`, a function from the program text
  to a tree or an exception.
- The full catalog `./features/all.js` is the constant `AllFeatures`, which is given no value.
- A detector is a pure function `(Node, Option<Node>) -> Verdict`. `Verdict` has three cases:
  `Absent` (the detector returned `undefined`), `Present(occurrence)`, and `Throws(exception)`.

## Model

The functions that define the model are not rows of their own. The rows below are the lemmas and methods whose contracts state their properties. The definitions are `Tree.PreOrder` (the walk, src/js/detect.js:54), `Aggregation.Add` (storing one occurrence, src/js/detect.js:59-62), `Aggregation.Run` (the fold over the calls, src/js/detect.js:56-64), `Aggregation.Traverse` (`traverseAST` as a value, src/js/detect.js:51-72) and `Detect.Detection` (the outcome of `withFeatures`, src/js/detect.js:20-32).

| member | source | states |
|---|---|---|
| `Tree.PreOrderShape` | src/js/detect.js:54-57 | The walk makes as many visits as the tree has nodes. The first visit is the root, with no parent. Every later visit's parent is a node visited earlier, and the visited node is one of that parent's children. Every child of a visited node is visited later, with that node as its parent. |
| `Aggregation.Calls` | src/js/detect.js:55-57 | Each visit makes exactly one call per catalog detector, so there are `|visits| * |features|` calls in all, and every call names a detector of the catalog. |
| `Aggregation.CallsIndex` | src/js/detect.js:55-57 | The call at position `k * |features| + i` is detector `i` applied to visit `k`'s node and parent. So every detector is called exactly once at every visit, with that visit's node and parent. |
| `Detect.Enter` | src/js/detect.js:55-65 | The `enter` callback's `forEach` loop gives the result of the specification fold over that visit's calls. It makes exactly those calls, in catalog order. On a throw it stops at the first throwing call and returns that call's exception: no earlier logged call throws. |
| `Detect.TraverseAST` | src/js/detect.js:51-72 | The worklist walk with its in-place dictionary returns `Traverse(ast, features)`. Its call log is a prefix of all the walk's calls, and the whole list when it succeeds. When it fails, the last logged call threw the exception that was returned, and no earlier logged call throws. |
| `Aggregation.RunIgnoresAbsent` | src/js/detect.js:58 | Calls that all return `undefined` leave the dictionary unchanged. |
| `Aggregation.AddExisting` | src/js/detect.js:59-62 | Storing an occurrence adds at most its own `type` as a key. It appends the occurrence to that key's list, which starts empty when the key is missing. Every other key keeps its list unchanged. |
| `Aggregation.AggregateGroups` | src/js/detect.js:59-62 | After storing a sequence of occurrences, the keys are the old keys plus the types that occur. Each list is its old contents followed by that type's new occurrences, in order. |
| `Aggregation.AggregateFromEmpty` | src/js/detect.js:52-62 | Starting from `{}`, the dictionary equals `ByType`. Every list is non-empty and holds only occurrences of its own key, each taken from the input. |
| `Aggregation.RunOnlyAppends` | src/js/detect.js:59-62 | Existing lists are never replaced: every key present before the fold is still there afterwards, and its old list is a prefix of its new list. |
| `Aggregation.RunCharacterized` | src/js/detect.js:56-64 | The fold ends with the exception of the first call that throws, if one does. Otherwise it stores every reported occurrence in call order. |
| `Aggregation.TraverseCharacterized` | src/js/detect.js:51-72 | `traverseAST` throws the first detector exception of the walk if there is one. Otherwise it returns the walk's reported occurrences grouped by their own `type`. |
| `Aggregation.TraverseResultShape` | src/js/detect.js:56-62 | In a returned dictionary every list is non-empty and holds only its own key's occurrences. There is no deduplication: for every key, the list length equals the number of (visit, detector) calls that reported that type, and is 0 for an absent key. |
| `Aggregation.FilterFoundCount` | src/js/detect.js:56-62 | For any sequence of calls, the number of stored occurrences of a type equals the number of calls that reported that type. |
| `Aggregation.TraverseNothingFound` | src/js/detect.js:52-71 | If no detector reports anything anywhere, the result is the empty dictionary. |
| `Aggregation.TraverseWalkOrder` | src/js/detect.js:54-64 | Split the call sequence at any position. A key's list then holds the occurrences from calls before the split first, then those from calls after it. So entries follow walk order: nodes in pre-order, and within one node, detectors in catalog order. |
| `Aggregation.TraverseIsolated` | src/js/detect.js:56-64 | Drop any detectors, at any positions of the catalog, that report no occurrence of type `key` anywhere in the walk. If both traversals succeed, `key`'s list is the same under the full catalog and under the reduced one. |
| `Detect.WithFeatures` | src/js/detect.js:19-33 | Its outcome is `Detection(parse(program), features)`: the parse, then the traversal, with any exception caught. |
| `Detect.WithAllFeatures` | src/js/detect.js:40-42 | Its outcome is the one `withFeatures` gives over the full catalog `AllFeatures`. |
| `Detect.DetectionCharacterized` | src/js/detect.js:20-32 | A parse error comes back unchanged as `error`. After a successful parse, the first exception a detector throws comes back unchanged as `error`. Otherwise the outcome is `success` carrying the grouped occurrences. The outcome is `success` if and only if the parse succeeds and no detector throws. |

## Left out

- Parsing: esprima is a parameter, so its grammar and its `loc`, `range` and `tolerant` options (src/js/detect.js:5-9) are outside the model. Nodes carry a `Location`, but nothing is proved about it.
- Child order: estraverse visits ESTree children in an order fixed by each node type. The model visits `children` in their stored order instead. Its worklist stands in for estraverse's internal stack. The skip and break controls are never used by the source and are not modelled.
- The `leave` callback (src/js/detect.js:66-68) does nothing, so it is not modelled.
- The detectors of `./features/all.js` are not part of this model. `AllFeatures` is a constant with no given value.
- JavaScript values the model does not represent: a detector returning `null` or an object without `type`, and keys such as `__proto__` that `{}` treats specially. The dictionary is a Dafny `map`.
- Key order of the result: `foundFeatures` is a JavaScript object, so its keys enumerate in insertion order, with the first type found first. A Dafny `map` has no key order, so the model does not capture that order. The order within each list is modelled.
- Detector-specific fields: the objects a detector returns may carry fields beyond `type` and the location. `Occurrence` keeps only `featureType` and `location`. The aggregation never reads any other field.
- Source-position order: the model proves walk order. Non-decreasing source offsets would also need a property of the parser's locations, which is outside the model.
- Determinism of repeated calls holds because every member is a pure function of its inputs, so no lemma states it.
- The code and its own doc comment disagree, and the model follows the code. The doc comment (src/js/detect.js:16-17) promises an `error` outcome for errors while parsing. The catch (src/js/detect.js:27) also catches exceptions thrown by detectors, so those end as `error` too.
