# packspec interpreter (PHP runner) in Dafny

This project models the interpreter at the heart of `src/cli.php` of
packspec.php. packspec runs language-neutral test specs. A spec is a YAML
document whose first node names the package. Every later node is a
*feature*:

- a comment line, optionally prefixed by a `(target|target)` filter;
- or a one-key mapping such as `x=Class.method: [1, 2, name=: 3, ==: 6]`.

The interpreter does four things, and each has its own Dafny module:

1. It parses each node into a feature record (`Syntax`, `Features`).
2. It assembles a spec (`Specs`):
   - rewrites the `{token}` set shorthand;
   - carries a comment's skip filter forward;
   - counts features, comments, tests and skipped tests.
3. It keeps a mutable scope (`Scopes`):
   - looks up dotted paths, with a lower-case fallback;
   - stops a walk at the first object;
   - resolves reference literals such as `{x.y: null}`;
   - binds results at dotted paths, creating missing levels.
4. It runs features against that scope and judges them (`Dispatch`,
   `Runner`):
   - decides what to invoke: a static method, an object method, a
     constructor, a user function or a plain read;
   - gives the sentinel `'ERROR'` when an exception is caught;
   - checks the verdict of line 337;
   - computes the per-spec success and the "passed/count" pair.

Values are PHP values: null, bool, int, string, arrays, and opaque object and
closure handles. A PHP array is modelled as one ordered sequence of
(key, value) entries, because PHP uses the same type for lists and
dictionaries. A list's keys are `"0"`, `"1"`, …. A keyed write overwrites
the entry in place or appends a new one (`Values.Put`).

Two kinds of failure are kept apart:

- An `\Exception` is caught where the source catches it. The feature becomes
  `'ERROR'`, or the document is not a spec.
- A PHP `\Error`, or an exception raised outside any `try`, ends the run
  (`LoadFault`, `Crashed`).

The PHP semantics followed are PHP 8's.

Where the specification and the code disagree, the parser and the spec
assembly follow the code:

- Only a malformed *first* node makes a document "not a spec" (lines
  48-53). A malformed later node raises out of `parse_spec` and ends the run
  (`Specs.SpecOf`).
- A filter has no negation token. `skip` holds exactly when the filter is
  non-empty, is not `"0"`, and does not list `php` (`Syntax.FilterSkip`).
- A falsy expected value (`null`, `false`, `0`, `""`, `"0"`, `[]`) counts as
  "no expected value", so such a feature only has to not raise.
- An expected `'ERROR'` is matched by the `'ERROR'` result.

The runner does not follow the code everywhere. In three places the code
is evidently wrong (see "## Findings"), and `Runner.FeatureStep`,
`Runner.TestFeature` and `Runner.TestSpec` use the corrected definitions
(`Runner.DerefArgs`, `Dispatch.Decide`, `Dispatch.Verdict`). The code as
written is `Runner.FeatureStepAsWritten`. `Runner.FeatureStepAgree` proves
that the two agree on every feature outside those three cases.

## Model

| member | source | states |
|---|---|---|
| Values.Nullish | src/cli.php:390 | `== null` in PHP 8 holds exactly for the falsy values other than the string "0" |
| Values.Lookup | src/cli.php:413-417 | a key is found iff it is present, and what is found is the value stored under it |
| Values.Put | src/cli.php:157 | a keyed write keeps the length when the key exists and adds one entry otherwise |
| Values.PutFinds | src/cli.php:157 | the key just written reads back the written value |
| Values.PutKeepsOthers | src/cli.php:157 | a keyed write leaves every other key's value unchanged |
| Values.PutKeys | src/cli.php:157 | a keyed write keeps the key order and appends a new key at the end |
| Values.ListOf | src/cli.php:161 | the list built by `array_push` holds exactly the pushed values, in order |
| Values.ToLower | src/cli.php:409 | no upper-case ASCII letter is left; each one becomes its lower-case partner and every other character is kept |
| Values.ToLowerIdempotent | src/cli.php:409 | lower-casing twice is lower-casing once |
| Values.Explode | src/cli.php:290 | `explode` always yields at least one piece |
| Values.ExplodeImplode | src/cli.php:290 | joining the pieces of `explode` gives back the string, and no piece holds the separator |
| Values.ExplodeCut | src/cli.php:109 | the first piece of `explode` is the longest separator-free prefix; after it come the separator and the pieces of the rest |
| Values.ExplodeHas | src/cli.php:109 | a separator-free word is among the pieces of `explode` iff it stands in the string between separators or string ends |
| Values.NatToStringIsIntegerKey | src/cli.php:114 | the spelling of a list position in the 64-bit range is a key PHP stores as an integer |
| Values.Equal | src/cli.php:337 | two equal values are both arrays or both not, and are both truthy or both falsy; arrays are equal when they have the same keys and equal values under each key |
| Values.EqualReflexive | src/cli.php:337 | every value with distinct keys equals itself |
| Values.EqualSymmetric | src/cli.php:337 | equality is symmetric when the right-hand side has distinct keys, as every PHP array does |
| Values.EqualIgnoresOrder | src/cli.php:337 | two arrays with the same key-to-value mapping are equal whatever their key order |
| Syntax.UcWords | src/cli.php:479 | `ucwords(s, '_')` upper-cases the first character and each one after an underscore, keeps every other character, and keeps underscores where they are |
| Syntax.DropUnderscores | src/cli.php:479 | `str_replace('_', '', s)` leaves no underscore and is shorter by exactly the number of underscores |
| Syntax.DropUnderscoresConcat | src/cli.php:479 | removing underscores works piece by piece, so the other characters keep their order |
| Syntax.LcFirst | src/cli.php:479 | `lcfirst` changes only the first character, and only an upper-case letter there, to lower case |
| Syntax.Camelize | src/cli.php:477-482 | the input is unchanged unless an underscore occurs after position 0; otherwise the output loses exactly the underscores and starts with the lower-cased (after upper-casing) first character |
| Syntax.CamelizeIdempotent | src/cli.php:477-482 | camelising twice is camelising once |
| Syntax.CamelizeTwoWords | src/cli.php:477-482 | `a_b` becomes `a` with a lower-case start followed by `b` with an upper-case start |
| Syntax.UcWordsConcat | src/cli.php:479 | `ucwords` works piece by piece; a piece starts a word when the previous one ends with an underscore |
| Syntax.UcWordsPlain | src/cli.php:479 | `ucwords` leaves a string without underscores unchanged after its first character |
| Syntax.DotStarEnd | src/cli.php:106 | `.*$` captures a newline-free text that ends the subject, at most before one final newline |
| Syntax.NewlineFrom | src/cli.php:106 | the first newline at or after a position, which bounds every `.*` |
| Syntax.WordTail | src/cli.php:106 | `(\w.*)$` captures a newline-free text starting with a word character that ends the subject |
| Syntax.CommentFrom | src/cli.php:106 | the bracketed comment alternative, longest `(.*)` first, yields a filter and text that spell out the line |
| Syntax.MatchComment | src/cli.php:106 | the comment pattern in PCRE's search order: the bracketed alternative first, then the plain word line; its meaning is `MatchCommentSound` |
| Syntax.MatchCommentSound | src/cli.php:106-108 | an accepted comment line is an optional `(filter)` followed by one line of text starting with a word character |
| Syntax.MatchCommentPlain | src/cli.php:106-108 | a one-line string starting with a word character is accepted whole, with no filter |
| Syntax.FirstEq | src/cli.php:122 | `[^=]*=` stops at the first '=' |
| Syntax.PropTail | src/cli.php:122 | `([^=].*)?$` captures a property that does not start with '=' and ends the subject |
| Syntax.RestParts | src/cli.php:122-125 | the assignment and property groups spell out the rest of the key; the assignment holds no '=' |
| Syntax.LeftFrom | src/cli.php:122-125 | the bracketed left-side alternative yields a newline-free filter and well-shaped groups that spell out the key |
| Syntax.MatchLeft | src/cli.php:122 | the left-side pattern in PCRE's search order: the bracketed alternative first; its meaning is `MatchLeftSound` |
| Syntax.MatchLeftSound | src/cli.php:122-125 | an accepted key is an optional `(filter)`, an optional '='-free target followed by '=', and a property not starting with '=' |
| Syntax.FilterSkip | src/cli.php:109-111 | skip holds iff the filter is truthy and "php" does not stand in it as a whole name between '\|' separators or the ends |
| Syntax.FilterSkipExamples | src/cli.php:109-111 | "php", "js\|php" and "php\|js\|go" run on PHP; "js" is skipped |
| Features.CommentFeature | src/cli.php:105-113 | a string node is a comment record: no call, assignment, property or arguments; its text is the matched text; skip holds iff a truthy filter without "php" was matched |
| Features.CommentIsComment | src/cli.php:105-112 | an accepted line whose text is not "0" is recognised as a comment |
| Features.KindOf | src/cli.php:147-161 | an item is the expected value iff it is a one-entry array keyed `==`, a keyword iff keyed `name=` (not `==`), with the entry's value and the key without its '='; any other item is positional as it stands |
| Features.ClassifyItems | src/cli.php:146-162 | the loop builds exactly the argument list, keyword map and expected result of the reference classification |
| Features.ClassifyPlacesItems | src/cli.php:146-162 | positional items become `args` in order; each keyword takes the value of its last `name=` item; the last `==` item is the result |
| Features.Classify | src/cli.php:146-162 | the reference fold of the item loop; its meaning is `ClassifyPlacesItems` |
| Features.FeatureOfLeft | src/cli.php:129-163 | a left side with neither target nor property is rejected; `call` holds iff the property is non-empty and does not end in `==`, which is stripped; a non-call keeps the right side verbatim as its result |
| Features.SlicedKey | src/cli.php:114 | `array_slice($feature, 0, 1)` hands on an integer key as 0 and any other key as it is |
| Features.FeatureOf | src/cli.php:102-138 | a string node is a comment; a node that is neither string nor array is a TypeError; an empty mapping or one whose first key is an integer is rejected as malformed |
| Features.MatchLeftFalsy | src/cli.php:122-131 | a left side "" or "0" yields neither target nor property, so the node is rejected |
| Features.CallFeatureRightSide | src/cli.php:140-163 | a call feature's args, kwargs and result are those placed by the classification of its right side |
| Features.MappingRejected | src/cli.php:114-131 | a mapping node is rejected (the "Non-valid feature" exception) exactly when its key, as `array_slice` hands it on and camelised, does not match or yields neither target nor property |
| Features.ScalarNodeFaults | src/cli.php:114 | a node that is neither a string nor an array raises a TypeError |
| Features.ParseFeature | src/cli.php:102-201 | the method's branches and loop compute the reference parse `FeatureOf` |
| Specs.LeadRun | src/cli.php:45 | `[\w$]+` takes the longest run of word characters and `$` |
| Specs.RewriteKeepsHead | src/cli.php:45 | the rewrite keeps the leading token run and the character after it |
| Specs.RewriteSets | src/cli.php:45 | the `preg_replace` of `{token}` by `{token: null}`, left to right; its meaning is `RewriteLeavesNoSet` and `RewriteKeepsPlain` |
| Specs.RewriteLeavesNoSet | src/cli.php:45 | after the rewrite no `{token}` set literal is left |
| Specs.RewriteKeepsPlain | src/cli.php:45 | text without a set literal is left unchanged |
| Specs.RewriteIdempotent | src/cli.php:45 | rewriting twice is rewriting once |
| Specs.CarrySkip | src/cli.php:56-66 | the skip carry keeps one feature per node |
| Specs.CarryState | src/cli.php:60-63 | the carried flag after a run of features; its meaning is `CarryStateMeans` |
| Specs.CarryStateMeans | src/cli.php:60-63 | the carried flag is set iff the most recent comment skips |
| Specs.CarrySkipMeans | src/cli.php:56-66 | each feature's skip becomes its own skip or that of the most recent comment; nothing else changes |
| Specs.Count | src/cli.php:78-90 | features = comments + tests = the number of features, and skipped ≤ tests |
| Specs.ParseAll | src/cli.php:58-66 | a document that parses gives one feature per node |
| Specs.ParseAllErrFrom | src/cli.php:59-60 | a document that fails to parse fails with the error of one of its nodes |
| Specs.ParseAllOk | src/cli.php:58-59 | a document that parses yields one feature per node, each the parse of its node |
| Specs.ParseAllPrefixError | src/cli.php:58-59 | a node that fails to parse decides the outcome whatever follows it |
| Specs.ParseAllNext | src/cli.php:59-65 | one more node appends its parse, or its failure ends the parse |
| Specs.SpecOf | src/cli.php:40-97 | an empty document is a TypeError; a document is not a spec only when its first node is malformed or skipped; a spec is named by its first node's comment and starts with the initial scope |
| Specs.LoadedSpecShape | src/cli.php:46-97 | a loaded spec has one feature per node, its first feature is not skipped, and its counts add up |
| Specs.ParseSpec | src/cli.php:46-97 | the two loops compute the reference `SpecOf`: not a spec, a spec, or a fault |
| Specs.ParseFeatures | src/cli.php:56-66 | the feature loop yields the parsed nodes with the comment skip carried, or the first parse failure |
| Specs.CountStats | src/cli.php:78-90 | the counting loop computes the reference `Count` |
| Scopes.GetProperty | src/cli.php:406-423 | on an array it finds the exact key, else the lower-cased key, else raises; no object is returned; on any other owner it returns (owner, name) |
| Scopes.GetPropertyFallback | src/cli.php:413-417 | the lower-cased key is used only when the exact key is absent |
| Scopes.GetPropertyAfterPut | src/cli.php:406-423 | a key just written is what `get_property` reads back |
| Scopes.Walk | src/cli.php:290-293 | a walk that succeeds ends with no object, or with a non-array object and a string member name |
| Scopes.WalkStopsAtObject | src/cli.php:290-293 | once a step reaches a truthy non-array value, the walk stops with that object and the next name as the member |
| Scopes.AssignAt | src/cli.php:328-334 | the reference walk of the assignment on values; its meaning is `AssignThenWalk`, `AssignKeepsOtherKeys` and `AssignKeepsKeyOrder` |
| Scopes.AssignThenWalk | src/cli.php:328-334 | after binding at a path, walking the path through arrays only finds the bound value |
| Scopes.AssignKeepsOtherKeys | src/cli.php:328-334 | binding at a path leaves every other top-level scope name unchanged |
| Scopes.AssignKeepsKeyOrder | src/cli.php:328-334 | binding keeps the order of the top-level names and appends a new one at the end |
| Scopes.Deref | src/cli.php:389-403 | a non-array value is unchanged; a container that is not a reference keeps its keys |
| Scopes.DerefEntries | src/cli.php:397-401 | each entry keeps its key and holds the dereferenced value |
| Scopes.DerefContainer | src/cli.php:397-401 | a non-reference container keeps its size and keys and dereferences each element |
| Scopes.DerefReference | src/cli.php:390-396 | a reference to a top-level name resolves to the value the scope holds |
| Scopes.DerefDotted | src/cli.php:390-396 | a dotted reference resolves its first name in the scope, then the rest of the path from that value |
| Scopes.Follow | src/cli.php:391-395 | the reference walk, each step taking the property `get_property` gives; its meaning is `FollowConcat` |
| Scopes.FollowConcat | src/cli.php:391-395 | following `a + b` is following `a`, then `b` from where it ended, and a failure in `a` is final |
| Scopes.ExplodeJoin | src/cli.php:392 | a name without '.' followed by '.' and a rest explodes into the name and the pieces of the rest |
| Scopes.DerefConcrete | src/cli.php:389-403 | a value with no reference literal inside is left as it is |
| Scopes.DerefEntriesConcrete | src/cli.php:397-401 | entries with no reference literal are left as they are |
| Scopes.Scope.constructor | src/cli.php:69-70 | a scope starts with the given bindings |
| Scopes.Scope.Resolve | src/cli.php:285-293 | the loop with its `break` computes the walk `Walk` from the whole scope |
| Scopes.Scope.FollowPath | src/cli.php:391-395 | the loop computes `Follow`, resolving every segment with no stop at objects |
| Scopes.Scope.Dereference | src/cli.php:389-403 | the recursive method with its loop computes `Deref` |
| Scopes.Scope.DereferenceEntries | src/cli.php:397-401 | the loop that overwrites each entry in place computes `DerefEntries` |
| Scopes.Scope.Assign | src/cli.php:328-334 | the reference walk succeeds iff `AssignAt` does; then the scope becomes its result, and otherwise it is unchanged |
| Scopes.Descend | src/cli.php:329-332 | when the way down meets a value it cannot index, `AssignAt` fails too; otherwise the containers it passes, rebuilt around the value, give `AssignAt`'s result |
| Scopes.Ascend | src/cli.php:329-333 | writing the value back up through those containers gives the new scope array that `AssignAt` describes |
| Dispatch.DecideAsWritten | src/cli.php:294-320 | a non-call never throws and invokes only with no arguments; constructions and function calls name declared classes and user functions; a plain read happens iff there is no string or truthy holder and no call |
| Dispatch.Decide | src/cli.php:294-320 | as `DecideAsWritten`, and a closure found in the scope is what a closure call invokes |
| Dispatch.ClosureRefusedAsWritten | src/cli.php:312-315 | as written, calling the `$import` closure (or any closure) throws; the corrected decision invokes it |
| Dispatch.DecideThrows | src/cli.php:307-316 | the "undefined function" exception is thrown iff a call has no holder and no class, closure or user function to call |
| Dispatch.DecideOnHolder | src/cli.php:294-305 | a string holder gets a static call, an object or closure a method call, and an int or `true` an `\Error` |
| Dispatch.AssignThenRead | src/cli.php:328-334 | after `path=` binds a value, reading `path` gives that value back |
| Dispatch.Execute | src/cli.php:283-326 | the result is 'ERROR' iff the "undefined function" exception or the call raised an `\Exception` (or the value itself is 'ERROR'); a crash iff an `\Error` was raised; otherwise the value read or returned |
| Dispatch.Verdict | src/cli.php:337 | the 'ERROR' result passes exactly when 'ERROR' was expected |
| Dispatch.VerdictReflexive | src/cli.php:337 | a result identical to the expected value passes, whenever its keys are distinct |
| Dispatch.VerdictIgnoresOrder | src/cli.php:337 | the key order of an array result does not affect the verdict |
| Dispatch.VerdictAsWritten | src/cli.php:337 | the verdict as written is stricter: every result it passes, `Verdict` passes too |
| Dispatch.TrueFailsAsWritten | src/cli.php:337 | as written, a "must not raise" call that returns `true` fails; with the strict test it passes |
| Dispatch.VerdictAsWrittenDiffers | src/cli.php:337 | the written and the strict verdicts differ exactly on a `true` result with a falsy expected value |
| Runner.DerefArgsAsWritten | src/cli.php:275-276 | `dereference_value` of the whole list and the whole keyword map; its difference from `DerefArgs` is `DerefArgsAgree` and `SingleNullArgumentAsWritten` |
| Runner.DerefArgs | src/cli.php:275-276 | each argument and each keyword value is dereferenced on its own; sizes and keys are kept |
| Runner.DerefArgsConcrete | src/cli.php:275-276 | arguments with no reference literal reach the call unchanged |
| Runner.SingleNullArgumentAsWritten | src/cli.php:275-276 | as written, a call with the single argument null looks up the scope name "0" and ends the run; per element it passes null through |
| Runner.DerefArgsAgree | src/cli.php:275-276 | the written and per-element readings agree on every argument list and keyword map not shaped like a reference literal |
| Runner.Perform | src/cli.php:283-326 | a feature without a property keeps its expected value as its result; a path whose first name is unbound gives 'ERROR' |
| Runner.FeatureStep | src/cli.php:253-337 | comments and skipped features pass and leave the scope alone; any other feature that runs is judged by `Verdict`; only an assignment changes the scope |
| Runner.PerformAsWritten | src/cli.php:283-326 | as `Perform`, and `count()` of a keyword value or `array_push` onto an argument value that is not an array ends the run |
| Runner.FeatureStepAsWritten | src/cli.php:253-337 | the statement as written: as `FeatureStep`, judged by `VerdictAsWritten` |
| Runner.PerformAgree | src/cli.php:283-326 | on a real argument list and keyword map, the written and the corrected `try` block agree except on a closure call |
| Runner.FeatureStepAgree | src/cli.php:253-337 | outside the three findings, the written and the corrected `test_feature` crash together and otherwise agree on result, expected value and scope; their verdicts differ exactly on a `true` result against a falsy expected value |
| Runner.StepAgree | src/cli.php:278-337 | the same agreement once the arguments are dereferenced |
| Runner.FeatureStepVerdict | src/cli.php:278-337 | a run feature's expected value is its dereferenced result (itself when concrete); a feature without a property has that value as its result and passes whenever its keys are distinct |
| Runner.FeatureStepAssigns | src/cli.php:328-334 | a feature with a target binds its result there, and every other top-level name keeps its value |
| Runner.UnboundNameFails | src/cli.php:290-324 | a property whose first name is not in the scope gives 'ERROR', which fails unless 'ERROR' was expected |
| Runner.TestFeature | src/cli.php:253-372 | the method crashes iff the reference `FeatureStep` does; otherwise it returns the verdict and leaves the scope that `FeatureStep` gives |
| Runner.RunFeatures | src/cli.php:231-233 | the features run in order over one shared scope; its meaning is `RunFeaturesShape`, `RunFeaturesCrashPersists` and `SpecReport` |
| Runner.RunFeaturesCrashPersists | src/cli.php:232-233 | once a feature crashes, the spec run has crashed |
| Runner.Passes | src/cli.php:233 | the pass count never exceeds the number of verdicts |
| Runner.RunFeaturesShape | src/cli.php:232-233 | there is one verdict per feature, and comments and skipped features pass |
| Runner.PassesAll | src/cli.php:234 | the pass count equals the number of verdicts iff every verdict is a pass |
| Runner.PassesSplit | src/cli.php:244 | the passes are the comments, the skipped features and the tests that ran and passed |
| Runner.RunPassesBound | src/cli.php:244-245 | the tests that ran and passed are at most the tests that were not skipped |
| Runner.SpecRun | src/cli.php:223-247 | what `test_spec` reports; its meaning is `SpecReport` |
| Runner.SpecReport | src/cli.php:232-245 | a spec succeeds iff every feature passed; the reported pair is the number of tests that ran and passed, out of the non-skipped tests |
| Runner.TestSpec | src/cli.php:223-247 | the loop over one shared scope computes `SpecRun` |
| Runner.RunAll | src/cli.php:228-233 | the loop crashes iff the run of the features does, and otherwise counts its passes |
| Runner.TestNext | src/cli.php:231-233 | one turn of the loop extends the run by the next feature's verdict and scope, or the whole run crashes |
| Runner.SpecRunOf | src/cli.php:234-245 | the report is computed from the tally of verdicts, and a crashed run reports nothing |

## Left out

- Locating spec files and reading them is I/O (`parse_specs`, lines 43 and
  46-47), and so is the YAML parser. A document is taken as the
  already-parsed list of its nodes.
- The second YAML document and `get_user_scope` (lines 71-76, 462-474) are
  left out: they run `eval` and reflect on PHP's symbol tables. Every spec
  starts with the `$import` closure only.
- `builtin_import` and `get_all_fqcns` (lines 376-386, 432-459) walk the
  file system and run PHP's tokenizer. What calling the `$import` closure
  returns is decided by the host's uninterpreted `invoke`.
- Calls through PHP reflection are left out. `$object::$property(...)`,
  `$object->$property(...)`, `new $property(...)` and `$property(...)` are
  the uninterpreted `Dispatch.Host.invoke`. The names returned by
  `get_declared_classes` and `get_defined_functions` are sets the host
  supplies.
- Dispatch.Execute: a call is a pure function of its invocation, so a call
  that changes an object other features later see is not modelled.
- The diagnostic `text` field (lines 165-187) is left out. It depends on
  `json_encode`.
- All output is left out: colours, emoji, messages, `json_encode` of failing
  results, `exit(1)` and the rethrow of exit-first mode (lines 204-220,
  226-227, 236-247, 255-271, 338-370), `test_specs` and the main program.
- `set_property` (lines 426-428) is left out; its body is empty.
- Dispatch.Verdict: compares with the structural `Values.Equal` instead of
  PHP's loose `==`. Arrays are equal when they have the same set of keys and
  equal values under each key, in any order, as PHP's `==` on arrays has it.
  Mixed-type loose equalities such as `1 == "1"` are not modelled.
- Dispatch.InUserFunctions: an object with `__toString` comparing equal to a
  function name is not modelled. A numeric string matching another spelling
  of the same number is not modelled either.
- Values.Value has no floats.
- Values.Put: PHP stores integer-like string keys as integers. The model
  keeps every key as its string, which gives the same lookups. The one place
  where the integer form shows, `array_slice` renumbering an integer first
  key (line 114), is modelled by `Features.SlicedKey`.
- Features.ItemsOf: `foreach` over a right side that is neither an array nor
  null yields no items here; PHP would iterate an object's public
  properties, and YAML gives no objects.
- Runner.FeatureStep: uses the corrected `Runner.DerefArgs`,
  `Dispatch.Decide` and `Dispatch.Verdict` of "## Findings" instead of
  `Runner.DerefArgsAsWritten`, `Dispatch.DecideAsWritten` and
  `Dispatch.VerdictAsWritten`. The statement as written is
  `Runner.FeatureStepAsWritten`; `Runner.FeatureStepAgree` proves the two
  agree outside those three cases.
- Runner.FeatureStepVerdict: is about `Runner.FeatureStep`, so the verdict it
  states is the corrected `Dispatch.Verdict`. For the statement as written,
  `Runner.FeatureStepAsWritten` states the verdict by
  `Dispatch.VerdictAsWritten`.
- Runner.TestFeature: runs `Runner.FeatureStep`, so it carries the same three
  corrections.
- Runner.TestSpec: runs `Runner.TestFeature`, so it carries the same three
  corrections.
- Runner.PerformAsWritten: spreads the argument list by position. String keys
  in a spread list (named arguments since PHP 8.1) and spreading a
  `Traversable` object are not modelled.
- Syntax.IsWordChar: `\w` is taken as ASCII letters, digits and `_`; locale
  word characters are not modelled. Likewise Values.ToLower lowers ASCII
  letters only.
- Scopes.Scope.Assign: when the walk meets a value it cannot index, PHP
  raises an `\Error` that ends the run. The model leaves the scope unchanged
  in that case instead of keeping the partial writes, since nothing reads
  them afterwards.

## Findings

| source | as written | input that shows it | evidently intended | confidence | as-written member | corrected member |
|---|---|---|---|---|---|---|
| src/cli.php:275-276 | `dereference_value` is applied to the whole argument list and to the whole keyword map, so a list holding one falsy argument is itself read as a reference literal, outside the `try` | a call feature `- check: [null]` (or `[0]`, `[false]`) in a spec whose scope has no name "0": the lookup of "0" raises outside the `try` and the whole run ends | each argument and keyword value dereferenced on its own, as the container loop of lines 397-401 does | medium; not executed | Runner.SingleNullArgumentAsWritten | Runner.DerefArgs |
| src/cli.php:312-315 | a closure found in the scope is compared with the user function names, which never holds, so "Call to undefined function" is thrown | `- $import: [somePackage]`, calling the builtin seeded at line 70 | the closure is invoked with the arguments | medium; not executed | Dispatch.ClosureRefusedAsWritten | Dispatch.Decide |
| src/cli.php:337 | `$result != 'ERROR'` is loose, and `true == 'ERROR'` holds in PHP | the features `- flag=: true` and then `- flag==:`: the second reads `true` back with no expected value and fails | only the 'ERROR' sentinel fails a feature with no expected value | high; not executed | Dispatch.TrueFailsAsWritten | Dispatch.Verdict |
