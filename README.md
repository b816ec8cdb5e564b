# State binding in JS-Framework, modelled in Dafny

JS-Framework is an early-draft web framework. Its server rewrites every HTML
page before sending it:

- it collects the page's script declarations of the form
  `let x = state(<literal>)` and numbers them 0, 1, 2, … so that each becomes
  a state `{id, name, value}`;
- it finds every non-SCRIPT element that has a direct text child containing
  the placeholder `{name}`;
- it records each such element under its state's group as
  `{location: getXPath(el), value: innerHTML}`;
- it embeds the resulting `statePaths` table in the page.

In the browser, a small store (`lib/client/stateManager.js`) does the rest:

- `state(v)` hands out numbered handles;
- writing `.value` through a handle stores the new value and re-renders;
- re-rendering (`updateStateUI`) rewrites the text of every recorded element
  of that state. Each `{name}` in the recorded HTML is replaced by the stored
  value of the state called `name`.

This project models that core and proves what it computes. It has seven
modules:

- `Js`: the JavaScript values a state can hold, `Option`/`Result`, and the
  decimal, lower-case and `String(v)` conversions the code relies on.
- `HtmlTree`: the parsed page as an arena of nodes in document order, with
  node 0 the parser's root, which has no tag name. It also holds the
  specification of the structural locator `getXPath` (`XPath`) and its
  properties.
- `AcornAst`: the part of the script syntax tree the core inspects.
- `Bindings`: states, paths and groups (the `statePaths` table), the
  placeholder text `{name}`, and first-match lookups in the group list.
- `Index`: the server side of `index.ts`. It covers the declarator scan, the
  locator loop, and the binding indexer that finds or creates groups. Each
  method is proved against a specification function.
- `Utils`: `utils.ts`. It holds the second copy of the locator loop and
  `parseObjectExpression`, a fold of an object-literal tree into a value.
- `StateManager`: the client store, as a class `Store` with the counter,
  the state map, the page and a log of `innerText` writes. It also holds the
  placeholder tokenizer and substitution, the rendering of a group's paths,
  and the two name/number lookups.

The script walker's visit order is taken as the input: the model receives the
declarators as a sequence in the order the walker reports them. The browser's
`document.evaluate` is modelled as a map from locator to element. Each
`innerText` assignment is recorded as an entry in a write log. It also
replaces the written element's children with text, so the assignment removes
from the map every locator below that element's locator. A recorded element
nested inside one written earlier is therefore no longer found.

## Model

| member | source | states |
|---|---|---|
| Index.ScanStates | index.ts:64-78 | When some recognised `state()` call has no argument, the scan fails at the first such declarator. Otherwise it yields exactly ScanSpec(ds), and the final counter equals the number of recorded states |
| Index.FirstThrow | index.ts:68-70 | Finds the first declarator whose `state()` call has no argument, where reading `arguments[0].type` throws; None exactly when no declarator throws |
| Index.ScanNumbersRecognised | index.ts:66-78 | The k-th recorded state comes from the k-th recognised declarator in visit order: its name is that declarator's identifier and its value is the literal's value verbatim. There are as many states as recognised declarators |
| Index.RecognisedBelow | index.ts:68-70 | Lists the positions of the declarators that `x = state(<Literal>)` recognises, in increasing order; a position is listed iff its declarator is recognised |
| Index.ScanIds | index.ts:73-74 | The recorded ids are 0..N-1 in order |
| Index.SiblingIndex | index.ts:160-172 | The counting loop yields the node's ordinal among its parent's element children with the same tag |
| Index.GetXPath | index.ts:150-185 | A null node fails with "Invalid node provided."; otherwise the loop climbs the tagged parents and returns exactly XPath(doc, node) |
| Index.ContainsState | index.ts:106-113 | The `childNodes.forEach` flag is true iff some direct text child contains the placeholder |
| Index.FindBoundElements | index.ts:104-114 | The filtered element list is exactly Matching(doc, placeholder): the bound elements in document order |
| Index.BoundBelow | index.ts:104-114 | Lists, in increasing order, exactly the element nodes below n that are not SCRIPT and have a text child with the placeholder |
| Index.MatchingIff | index.ts:104-114 | An element is indexed iff it is an element, not a SCRIPT, and has a direct text child containing the placeholder; matches are strictly increasing (document order, no repeats) |
| Index.FindOrCreateGroup | index.ts:122-130 | An existing group for the state is returned unchanged at its first index; otherwise an empty group with the state's number and name is appended. Either way the returned index holds the state's group |
| Index.RecordPaths | index.ts:117-133 | For one state, the element loop adds nothing when no element matched. Otherwise it appends one group whose paths are PathOf of each matched element in order |
| Index.IndexBindings | index.ts:102-134 | The nested `forEach` loops produce exactly ExpectedGroups(doc, states) |
| Index.UpdateHTMLFile | index.ts:64-134 | The scan and the indexer together fail with the scan's error, or yield ExpectedGroups of the scanned states |
| Index.ExpectedGroupNumbers | index.ts:122-130 | Every group's number is the id of some state |
| Index.GroupsOfStates | index.ts:102-134 | Every group is Group(id, name, PathsFor(name)) of some state and has a non-empty path list |
| Index.StatesHaveGroups | index.ts:102-134 | A state with at least one bound element has a group, and that group carries the paths of exactly its bound elements |
| Index.GroupsUnique | index.ts:122-130 | When state ids are distinct, no two groups share a state number |
| Index.GroupsOrdered | index.ts:102-130 | When state ids increase, the group numbers strictly increase |
| Index.PathLocationsDistinct | index.ts:117-133 | Within a group, no two paths have the same location |
| Index.UpdateGroupsOrdered | index.ts:66-134 | For the scanned states, the group numbers strictly increase, so there is at most one group per state |
| Index.PathsOf | index.ts:117-120 | One path per element in order, each `{location: XPath, value: innerHTML}` |
| HtmlTree.Ordinal | index.ts:160-172 | An ordinal is always at least 1 |
| HtmlTree.OrdinalCountsEarlierSiblings | index.ts:162-172 | The ordinal is 1 plus the number of earlier element siblings with the same tag |
| HtmlTree.OrdinalDistinct | index.ts:162-172 | Two same-tag element siblings with equal ordinals are the same node |
| HtmlTree.SameTagIn | index.ts:164 | The same-tag filter keeps exactly the element children with the given tag, in order |
| HtmlTree.SameTagInAppend | index.ts:164 | The filter distributes over concatenation |
| HtmlTree.IndexOrLength | index.ts:165-171 | The loop's stopping point is the first position of the node, or the list length when it is absent |
| HtmlTree.Chain | index.ts:181 | The climbed ancestors form a parent chain through tagged parents that ends at the node and starts below an untagged parent |
| HtmlTree.SegmentsFollowChain | index.ts:158-182 | The locator has one segment per climbed ancestor, each the lower-cased tag followed by `[ordinal]` |
| HtmlTree.SegmentShape | index.ts:175 | A segment is non-empty and contains no `/` |
| HtmlTree.JoinSegsInjective | index.ts:178 | Joining slash-free segments with `/` loses nothing |
| HtmlTree.SegmentTextInjective | index.ts:175 | Different tags or ordinals give different segment texts |
| HtmlTree.SegmentsInjective | index.ts:158-182 | Two elements with the same segment list are the same element |
| HtmlTree.XPathInjective | index.ts:150-185 | Two elements of a page with the same locator are the same element |
| HtmlTree.UntaggedParentIsRoot | index.ts:181 | The climb stops only at the parser's root |
| HtmlTree.ParentOf | index.ts:162 | A parent comes before its child in document order |
| HtmlTree.HasParentIffNotRoot | index.ts:162 | Only the parser's root lacks a parent |
| HtmlTree.LaterSubtreeRejected | index.ts:104 | The document-order condition of a well-formed page rejects a numbering that visits a later sibling before an earlier sibling's child |
| HtmlTree.PreorderAccepted | index.ts:104 | The same shape numbered depth-first, left to right, is a well-formed page |
| Js.Decimal | index.ts:175 | The rendered ordinal is a non-empty string of digits |
| Js.DecimalRoundTrip | index.ts:175 | Reading the rendered ordinal back gives the number |
| Js.DecimalInjective | index.ts:175 | Different ordinals render differently |
| Js.Lower | index.ts:175 | `toLowerCase` maps each ASCII capital to its lower-case letter and keeps the length |
| Js.LowerInjective | index.ts:175 | On upper-case tag names, lower-casing is one-to-one |
| Js.ContainsAt | index.ts:109 | A string that holds the needle at some position `includes` it |
| Js.ContainsWitness | index.ts:109 | Conversely, a string that `includes` the needle holds it at some position |
| Js.ToJsString | lib/client/stateManager.js:45 | `String(v)` of a string is the string itself; of a non-negative number it is its decimal rendering |
| Js.DigitChar | index.ts:175 | Each digit renders as a digit character |
| Utils.SiblingIndex | utils.ts:15-27 | The counting loop over `children[i]` yields the node's ordinal |
| Utils.GetXPath | utils.ts:5-40 | The same contract as the index.ts copy: "Invalid node provided." for null, otherwise exactly XPath(doc, node) |
| Utils.ParseObjectExpression | utils.ts:42-71 | A missing node or init gives null. A call with no argument throws, as does an init that is not a call or whose first argument is not an object literal (each as an iff). Any other result is `Obj(ParseObject(arg))` of the call's first argument, an object with unique keys |
| Utils.ParseEntriesKeys | utils.ts:48-68 | ParseEntries, the `forEach` of the inner `parseObject` over the first n entries (ParseObject runs it over all of them, ValueOf converts one property value): the parsed object's keys are exactly the Identifier keys of its Property entries |
| Utils.ParseEntriesUnique | utils.ts:48-68 | Each key appears once in the object ParseEntries builds |
| Utils.ParseEntriesLastWins | utils.ts:48-68 | In the object ParseEntries builds, a key's value is ValueOf of its last Property entry: a later duplicate overwrites an earlier one |
| Utils.PropertyValue | utils.ts:56-63 | In ParseObject's result, a literal value is copied verbatim. A nested object literal is parsed recursively, so the output nests like the input. Any other value is stored as undefined. A key with no entry is absent |
| Utils.LastWithKey | utils.ts:51-65 | Finds the last processed entry with a given Identifier key; None when there is none |
| Utils.AssignLookup | utils.ts:63 | Assign, which models `obj[key] = value`, makes key read as value and leaves every other key as it was |
| Utils.AssignKeys | utils.ts:63 | Assignment adds exactly the key to the key set |
| Utils.AssignUnique | utils.ts:63 | Assignment keeps keys unique |
| Bindings.FindByNumber | index.ts:122 | `find` by state number: the first group with that number; None iff no group has it |
| Bindings.FindByName | lib/client/stateManager.js:57 | `find` by state name: the first group with that name; None iff no group has it |
| Bindings.FindByNumberAppended | index.ts:122-130 | After a missing group is pushed, `find` returns the new group |
| StateManager.Store.constructor | lib/client/stateManager.js:1-3 | The counter starts at 0 with no states and no writes, over the given page and groups |
| StateManager.Store.State | lib/client/stateManager.js:5-8 | Returns the old counter as a fresh number, increments the counter by exactly one, and stores the value under that number; other entries and the page are unchanged |
| StateManager.Store.Get | lib/client/stateManager.js:20-23 | Reading any property returns the stored value of the handle's state |
| StateManager.Store.Set | lib/client/stateManager.js:12-19 | Key "value" replaces only that state's value and then re-renders its group. The page is left as that re-render leaves it, so the next `set` sees the elements it detached as missing. Any other key changes nothing and triggers no writes. The result is true unless the re-render throws |
| StateManager.Store.UpdateStateUI | lib/client/stateManager.js:28-50 | UpdateUI is the `find` of the group followed by RenderPaths, which models the `forEach` over its paths (lines 31-49). The writes made and the page left behind are exactly those of UpdateUI, also when it stops part-way. The method fails iff UpdateUI does: when no group has the number (the `find` result is undefined), or when a substitution throws |
| StateManager.Detach | lib/client/stateManager.js:42 | Assigning `innerText` keeps every locator except those below the written element's, each still finding the same element |
| StateManager.RenderTargetsPaths | lib/client/stateManager.js:29-48 | Every write goes to the element of one of the group's paths, which therefore exists in the page |
| StateManager.RenderFailsIff | lib/client/stateManager.js:31-49 | The render finishes without throwing iff the text of every path substitutes, where the path finds its element on the page that earlier writes left |
| StateManager.RenderWritesLocated | lib/client/stateManager.js:31-49 | For RenderPaths, the `forEach` over a group's paths: without an error, there is one write per located path, in order: the path's element receives the substituted text. Paths whose element is missing, from the start or after an earlier write, are skipped |
| StateManager.RenderStops | lib/client/stateManager.js:31-49 | Once a substitution throws, later paths are not rendered |
| StateManager.RenderPage | lib/client/stateManager.js:31-49 | A render that does not throw leaves the page as PageAfter, which removes the locators below each element found and written, in turn |
| StateManager.RenderDomSub | lib/client/stateManager.js:34-42 | A render only removes locators; every locator left finds the element it found before |
| StateManager.PageAfterSub | lib/client/stateManager.js:34-42 | The same for PageAfter |
| StateManager.PageAfterKeys | lib/client/stateManager.js:34-42 | A locator is still found after the paths are written iff it was there at the start and lies below no path that found its element |
| StateManager.WrittenHidesBelow | lib/client/stateManager.js:34-42 | Once a path's element has been written, a later path whose location lies below it no longer finds an element |
| StateManager.NestedPathSkipped | lib/client/stateManager.js:31-49 | Two paths, the second below the first, as for `<p>{a}<b>{a}</b></p>`: a single write, to the outer element |
| StateManager.LocatedBelow | lib/client/stateManager.js:41 | The positions of the paths whose element is found in turn, in increasing order |
| StateManager.LocatedIff | lib/client/stateManager.js:41 | A position is located iff its path finds its element on the page that the earlier writes left |
| StateManager.WordRun | lib/client/stateManager.js:43 | The longest prefix of word characters, as `\w*` matches greedily |
| StateManager.MatchAt | lib/client/stateManager.js:43 | A match is `{`, a name that is all digits or does not start with a digit, and `}` |
| StateManager.Tokenize | lib/client/stateManager.js:42-47 | Every placeholder found has a valid name |
| StateManager.TokenizeRoundTrip | lib/client/stateManager.js:42-47 | Splitting the text into literal characters and placeholders loses nothing: unparsing gives the text back |
| StateManager.SubstituteSucceedsIff | lib/client/stateManager.js:42-47 | Substitute models `path.value.replace(/…/g, fn)`: it tokenizes the text and runs Fill over the pieces, where PieceValue is the callback's result for one piece. Replacement succeeds iff every matched name belongs to some group; otherwise the lookup throws |
| StateManager.FillFailsIff | lib/client/stateManager.js:44-46 | Fill runs the callbacks left to right, each piece through PieceValue. Filling fails iff some placeholder's name has no group, and then with the first such name |
| StateManager.NoBraceUnchanged | lib/client/stateManager.js:42-47 | Text without `{` is left unchanged |
| StateManager.SubstitutePlaceholder | lib/client/stateManager.js:42-47 | A placeholder after brace-free text is replaced by `String` of the named state's value; the surrounding text is kept |
| StateManager.CounterExample | lib/client/stateManager.js:42-47 | "Count: {count}" with count = 5 renders as "Count: 5" |
| StateManager.TokenizePlaceholder | lib/client/stateManager.js:43 | `{name}` with a valid name is read as one placeholder |
| StateManager.TokenizeNoBrace | lib/client/stateManager.js:43 | Brace-free text is read as literal characters |
| StateManager.GetStateNumberByName | lib/client/stateManager.js:56-58 | The number of the first group with that name; throws iff no group has the name |
| StateManager.GetStateNameByStateNumber | lib/client/stateManager.js:52-54 | As written: an existing group yields undefined; throws iff no group has the number |
| StateManager.StateNameOf | lib/client/stateManager.js:52-54 | Corrected: the name of the first group with that number; fails iff no group has the number |
| StateManager.NameNumberRoundTrip | lib/client/stateManager.js:52-58 | With unique numbers, the name of the looked-up number is the name that was looked up |
| StateManager.NumberNameRoundTrip | lib/client/stateManager.js:52-58 | With unique names, the number of the looked-up name is the number that was looked up |
| StateManager.StateNameLost | lib/client/stateManager.js:52-54 | For the group {0, "count"}, the lookup as written gives undefined while the corrected lookup gives "count" |

## Left out

- HTTP routing, `Bun.serve`, the live-reload middleware and file reading (index.ts:1-48, 188-192) are I/O glue and are not modelled.
- Parsing the page with node-html-parser, joining the scripts, and parsing them with acorn (index.ts:52-56). These are external libraries. The model takes the parsed tree (`HtmlTree.Doc`) and the declarators in the walker's visit order (`seq<Declarator>`) as inputs. `innerHTML` is an opaque string per element.
- Building the embedded `<script>` with `JSON.stringify`, and `dom.toString()` (index.ts:136-146), are library serialisation and are not modelled. The indexer's result is the group list itself.
- The browser's `document.evaluate`, XPathResult and the `innerText` setter are modelled as a map from locator to element and a write log. They do not model a live DOM tree: a write removes every locator below the written one, and leaves the rest. Layout, HTML escaping by `innerText`, and the `<br>` elements that the setter makes from line breaks are not modelled. Locators that would newly match after such a rewrite are not modelled either.
- The Proxy mechanism itself is not modelled. A handle is its state number, and the traps are the `Get` and `Set` methods of `Store`. The trap's `target` and `receiver` arguments, and symbol keys, are not modelled.
- `console.log` calls have no effect on state and are left out.
- Numbers are modelled as integers. Floating-point values, and `String` of a negative or fractional number beyond its sign and digits, are not modelled.
- `toLowerCase` is modelled on ASCII letters only.
- `Utils.ParseEntries` treats every Identifier key as a plain own property. The special `__proto__` setter and computed keys (`{[k]: v}`, which acorn also reports with an Identifier key) are not distinguished.
- Literal values other than strings, numbers, booleans and null (regular expressions, big integers) are not modelled.
- test.ts and "index copy.ts" are not part of this model. test.ts only prints a parse of a fixed snippet. "index copy.ts" is another draft of the server; it adds attribute bindings and object-valued states. Nothing in index.ts calls `parseObjectExpression` or the utils.ts `getXPath`.
- The page tree is assumed well formed (`HtmlTree.Wf`): nodes in document order, consistent parent and child links, and tag names that are non-empty and contain no lower-case ASCII letter, `/` or `[`. `HtmlTree.XPathInjective` relies on the tag-name conditions.
- Index.IndexBindings: requires distinct state ids. ScanSpec always provides them (Index.ScanIds), so the scanned case is not restricted.
- StateManager.Store.Get and StateManager.Store.Set: require a state number below the counter, because handles exist only for numbers that `state()` produced.
- StateManager.Store.UpdateStateUI: the source's call passes the new value as a second argument, which the function ignores; the model has no such parameter.
- The comments at index.ts:92-99 describe values such as `Count1: {0}`. The code records the element's innerHTML unchanged, and the model follows the code.

## Findings

| source | as written | input that shows it | evidently intended | confidence | as-written member | corrected member |
|---|---|---|---|---|---|---|
| lib/client/stateManager.js:52-54 | `getStateNameByStateNumber` returns the `.name` of the found group, but groups carry `stateName`, not `name` | statePaths `[{stateNumber: 0, stateName: "count", paths: []}]`, stateNumber 0: the result is undefined | return the group's `stateName` ("count") | high; not executed | StateManager.GetStateNameByStateNumber (exhibited by StateManager.StateNameLost) | StateManager.StateNameOf (round trips StateManager.NameNumberRoundTrip and StateManager.NumberNameRoundTrip) |
