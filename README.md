# AXElements core: name resolution, element search, dispatch and the keystroke parser

This project models two parts of AXElements, a Ruby wrapper around the macOS accessibility API, and proves properties of the model.

**`AX::Element`** (lib/AXElements/Element.rb) wraps one node of the accessibility tree.
- **Name resolution.** A caller writes a terse name such as `title`, `enabled?` or `title_ui_element`. It is resolved against the node's exact attribute, action or parameterised-attribute names. The short name loses every `_` and a trailing `?`. A candidate matches when its ASCII-lower-cased form ends with the lower-cased result. The first match in candidate order wins.
- **Checked wrappers.** `get_attribute`, `perform_action`, `get_param_attribute` and `set_attribute` raise `ArgumentError` when the name does not resolve. Otherwise the first three call the accessibility API with the resolved name. `set_attribute` checks that the resolved name is writable but hands the write the caller's short name; see Findings.
- **Caches.** The attribute names are a snapshot taken when the wrapper is made. Actions, parameterised attributes and the process id are fetched on first use and kept.
- **`search`.** A breadth-first walk below the element with a FIFO queue. It keeps the nodes whose class is the requested type and whose filters all compare equal. A singular search returns the first such node or `nil`; a plural one returns all of them.
- **`method_missing`.** It reads an attribute when the name resolves. Otherwise it searches when the element has children, and otherwise it gives up (`super`).

**`Accessibility::Core::StringParser`** (lib/accessibility/core/string_parser.rb) turns text into key events.
- An `ALT` character is typed as shift plus another key.
- A backslash starts a named key, e.g. `\ESCAPE` or `\F5`.
- Any other character is looked up in `MAPPING`, the keyboard-layout table.

Modules:
- `NameMatch`: `matcher` and `constant_for`.
- `Binding`: the accessibility API as a datatype of functions. Each `AX.*` call, `AX.plural_const_get` and `String#camelize!` is a field.
- `BreadthFirst`: the order in which the search queue dequeues nodes, over any finite tree.
- `ElementSearch`: search and dispatch as functions of the binding.
- `AXElement`: the class `Element` with its caches, checked wrappers, dispatch and the imperative search loop. The loop is proved equal to `ElementSearch.SearchValue`.
- `KeyParser`: the parser. `ParseSpec` and `Custom` take the two literal tables as a parameter `t`, and `BuiltIn` holds the tables of string_parser.rb. The parser's laws are proved for any tables, so they hold for `BuiltIn`. Laws about named keys need the backslash not to be an `ALT` key; `BackslashIsNotAlt` shows `BuiltIn` meets that. `Parse` and `ParseCustom` are loops over a character queue that use the built-in tables. They are proved equal to `ParseSpec(BuiltIn, ...)` and `Custom(BuiltIn, ...)`.
- `Wrappers`: `Option` and `Result`.

Points where the model follows details of the code:
- **Ties in resolution.** `constant_for` calls `matches.sort_by(&:length)` at Element.rb:240 and drops the sorted copy, so the first match in candidate order wins, not the shortest. `NameMatch.FirstMatchNotShortest` shows a case where the shortest match is not the answer.
- **Unknown search type.** The model assumes that `AX.plural_const_get` answers a class or `nil` and never raises: `pluralConstGet` returns an `Option`. On `nil`, `primary_filter` stays `nil` (Element.rb:112), no node's class equals it (line 119), and the search finds nothing.
- **Attribute writes.** `set_attribute` checks the resolved name for writability (Element.rb:70) but passes the caller's short name to the write (line 73); see Findings.

## Model

| member | source | states |
|---|---|---|
| NameMatch.Normalize | lib/AXElements/Element.rb:225-227 | the normalised name holds no `_`, is no longer than the short name and uses only its characters |
| NameMatch.NormalizeClosedForm | lib/AXElements/Element.rb:226 | the normal name is the short name with one `?` removed when it is the last character, then every `_` removed, and nothing else changed |
| NameMatch.QuestionBeforeUnderscoreKept | lib/AXElements/Element.rb:226 | a `?` that is not the last character survives: `a?_` normalises to `a?` |
| NameMatch.UnderscoreIsNoise | lib/AXElements/Element.rb:226 | deleting a `_` that is followed by another character leaves the normal form unchanged |
| NameMatch.TrailingQuestionIsNoise | lib/AXElements/Element.rb:226 | `name?` and `name` normalise alike (a predicate name resolves like the plain name) |
| NameMatch.NormalizePlain | lib/AXElements/Element.rb:226 | a name without `_` or `?` is its own normal form |
| NameMatch.Matches | lib/AXElements/Element.rb:225-227 | `matcher` as a relation (a definition, no contract): the candidate's ASCII-lower-cased form ends with the lower-cased normal name, which is what `/name$/i` accepts for identifier names; its laws are `MatchesBySuffix` and `TooLongToMatch` |
| NameMatch.MatchesBySuffix | lib/AXElements/Element.rb:225-227 | a candidate ending in any case variant of the normalised name matches it |
| NameMatch.TooLongToMatch | lib/AXElements/Element.rb:225-227 | a normalised name longer than the candidate never matches it |
| NameMatch.FindAllMembers | lib/AXElements/Element.rb:238 | `find_all` keeps exactly the candidates that match |
| NameMatch.FindAllFirst | lib/AXElements/Element.rb:236-242 | the matches are empty iff no candidate matches; otherwise the first is the earliest matching candidate |
| NameMatch.ConstantFor | lib/AXElements/Element.rb:236-243 | `constant_for`: a result is always a listed candidate that matches the name |
| NameMatch.ConstantForSpec | lib/AXElements/Element.rb:236-243 | `constant_for` is nil iff no candidate matches; otherwise it is a listed candidate that matches, with no earlier candidate matching |
| NameMatch.ConstantForPrefix | lib/AXElements/Element.rb:236-242 | once a prefix of the candidates resolves the name, appending candidates changes nothing |
| NameMatch.FirstCandidateWins | lib/AXElements/Element.rb:240-241 | a matching first candidate is the answer whatever follows it |
| NameMatch.TitleResolvesToAXTitle | lib/AXElements/Element.rb:236-243 | "title" against ["AXTitle", "AXTitleUIElement"] resolves to "AXTitle" |
| NameMatch.WindowMatchesBoth | lib/AXElements/Element.rb:225-227 | "window" matches both "AXWindow" and "AXMainWindow" |
| NameMatch.FirstMatchNotShortest | lib/AXElements/Element.rb:240-241 | with "AXMainWindow" listed before the shorter "AXWindow", "window" resolves to "AXMainWindow": the length sort has no effect |
| NameMatch.ChildrenMatchesAXChildren | lib/AXElements/Element.rb:115-116 | the exact children attribute answers to the short name "children" |
| Binding.RootChildren | lib/AXElements/Element.rb:106 | the initial queue (a definition, no contract): the elements of the root's exact children attribute, read without name resolution |
| Binding.Kids | lib/AXElements/Element.rb:115-116 | the nodes a dequeued node adds to the queue (a definition, no contract): none unless it lists the exact children attribute, else the elements of the first attribute that answers to "children"; its laws are `KidsReadsChildren` and `NoChildrenAttributeNoKids` |
| Binding.KidsReadsChildren | lib/AXElements/Element.rb:115-116 | a node listing the children attribute always resolves "children"; it contributes the elements of the first attribute that answers to it |
| Binding.NoChildrenAttributeNoKids | lib/AXElements/Element.rb:115 | a node without the exact children attribute enqueues nothing |
| BreadthFirst.StepShrinks | lib/AXElements/Element.rb:110-117 | dequeuing one node and enqueuing its children leaves strictly fewer nodes to visit in a finite tree, so the loop ends |
| BreadthFirst.WalkStartsWithQueue | lib/AXElements/Element.rb:106-111 | the visit order starts with the initial queue, in queue order |
| BreadthFirst.WalkAppend | lib/AXElements/Element.rb:110-117 | walking `front + back` visits `front` first, then walks `back` followed by the children of `front` (FIFO) |
| BreadthFirst.LevelOrder | lib/AXElements/Element.rb:110-117 | a whole level is visited before any node of the next level |
| BreadthFirst.SiblingBeforeNephew | lib/AXElements/Element.rb:111-116 | when `a` has the one child `c` and `b` none, the walk of [a, b] is [a, b, c] |
| BreadthFirst.WalkBelow | lib/AXElements/Element.rb:106-117 | no node the walk visits lies above the queue it started from |
| ElementSearch.SearchValue | lib/AXElements/Element.rb:103-127 | `search` as a function of the binding: a successful search of a plural type name gives a list, of a singular one a single element or nil |
| ElementSearch.AllHits | lib/AXElements/Element.rb:119-125 | collecting succeeds iff no node's test raises; it then holds exactly the nodes of the order that are hits, no more of them than the order has |
| ElementSearch.AllHitsAppend | lib/AXElements/Element.rb:110-124 | collecting over `a + b` gives the hits of `a` followed by those of `b`, and an exception in `a` ends the scan before `b`: hits come in visit order |
| ElementSearch.FirstHit | lib/AXElements/Element.rb:119-122 | the result is nil iff every node tests as a miss; a found node is a hit with only misses before it; it raises iff some node's test raises with only misses before it, so the scan stops at the first hit |
| ElementSearch.IsHit | lib/AXElements/Element.rb:119-120 | a node whose class is not the resolved type is a miss, whatever its filters would do |
| ElementSearch.FiltersPass | lib/AXElements/Element.rb:120 | `filters.find` as a function (a definition, no contract): the filters in the order given, stopping at the first unequal value or exception; its laws are `FiltersPassLaw`, `FiltersPassRaises` and `FiltersPassRaisesKeyError` |
| ElementSearch.FilterLaw | lib/AXElements/Element.rb:119-120 | a node is a hit iff its class is the resolved type and sending each filter key gives that filter's value; a node of another class is a miss; with no filters every node of the type is a hit |
| ElementSearch.FiltersPassLaw | lib/AXElements/Element.rb:120 | the filters pass iff each filter key, sent to the node, gives that filter's value |
| ElementSearch.FiltersPassRaises | lib/AXElements/Element.rb:120 | the filter check raises iff some key's `send` raises after every earlier key compared equal; later keys are never sent |
| ElementSearch.FiltersPassRaisesKeyError | lib/AXElements/Element.rb:120 | the exception the filter check raises is the one raised by sending such a key |
| ElementSearch.Send | lib/AXElements/Element.rb:120 | `element.send(key)` on a fresh wrapper (a definition, no contract): `method_missing` with no arguments, an unresolved name becoming NoMethodError |
| ElementSearch.Dispatch | lib/AXElements/Element.rb:151-156 | `method_missing` as a function: an element listing the children attribute never falls through to `super`, and an exception can only come from its search |
| ElementSearch.UnresolvableFilterRaises | lib/AXElements/Element.rb:120 | a filter key that matches no attribute of a childless candidate raises NoMethodError instead of being skipped |
| ElementSearch.FirstOfAll | lib/AXElements/Element.rb:122-126 | the singular result is the first element of the plural collection, or nil when it is empty |
| ElementSearch.RootNotInOrder | lib/AXElements/Element.rb:106-111 | every node visited lies strictly below the root, so the root itself is never a candidate |
| ElementSearch.OrderStartsWithRootChildren | lib/AXElements/Element.rb:106-111 | the visit order begins with the root's children in the order the root lists them |
| ElementSearch.SearchCardinality | lib/AXElements/Element.rb:103-127 | a plural search raises iff some node's test raises, and otherwise gives a list of exactly the hits of the visit order, without the root; a singular search gives nil iff every node misses, raises iff a test raises before any hit, and otherwise gives a hit (never the root) with only misses before it |
| ElementSearch.DispatchOrder | lib/AXElements/Element.rb:151-156 | a name that resolves reads the first matching attribute and never searches; otherwise a node with children searches with the given filters; otherwise the name is unresolved |
| AXElement.Element.constructor | lib/AXElements/Element.rb:10-13 | the wrapper keeps the node and a snapshot of its attribute names; all caches start empty |
| AXElement.Element.Actions | lib/AXElements/Element.rb:19 | the action names are fetched on the first call only; later calls return the cached list and other caches are untouched |
| AXElement.Element.ParamAttributes | lib/AXElements/Element.rb:22 | the parameterised-attribute names are fetched on the first call only |
| AXElement.Element.Pid | lib/AXElements/Element.rb:25-27 | the process id is fetched on the first call only |
| AXElement.Element.AttributeFor | lib/AXElements/Element.rb:229 | nil iff no attribute of the snapshot matches; otherwise the first matching attribute in snapshot order |
| AXElement.Element.ActionFor | lib/AXElements/Element.rb:230 | resolves against the cached action names, filling the cache on first use |
| AXElement.Element.ParamAttributeFor | lib/AXElements/Element.rb:231 | resolves against the cached parameterised-attribute names, filling the cache on first use |
| AXElement.Element.GetAttribute | lib/AXElements/Element.rb:30-34 | ArgumentError iff no attribute matches; otherwise the value of the first matching attribute, unchanged |
| AXElement.Element.PerformAction | lib/AXElements/Element.rb:44-48 | ArgumentError iff no cached action matches; otherwise the API's answer for the first matching action |
| AXElement.Element.GetParamAttribute | lib/AXElements/Element.rb:55-59 | ArgumentError iff no cached parameterised attribute matches; otherwise the API's answer for the first match with the given parameter |
| AXElement.Element.SetAttribute | lib/AXElements/Element.rb:67-75 | fails iff the name does not resolve ("not an attribute") or the resolved attribute is not writable ("not writable"); otherwise echoes the value given; as written, the write names the short name |
| AXElement.Element.SetAttributeResolved | lib/AXElements/Element.rb:67-75 | the same outcome and errors as `SetAttribute`; a write names exactly the attribute `attribute_for` resolves, which the element has, which answers to the name and is writable |
| AXElement.SetAttributeWritesShortName | lib/AXElements/Element.rb:73 | with the single attribute "AXTitle", `set_attribute(:title, v)` hands the write "title", a name the element lacks; the corrected version writes "AXTitle" |
| AXElement.Element.RespondTo | lib/AXElements/Element.rb:191-195 | true iff some attribute matches the name, else the inherited answer |
| AXElement.RespondsExactlyToAttributes | lib/AXElements/Element.rb:191-195 | `respond_to?` without the inherited answer is true iff dispatch reads an attribute; search names are never reported |
| AXElement.Element.MethodMissing | lib/AXElements/Element.rb:151-156 | the outcome is the dispatch function's: attribute value, search result or unresolved |
| AXElement.Element.Send | lib/AXElements/Element.rb:120 | sending a filter key gives the attribute or search result, or NoMethodError when unresolved |
| AXElement.Element.Passes | lib/AXElements/Element.rb:120 | the loop over the filters agrees with the filter law: false at the first unequal value, the first exception raised |
| AXElement.Element.ChildElements | lib/AXElements/Element.rb:115-116 | the nodes the loop enqueues below a dequeued element, read through the fuzzy `get_attribute :children`, are exactly `Binding.Kids` of it |
| AXElement.Element.Search | lib/AXElements/Element.rb:103-127 | the queue loop with its lazily set class filter returns what `SearchValue` specifies: every hit in visit order (plural) or the first hit or nil (singular) |
| KeyParser.ParseSpec | lib/accessibility/core/string_parser.rb:148-163 | `parse` as a function (a definition, no contract): an `ALT` character first, else a backslash starting a named key, else the character through `MAPPING`; its laws are the `KeyParser` rows below |
| KeyParser.ParseAlt | lib/accessibility/core/string_parser.rb:169-172 | four events: shift (56) down, a key down, the same key up, shift up; the key has the `MAPPING` code of `ALT[c]`, and no code when `MAPPING` lacks it |
| KeyParser.ParseDynamic | lib/accessibility/core/string_parser.rb:192-198 | ArgumentError iff `MAPPING` has no code for the character; otherwise the key down and up with that code |
| KeyParser.AltFirst | lib/accessibility/core/string_parser.rb:169-172 | an `ALT` character gives shift down, the key down and up with `MAPPING[ALT[c]]` (possibly nil), shift up; then the rest |
| KeyParser.AltAlone | lib/accessibility/core/string_parser.rb:153-154 | a string of one `ALT` character parses to exactly its four shift-wrapped events |
| KeyParser.DynamicOtherwise | lib/accessibility/core/string_parser.rb:153-158 | any other character except the backslash is pressed through `MAPPING`, or the parse raises |
| KeyParser.BackslashIsNotAlt | lib/accessibility/core/string_parser.rb:92-140 | the backslash is not an `ALT` key, so it always starts a named key |
| KeyParser.EscapeName | lib/accessibility/core/string_parser.rb:175-186 | the collected name is the longest space-free prefix of the queue |
| KeyParser.Custom | lib/accessibility/core/string_parser.rb:175-189 | NotImplementedError iff a `+` comes before the first space; otherwise the queue from the terminating space on remains, and it is shorter |
| KeyParser.ParseCustom | lib/accessibility/core/string_parser.rb:175-189 | the collecting loop returns what `Custom` specifies; its final raise cannot be reached |
| KeyParser.ParseOne | lib/accessibility/core/string_parser.rb:152-159 | one step of the loop: the queue shrinks, and parsing the queue is the front character's events followed by parsing what remains, or the exception that step raises |
| KeyParser.Parse | lib/accessibility/core/string_parser.rb:148-163 | the queue loop returns what `ParseSpec` specifies |
| KeyParser.EscapeThenSpace | lib/accessibility/core/string_parser.rb:175-184 | a named key ends at a space; it is pressed with its `ESCAPES` code (nil when unknown) and the space is parsed next |
| KeyParser.EscapeAtEnd | lib/accessibility/core/string_parser.rb:181-183 | a named key running to the end is pressed; an unknown name gives a press with no code, not an exception |
| KeyParser.FunctionKeyCode | lib/accessibility/core/string_parser.rb:35 | `ESCAPES` gives the fn key code 0x3F |
| KeyParser.EscapeFunction | lib/accessibility/core/string_parser.rb:35 | `\FUNCTION` parses to the fn key down and up |
| KeyParser.PlusIsAlt | lib/accessibility/core/string_parser.rb:107 | `+` is an `ALT` key for `=` |
| KeyParser.PlusOutsideEscape | lib/accessibility/core/string_parser.rb:153-154 | outside a named key, `+` is typed as shift and `=` |
| KeyParser.EscapePlusRaises | lib/accessibility/core/string_parser.rb:179-180 | a `+` met while collecting a name raises NotImplementedError |
| KeyParser.NewlineIsEscape | lib/accessibility/core/string_parser.rb:25 | `ESCAPES` maps a newline to 0x24 |
| KeyParser.NewlineIsNotAlt | lib/accessibility/core/string_parser.rb:92-140 | a newline is not an `ALT` key |
| KeyParser.NewlineUsesMapping | lib/accessibility/core/string_parser.rb:153-158 | the newline entry of `ESCAPES` is never used: a newline is pressed through `MAPPING`, or the parse raises |
| KeyParser.PressReleases | lib/accessibility/core/string_parser.rb:194 | a press releases the key it pressed and leaves the held keys as they were |
| KeyParser.AltReleases | lib/accessibility/core/string_parser.rb:171 | the shift-wrapped press releases the key, then shift |
| KeyParser.ParseReleasesAll | lib/accessibility/core/string_parser.rb:148-198 | every successful parse releases each key it presses, innermost first, starting from any held keys |
| KeyParser.ParseBalanced | lib/accessibility/core/string_parser.rb:148-198 | a successful parse leaves no key down, has as many key-downs as key-ups and an even number of events |
| KeyParser.ParseConcat | lib/accessibility/core/string_parser.rb:148-163 | the events of `a + b` are those of `a` then those of `b`, the first exception winning, when no named key in `a` runs into `b` |
| KeyParser.ParseEmpty | lib/accessibility/core/string_parser.rb:148-163 | the empty string gives no events |

## Left out

- `wait_for_notification` (Element.rb:165-167) and lib/AXElements/Traits/Notifications.rb: run-loop observers, timeouts and callbacks into the accessibility API.
- `inspect`, `pretty_print`, `description` and `methods` (Element.rb:80-82, 171-203): output formatting through `AX.prefix`, which is not part of this model, or unfinished stubs.
- The `AX.*` calls, `AX.plural_const_get` and `String#camelize!` are not modelled. They are uninterpreted functions in `Binding.Binding`, and the model proves what the core does with any answers they give.
- Every field of `Binding.Binding` is a total function. An `AX.*` call, `AX.plural_const_get` or `camelize!` that raises (a dead element, say) is not modelled.
- The protected `attribute` (Element.rb:218-220) is the binding's `attrOf`, used directly.
- The binding is one fixed state per call. Changes to the tree after an action or a write (a window that closes) are not modelled.
- The write itself is a `WriteCall` value returned to the caller, not a side effect.
- `ElementSearch.WellFounded`: the model assumes the tree below a node is finite and acyclic. On a cyclic tree the source's loop would not end; that case is not modelled.
- `Binding.Kids` and `Binding.RootChildren`: a children value that is not an array of elements is read as no children. The source would raise instead: `concat` of a non-array at Element.rb:116, and `nil.empty?` (NoMethodError) at line 110 when the root has no children attribute.
- `AXElement.Element.Send`: every filter key goes to `method_missing`. Ruby methods that `Element` or `Object` already define (`pid`, `actions`, `class`, ...) would answer a filter key directly. That bypass is not modelled.
- `NameMatch.Matches`: the short name is read as a plain identifier. Regular-expression metacharacters in a name are not modelled.
- The mapping from nodes to Ruby wrapper objects is not modelled: a node is its `NodeId`, and its class is `classOf`. Equality of search results is equality of ids.
- `StringParser.regenerate_dynamic_mapping`, `KeyCodeGenerator` and the layout-change observer (string_parser.rb:9-11, 207-213) are OS input. `MAPPING` is the parameter `mapping` of every parser operation.
- `KeyParser.ParseCustom`: the character array that `parse` and `parse_custom` share is passed by value. `ParseCustom` returns the rest of the queue instead of shifting the caller's array in place.
- Key codes are unbounded integers, and there is no event posting.

## Findings

| source | as written | input that shows it | evidently intended | confidence | as-written member | corrected member |
|---|---|---|---|---|---|---|
| lib/AXElements/Element.rb:73 | `set_attribute` resolves the name and checks that the resolved attribute is writable, then hands the write the caller's short name `attr` | an element whose only attribute is "AXTitle", writable, and `set_attribute(:title, v)`: the write names "title", which the element does not have | the write names the resolved attribute, as the writability check at line 70 does | high; not executed | AXElement.SetAttributeWritesShortName | AXElement.Element.SetAttributeResolved |
