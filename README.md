# Theme re-styling engine

The model covers the engine of a design-tool plugin that re-themes a selection. Each selected
root (a screen) carries a theme path in its name: `kinds/name/variant/const`, or the shorthand
`name/variant`, possibly wrapped in a screen title such as `Login(Pro/Day)`. The engine works
in four steps:

1. It builds two dictionaries of the available styles, one by id and one by name, once for
   the whole run.
2. For each selected root, it validates the root's name, expands it and parses it into a
   selector.
3. It walks the root and every descendant. A root without `findAll` (a leaf layer) is skipped
   entirely, itself included. For each kind token of the selector (`ColorTheme`,
   `EffectTheme`, `TextTheme`), it looks up the style the node holds in the matching slot
   (fill and stroke, effect, text) and derives the name of its counterpart in the requested
   theme. If the registry has that style and the constant policy allows it, the slot is
   re-pointed to it.
4. Anything else becomes a diagnostic in one of three buckets, reported in bucket order at
   the end.

The earlier snapshot of the same engine (`code.js`) is modelled beside it. It has the grammar
without the `(...)` group and the `_` suffix rule, nodes classified by the slots they have, and
its in-place colour rule.

Modules, one file each:

- `wrappers.dfy`: `Option` and `Result`.
- `jsstring.dfy` (`JsString`): the JavaScript string operations behind every path reader.
  - `trim` with ECMAScript white space;
  - `split` on one character;
  - the trim-and-drop-empty pipeline (`Pieces`), with its round trip through `Join`.
- `grammar.dfy` (`ThemePathGrammar`): the final plugin's theme-path grammar.
  - Validation.
  - The first match of `/\((.+?)\)/`, modelled so that it is leftmost and shortest.
  - Expansion.
  - The `/_.+/` name-suffix rule.
  - Parsing.
  - A destructured segment past the end of the list is kept as `Seg.Undefined`, which a
    template literal prints as `undefined`.
- `registry.dfy` (`StyleRegistry`): the two dictionaries built from one ordered style sequence
  (last write wins), and the order in which imported and local styles reach it.
- `slots.dfy` (`StyleSlots`): the node class and its per-slot decisions.
  - Its four style-id slots are mutable; the type tag, the name and the inline fill, stroke
    and effect counts are constant.
  - Paintable and text classification.
  - The `validate*ForColorTheme` checks.
- `resolver.dfy` (`ThemeResolver`): the work for one node.
  - The selector.
  - The candidate name and the constant policy.
  - Per-slot resolution, stated as functions over slot values: `SlotSpec` for one slot,
    `KindSpec` for one kind token, `TokensSpec` for all the tokens.
- `walker.dfy` (`TreeWalker`): the whole `applyTheme` command.
  - Functions over a map from nodes to slot values: `NodesSpec`, `RootsSpec` and `Run`.
  - Methods with the same nested loops, `break` and `continue` as the source. They update the
    nodes in place and are proved to end in exactly the state the functions describe.
- `early.dfy` (`EarlySnapshot`): the earlier snapshot's grammar (related to the final one),
  its node predicates, and `applyColorTheme` as a method that writes an `EarlyNode`'s slots in place.

Points where the source behaves in a way a reader might not expect, and the model follows it:

- **Severity.** Plain-value, unknown-theme and ignored-constant diagnostics carry the
  `pushError` default `'error'` (`src/plugin.js:403`), although the messages read like
  warnings. Only "Skipping theme" passes `'warning'` (`ThemeResolver.SlotSpec` states each
  severity).
- **Validation and expansion read different text.** Validation reads the whole root name;
  expansion reads the text of its `(...)` group.
  - A name such as `Login(Pro)/Day` passes validation. Its expansion `Pro` then fails to
    parse, and in the source the run throws.
  - The model keeps this as the `Crashed` outcome (`ValidNameWithShortGroup`,
    `ShortGroupRootCrashes`).
- **No plain-text diagnostic.** For an empty text style id, `validateTextForColorTheme` sets
  `isPlainEffect`, while the result it returns, and its caller reads, holds `isPlainText`,
  which stays `false` (`src/plugin.js:356-361`). The model keeps this: `CheckText` never
  reports a plain value.
- **A leaf root is skipped.** A selected root without `findAll`, such as a rectangle or a text
  layer selected on its own, is passed over entirely: the root itself is not re-styled and
  nothing is reported (`src/plugin.js:59-63`; `TreeWalker.Visited`, `LeafRootSkipped`).
- **Text candidate.** The text kind's candidate takes the style's own variant, not the
  selector's (`src/plugin.js:204`).

## Model

| member | source | states |
|---|---|---|
| JsString.Split | src/plugin.js:244 | `split` yields at least one piece, no piece holds the separator, and every character of a piece comes from the input |
| JsString.Trim | src/plugin.js:244 | `trim` yields a string with no white space at either end, made of the input's characters, and leaves a trimmed string as it is |
| JsString.TrimCutsWhiteSpace | src/plugin.js:244 | `trim` cuts white space, and only white space, from the two ends; with `Trim`'s own contract that its result has none at either end, this fixes the result exactly |
| JsString.NonEmpty | src/plugin.js:244 | the `filter` keeps exactly the non-empty elements of its input: every element it yields is a non-empty input element, every non-empty input element is yielded, all are kept when none is empty, and a one-element list gives itself or nothing |
| JsString.NonEmptyAppend | src/plugin.js:244 | filtering works element by element: filtering `a + b` gives the filtered `a` followed by the filtered `b` |
| JsString.Pieces | src/plugin.js:244 | every segment the split-trim-filter pipeline yields is non-empty, trimmed and separator-free, and is made of the input's characters |
| JsString.SplitJoin | src/plugin.js:244 | `split` gives back the separator-free parts a string was joined from |
| JsString.PiecesOfJoin | src/plugin.js:244 | the pipeline gives back exactly the well-formed segments a string was joined from |
| JsString.PiecesOfPaddedJoin | src/plugin.js:244 | for separator-free parts, padded or empty ones included, the pipeline gives back the trimmed parts with the empty ones dropped |
| ThemePathGrammar.ValidateThemePath | src/plugin.js:243-247 | `validateThemePath`: the path's trimmed, non-empty `/`-segments number two or four |
| ThemePathGrammar.ValidateJoined | src/plugin.js:243-247 | a path built from well-formed segments is valid exactly when it has two or four of them, so 0, 1, 3 and 5+ are rejected |
| ThemePathGrammar.CloseFrom | src/plugin.js:252 | the lazy `.+?\)` stops at the first `)` after a run with no line terminator, and finds none exactly when no such `)` exists |
| ThemePathGrammar.MatchAt | src/plugin.js:252 | a group match starting at a position, when there is one, is the shortest one |
| ThemePathGrammar.FirstGroupFrom | src/plugin.js:252 | the match found is the leftmost, and at its start the shortest; no match is found only when none exists |
| ThemePathGrammar.GroupText | src/plugin.js:252-253 | the name has a group text exactly when some `(x)` with a non-empty, line-break-free `x` occurs in it |
| ThemePathGrammar.SelectorText | src/plugin.js:250-253 | the text expansion works on: the group's text when the name has a group, otherwise the whole name |
| ThemePathGrammar.ExpandSegments | src/plugin.js:255-279 | the expansion rule on that text: two segments become the shorthand's four, a `*` kind segment becomes the kind list, anything else is returned as it is |
| ThemePathGrammar.ExpandThemePath | src/plugin.js:249-280 | `expandThemePath`: the expansion rule applied to the selector text of the name |
| ThemePathGrammar.NoParenthesisNoGroup | src/plugin.js:252-253 | for a name without `(`, expansion reads the whole name |
| ThemePathGrammar.AllKindsListed | src/plugin.js:258 | the expanded kind list reads back as `ColorTheme`, `EffectTheme`, `TextTheme` |
| ThemePathGrammar.ExpandShorthand | src/plugin.js:261-265 | a two-segment path `n/v` expands to the segments `[all kinds, n, v, *]` |
| ThemePathGrammar.ExpandShorthandPath | src/plugin.js:261-265 | `n/v` expands to the string `ColorTheme,EffectTheme,TextTheme/n/v/*` |
| ThemePathGrammar.ExpandWildcardKinds | src/plugin.js:268-274 | a path whose first segment is `*` is rewritten to all kinds followed by its next three segments, a missing one printed as `undefined` |
| ThemePathGrammar.ExpandWildcardPath | src/plugin.js:271-274 | `*/n/v/c` expands to `ColorTheme,EffectTheme,TextTheme/n/v/c`: only the kind segment changes |
| ThemePathGrammar.ExpandOtherwiseUnchanged | src/plugin.js:276-279 | any other path is returned as it is: the group text, or the whole name when there is no group |
| ThemePathGrammar.ExpandFullPath | src/plugin.js:276-279 | a four-segment path whose kind segment is not `*` is returned unchanged |
| ThemePathGrammar.ExpandIdempotent | src/plugin.js:249-280 | expanding the output of an expansion changes nothing, for every name that has a `(...)` group and every name without `(` or without `)` |
| ThemePathGrammar.ExpandNotIdempotent | src/plugin.js:252-265 | a name with `(` but no group need not settle: `(`, a line break, `/`, `)` has no group and expands to all kinds, `(`, `)`, `*`, whose group `/` expands to `/` |
| ThemePathGrammar.SuffixFrom | src/plugin.js:286 | finds the leftmost position where `/_.+/` matches, or reports that there is none |
| ThemePathGrammar.RunEnd | src/plugin.js:286 | the greedy `.+` runs to the first line terminator or the end |
| ThemePathGrammar.StripNameSuffix | src/plugin.js:286 | the name is unchanged exactly when `/_.+/` does not match; otherwise, on a one-line name, it is the prefix before the first `_`, and it holds no `_` |
| ThemePathGrammar.ParseThemePath | src/plugin.js:282-288 | parsing fails (a TypeError in the source) exactly when there is no segment, or only one without the text flag |
| ThemePathGrammar.ParseRoundTrip | src/plugin.js:282-288 | parsing `kinds/name/variant/const` gives back the kind list, the variant and the constant unchanged, and the name cut at its suffix unless the text flag is set |
| ThemePathGrammar.ParseValid | src/plugin.js:282-288 | every valid path parses with a present name; four segments give every component, two give an undefined variant and constant |
| ThemePathGrammar.ExpandedSelectorParses | src/plugin.js:56 | a root whose group text is valid expands to four segments that parse |
| ThemePathGrammar.GroupOfScreenName | src/plugin.js:252-253 | the group of `screen(name)/variant` is `name` |
| ThemePathGrammar.ValidNameWithShortGroup | src/plugin.js:49-56 | `screen(name)/variant` with a one-segment group passes validation but expands to `name`, and parsing that fails |
| StyleRegistry.Index | src/plugin.js:36-41 | every entry of a dictionary is a style from the sequence, stored under its own key |
| StyleRegistry.IndexKeys | src/plugin.js:36-41 | the keys of a dictionary are exactly the keys of the styles in the sequence |
| StyleRegistry.BuildRegistry | src/plugin.js:32-41 | the `forEach` leaves both dictionaries as indexing the whole sequence by id and by name |
| StyleRegistry.LastWins | src/plugin.js:36-41 | a key maps to the last style in the sequence that carries it |
| StyleRegistry.LaterOverrides | src/plugin.js:36-41 | in `earlier + later`, a key of `later` maps to `later`'s style and any other key keeps `earlier`'s |
| StyleRegistry.PluginStyleOrder | src/plugin.js:381 | `restoreStyles`' result: the imported styles, then the local paint, effect and text styles |
| StyleRegistry.EarlyStyleOrder | code.js:192 | `getStyles`' result in the earlier snapshot: the imported styles, then the local paint styles |
| StyleRegistry.LocalOverridesLibrary | src/plugin.js:381 | with imported styles before the local paint, effect and text styles, a local style wins by name and any other name keeps its imported style |
| StyleRegistry.EarlyLocalOverridesLibrary | code.js:192 | the same precedence in the earlier snapshot, with the local paint styles only |
| StyleSlots.Node.SetSlot | src/plugin.js:97-100 | writing a slot changes that slot to the new id and leaves the other three |
| StyleSlots.WithSlot | src/plugin.js:98 | the slot takes the id, every other slot keeps its value, and writing the text slot makes it present |
| StyleSlots.IsPaintableType | src/plugin.js:292-301 | `isPaintableObject`: the nine node types a theme re-styles |
| StyleSlots.IsTextObject | src/plugin.js:307-309 | `isTextObject`: a paintable node that has a text style slot |
| StyleSlots.TextObjectIsPaintable | src/plugin.js:307-309 | a text object is paintable, and a paintable node is a text object exactly when it has a text slot |
| StyleSlots.CheckPaint | src/plugin.js:313-353 | a fill, stroke or effect slot is skipped exactly when its id is empty, and flagged plain exactly when, in addition, the node has inline values |
| StyleSlots.CheckSlot | src/plugin.js:313-365 | the check a slot goes through: skipped exactly when its id is empty, and flagged plain exactly when, besides, it is a fill, stroke or effect slot with inline values; a text slot is never flagged |
| StyleSlots.CheckText | src/plugin.js:355-365 | a text slot is skipped exactly when its id is empty, and is never flagged plain |
| ThemeResolver.Report | src/plugin.js:232 | the report is the unknown-theme bucket, then the ignored-constant bucket, then the plain-value bucket, each in emission order |
| ThemeResolver.SelectorOf | src/plugin.js:56 | a root's selector fails to parse exactly when its expansion has fewer than two segments; otherwise it holds the suffix-cut parse and the uncut name the text kind uses |
| ThemeResolver.ObjConst | src/plugin.js:89 | the style's constant is the fourth segment of its name |
| ThemeResolver.CandidateName | src/plugin.js:90 | for colour and effect the candidate is `kind/selectorName/selectorVariant/styleConst`; for text it is `kind/(selector's raw name if it has '_', else the style's name)/styleVariant/styleConst` |
| ThemeResolver.ConstFits | src/plugin.js:97-103 | the constant policy: the selector's constant is `*` or equals the style's own constant |
| ThemeResolver.OwnNameIsCandidate | src/plugin.js:204 | a style already named after the selector is its own candidate; for text this holds whatever the selector's variant, when the selector's name has no `_` |
| ThemeResolver.Resolve | src/plugin.js:76-104 | the outcome is one of five, each exactly when its condition holds: missing style (id not registered), skipped (style name invalid, naming the style), no alternative (candidate not registered), constant mismatch (candidate registered but the constant does not fit), both naming the candidate, or reassigned to the candidate's id |
| ThemeResolver.ReassignedFromRegistry | src/plugin.js:91-100 | a reassigned id belongs to a style in the sequence whose name is the candidate |
| ThemeResolver.SlotSpec | src/plugin.js:74-110 | one slot's step: diagnostics are only appended; the other slots are untouched; `continue` happens exactly for a set id the registry does not know; for a set id, each resolution outcome appends its own diagnostic and nothing else: a missing style an unknown-id error and a skipped style a "Skipping theme" warning to the unknown-theme bucket, a missing candidate an unknown-theme error there, a constant mismatch an ignored-constant error to its bucket, and a reassignment writes the candidate's id into the slot and appends nothing |
| ThemeResolver.KindSpec | src/plugin.js:69-227 | one kind token's step: diagnostics are only appended; `break` happens exactly for a colour or effect token on a non-paintable node, or a text token on a node that is not a text object; the colour token touches only fill and stroke, the effect token only the effect slot, the text token only the text slot, and an unknown token no slot |
| ThemeResolver.SlotReassignedOnlyWhen | src/plugin.js:76-104 | a slot changes only when its id is set and registered, the style's name is valid, the candidate is registered and the constant fits; it then holds the candidate's id |
| ThemeResolver.SlotReassignedWhen | src/plugin.js:97-100 | conversely, a set slot whose resolution succeeds takes the candidate's id and adds no diagnostic |
| ThemeResolver.EmptySlotClassified | src/plugin.js:108-110 | a slot without a style changes nothing, and adds one plain-value diagnostic exactly when it is a paint slot with inline values |
| ThemeResolver.MissingFillSkipsStroke | src/plugin.js:79-82 | an unregistered fill id adds one diagnostic and the stroke slot is not looked at |
| ThemeResolver.UnknownKindReported | src/plugin.js:225-227 | an unrecognised kind token adds one "unknown theme type" diagnostic naming the root, and the walk goes on |
| ThemeResolver.NonPaintableUntouched | src/plugin.js:72 | a node whose type is not paintable keeps all its slots, whatever the tokens |
| ThemeResolver.TokensSpec | src/plugin.js:69-228 | running the kind tokens over one node only appends diagnostics |
| ThemeResolver.TokensFromRegistry | src/plugin.js:98-100 | after the kind tokens, every slot holds its old value or the id of a registered style |
| TreeWalker.NodesSpec | src/plugin.js:66-229 | walking nodes keeps the set of known nodes, only appends diagnostics, and leaves every node not in the walk as it was |
| TreeWalker.Visited | src/plugin.js:59-66 | the nodes walked for a root: none when the root has no `findAll`, otherwise the root itself followed by its descendants |
| TreeWalker.LeafRootSkipped | src/plugin.js:59-63 | a valid root without `findAll` leaves the loop exactly as if it were not selected: no node changes and no diagnostic is added |
| TreeWalker.RootsSpec | src/plugin.js:46-230 | the loop over the roots keeps the set of known nodes, only appends diagnostics, and leaves every node outside the roots' walks unchanged |
| TreeWalker.Run | src/plugin.js:24-232 | the whole command leaves every node outside the selected roots' walks unchanged |
| TreeWalker.Push | src/plugin.js:403-405 | `pushError` appends one record to the end of the chosen bucket and leaves the other two alone |
| TreeWalker.ApplySlot | src/plugin.js:74-110 | the in-place slot update ends with the node's slots, the buckets and the `continue` flag exactly as `SlotSpec` gives them |
| TreeWalker.ApplyKind | src/plugin.js:69-227 | the in-place kind step ends as `KindSpec` gives it, the `break` flag included |
| TreeWalker.ApplyKinds | src/plugin.js:69-228 | the loop over the kind tokens ends with the node and the buckets as `TokensSpec` gives them |
| TreeWalker.ApplyNodes | src/plugin.js:66-229 | the loop over `[root, ...findAll()]` ends with every node's slots and the buckets as `NodesSpec` gives them |
| TreeWalker.ApplyRoots | src/plugin.js:46-230 | the loop over the roots ends with the nodes, the buckets and the way it stopped as `RootsSpec` gives them |
| TreeWalker.ApplyTheme | src/plugin.js:24-232 | the command's outcome and every node's final slots are those `Run` gives for the slots before the run |
| TreeWalker.RootsAppend | src/plugin.js:46-230 | the loop over `a + b` is the loop over `a`, then, if that finished normally, the loop over `b` |
| TreeWalker.InvalidRootAborts | src/plugin.js:49-53 | an invalid root name ends the run there, naming that root, and no later root is looked at |
| TreeWalker.UnparsableRootCrashes | src/plugin.js:56 | a valid root name whose expansion does not parse ends the run there as a crash |
| TreeWalker.ShortGroupRootCrashes | src/plugin.js:49-56 | a first root named `screen(name)/variant` with a one-segment group crashes the run before anything changes |
| TreeWalker.NodesFromRegistry | src/plugin.js:98-100 | after a walk over nodes, every slot holds its old value or the id of a registered style |
| TreeWalker.RootsFromRegistry | src/plugin.js:98-100 | after the loop over the roots, every slot holds its old value or the id of a registered style |
| TreeWalker.RunFromRegistry | src/plugin.js:98-100 | after the whole command, every node's slots hold their old values or ids of registered styles |
| EarlySnapshot.IsValidThemePath | code.js:74-78 | `isValidThemePath`, the same code as the final `validateThemePath` |
| EarlySnapshot.EarlyExpand | code.js:80-100 | `expandThemePath`: the final expansion rule applied to the whole name, with no group extraction |
| EarlySnapshot.SameValidation | code.js:74-78 | the earlier validation accepts exactly the 2- and 4-segment paths, the same as the final one |
| EarlySnapshot.ExpandWithoutGroup | code.js:80-100 | on names without `(`, the earlier expansion and the final one agree, so the shorthand, wildcard and unchanged cases carry over |
| EarlySnapshot.EarlyExpandShorthand | code.js:85-88 | `n/v` expands to `ColorTheme,EffectTheme,TextTheme/n/v/*` |
| EarlySnapshot.EarlyExpandWildcard | code.js:91-97 | a path whose first segment is `*` expands to the kind list followed by its next three segments, a missing one printed as `undefined`, with no special treatment of parentheses |
| EarlySnapshot.EarlyExpandUnchanged | code.js:91-99 | any other path is returned as written |
| EarlySnapshot.EarlyExpandIdempotent | code.js:80-100 | expanding the earlier expansion's output again changes nothing, for every path |
| EarlySnapshot.EarlyParse | code.js:102-107 | the earlier parse fails exactly when the path has no segment |
| EarlySnapshot.EarlyParseIsTextParse | code.js:102-107 | the earlier parse is the final parse with the text flag set: the name is not cut |
| EarlySnapshot.EarlyParseRoundTrip | code.js:102-107 | parsing `kinds/name/variant/const` gives back every part unchanged, the name included |
| EarlySnapshot.IsPaintable | code.js:111-114 | `isPaintableObject`: the node has fill, stroke and effect slots |
| EarlySnapshot.IsText | code.js:116-120 | `isTextObject`: the node has those three slots and a text slot |
| EarlySnapshot.TextIsPaintable | code.js:111-120 | a text object is paintable, and a paintable one is a text object exactly when it has a text slot |
| EarlySnapshot.ColorThemeSpec | code.js:142-159 | a missing style or object returns `[null, null]` and changes nothing; an empty fill id changes nothing and returns `[style, object]` or `[]` by the inline fills; otherwise the fill takes the style's id, and the stroke does too unless its id is empty |
| EarlySnapshot.EmptyFillIgnoresStroke | code.js:145-147 | with an empty fill id, the stroke slot's content makes no difference |
| EarlySnapshot.ApplyColorTheme | code.js:142-159 | the in-place update returns `[null, null]` for a missing node, and otherwise leaves the node's slots and returns what `ColorThemeSpec` gives |

## Left out

- Host calls are not modelled: the plugin UI, its messages, `closePlugin`, the viewport and
  node lookup. The command's end appears as the `Outcome` value.
- Persistence is not modelled. `restoreStyles`, `storeStyles`, `getStyles` and
  `syncStyleKeys` read and write client storage and import library styles, which can fail. The
  model takes their result, the ordered style sequence, as a parameter; `PluginStyleOrder` and
  `EarlyStyleOrder` state the order.
- `console` output and the HTML text of the diagnostics are not modelled. A diagnostic holds
  the node, a kind with the candidate or style name, and the severity.
- `figma.mixed` slot values and node categories beyond the listed type tags are not modelled.
- `ThemeResolver.SlotSpec`: the constant-mismatch branch records its diagnostic and leaves
  the slot unchanged. The source's message refers to the undeclared `themeCons`
  (`src/plugin.js:102,137,175,216`), so that branch would throw a ReferenceError. JavaScript
  exception semantics are not modelled.
- `TreeWalker.Run`: an empty selection gives the `EmptySelection` outcome. The source calls
  `closePlugin` and then falls through the empty loop.
- JavaScript exceptions other than the parse failure of an expanded root name are not
  modelled. That failure is the `Crashed` outcome, and nothing after it runs.
- In `code.js`, the following are not modelled:
  - the stub `findStyle`;
  - the empty `applyEffectTheme` and `applyTextTheme`;
  - the `main` dispatch that calls them.
- `rollup.config.js` is not part of this model: it is build configuration.
- `StyleRegistry.LaterOverrides`: the effect of appending styles is stated key by key, not as
  one equation between dictionaries.
- `ThemePathGrammar.ExpandIdempotent`: proved for names that have a `(...)` group and for names
  without `(` or without `)`. A name holding both but no group can expand to a path that has
  one (`ExpandNotIdempotent`), so idempotence is not claimed for those.
- `ThemeResolver.TokensSpec`: its own contract says only that diagnostics are appended. What
  the tokens do to a node is stated by the lemmas about it, and by `ApplyKinds`.
