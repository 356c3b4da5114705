# Blurred: the concealment engine of `content.js`, in Dafny

Blurred is a browser extension that hides chat messages on a messaging web
page. Its content script decides, for every message row and for every row of
the chat list in the sidebar, whether the row's text should be concealed. It
conceals a row when:

- the extension is enabled and "blur all" is on (inbound messages only);
- the open chat's title or the row's author matches the target person;
- or the row's text contains one of the stored keywords.

It then adds or removes its CSS classes on the row's nodes. A click on a
concealed node toggles a reveal class.

This project models that engine and proves properties of it:

- **Js**: the JavaScript values settings arrive as, `||`, truthiness and
  `String(v)`.
- **Text**: JavaScript whitespace, `trim`, ASCII `toLowerCase`, `includes`,
  `split` and `join`.
- **Matching**: `normalize`, `normalizeLoose` and the two-tier `matchesTarget`.
- **Keywords**: `parseKeywordList`.
- **Config**: the defaults, `sanitizeSettings`, the initial load and the merge
  the storage listener performs.
- **Conceal**: what `applyBlurToNode`, `removeBlurFromNode` and the click
  handler do to one node, as functions on a node state and as methods of a
  `Node` class. It also holds the look the injected style sheet gives each
  class combination, and the algebra of a node visited several times in one
  pass.
- **Extract**: what the decisions read from a row, once the DOM has been
  queried:
  - the author in the message metadata, and the message direction;
  - the row text and the sidebar name;
  - the cascade of sidebar preview selectors;
  - the de-duplicated sidebar rows.
- **Policy**: `shouldBlurRow` and `shouldBlurSidebarRow`.
- **Engine**: the script's state as a class with:
  - the settings, the pending animation-frame token, and ghost counters of
    requested frames and of passes run;
  - `scheduleApplyBlur`, the settings load and the storage listener;
  - `applyBlur`, a pass that reconciles every target node in place.
- **Scenarios**: worked examples of the whole decision.

DOM queries are inputs. A message row arrives as its target node, its
`data-id`, its class name, its metadata attribute, its name node and the texts
of its text nodes. A sidebar row arrives as the node lists each selector
returned. The nodes themselves are `Conceal.Node` objects, so one node reached
from two rows is one object. `RunPass` is proved to leave each node in the
state given by folding, in visit order, every decision it received.

## Model

| member | source | states |
|---|---|---|
| Js.Or | Blurred_v1.0.0/content.js:27 | `a \|\| b` is `a` exactly when `a` is truthy, otherwise `b` |
| Js.Truthy | Blurred_v1.0.0/content.js:27 | defines JavaScript truthiness: `undefined`, `null`, NaN, `false`, 0 and "" are falsy, every other value truthy |
| Js.NatText | Blurred_v1.0.0/content.js:57 | `String(n)` of a natural number is a non-empty run of decimal digits whose decimal value is `n`, with a leading zero only for 0 |
| Js.ToText | Blurred_v1.0.0/content.js:57 | defines `String(v)` for a non-array value: a string is itself, an integer its decimal text with a minus sign when negative, and `undefined`, `null`, booleans, NaN, the infinities and objects their JavaScript text |
| Text.Lower | Blurred_v1.0.0/content.js:27 | lower-casing one character maps each ASCII capital to the same letter in lower case, keeps every other character, and never creates or removes whitespace |
| Text.ToLower | Blurred_v1.0.0/content.js:27 | `toLowerCase` keeps the length and lower-cases each character in place |
| Text.TrimStart | Blurred_v1.0.0/content.js:33 | dropping the leading whitespace removes exactly a run of whitespace characters and leaves a suffix that is empty or starts with a non-space; it is strictly shorter when the string started with whitespace |
| Text.Trim | Blurred_v1.0.0/content.js:27 | `trim` leaves no whitespace at either end, is empty exactly when the input is all whitespace, never lengthens, and leaves a trimmed string unchanged |
| Text.TrimShape | Blurred_v1.0.0/content.js:27 | the trimmed string is the slice of the input between a leading and a trailing run of whitespace |
| Text.NonSpaceTrimStart | Blurred_v1.0.0/content.js:33 | dropping the leading whitespace keeps every non-whitespace character, in order |
| Text.NonSpaceTrim | Blurred_v1.0.0/content.js:27 | `trim` keeps every non-whitespace character, in order: it removes whitespace only |
| Text.TrimIdempotent | Blurred_v1.0.0/content.js:27 | trimming twice is trimming once |
| Text.TrimContained | Blurred_v1.0.0/content.js:27 | a string includes its own trim |
| Text.LowerTrim | Blurred_v1.0.0/content.js:27 | trimming and lower-casing commute |
| Text.LowerIdempotent | Blurred_v1.0.0/content.js:27 | lower-casing twice is lower-casing once |
| Text.LowerContains | Blurred_v1.0.0/content.js:40 | `includes` survives lower-casing both sides |
| Text.Contains | Blurred_v1.0.0/content.js:40 | defines `includes`: the needle occurs at some position of the string |
| Text.ContainsTrim | Blurred_v1.0.0/content.js:40 | a non-empty needle without outer whitespace that occurs in a string also occurs in its trim |
| Text.OccursInTrim | Blurred_v1.0.0/content.js:40 | an occurrence of such a needle at `i` sits at `i - k` in the trimmed string, where `k` is the leading whitespace skipped |
| Text.ContainsTransitive | Blurred_v1.0.0/content.js:40 | `includes` is transitive |
| Text.ContainsSelf | Blurred_v1.0.0/content.js:40 | every string includes itself |
| Text.ContainsInConcat | Blurred_v1.0.0/content.js:389 | `x + y + z` includes `y` |
| Text.ContainsNotIn | Blurred_v1.0.0/content.js:59 | a character absent from a string is absent from every substring of it |
| Text.TrimLeadingSpace | Blurred_v1.0.0/content.js:59 | trimming `" " + k` for a trimmed `k` gives back `k` |
| Text.Split | Blurred_v1.0.0/content.js:58 | `split` returns at least one piece and no piece holds the separator |
| Text.PrefixAll | Blurred_v1.0.0/content.js:501 | every item gets the same prefix, in place |
| Text.SplitJoin | Blurred_v1.0.0/content.js:58 | joining the pieces of a split with the separator gives the string back |
| Text.JoinSplit | Blurred_v1.0.0/content.js:58 | splitting a join of separator-free pieces gives the pieces back |
| Text.Join | Blurred_v1.0.0/content.js:218 | defines `join`: the pieces in order with the separator between neighbours |
| Text.JoinMovePad | Blurred_v1.0.0/content.js:501 | joining with `sep + pad` is joining with `sep` after padding every piece but the first |
| Text.JoinContains | Blurred_v1.0.0/content.js:218 | a join includes each of its pieces |
| Matching.Normalize | Blurred_v1.0.0/content.js:26-28 | `normalize` returns trimmed, lower-case text, no longer than its input, empty exactly when the input is blank |
| Matching.Mask | Blurred_v1.0.0/content.js:32 | each character that is not a-z, 0-9 or whitespace becomes a space, in place |
| Matching.Collapse | Blurred_v1.0.0/content.js:33 | after collapsing, the only whitespace is single plain spaces and every non-whitespace character is kept, in order; the first character is kept, or turned into a space; a string of a-z, 0-9 and whitespace stays one; it never lengthens |
| Matching.CollapseIsScan | Blurred_v1.0.0/content.js:33 | collapsing equals the left-to-right scan that keeps a whitespace run as one space and drops whitespace that follows whitespace |
| Matching.NormalizeLoose | Blurred_v1.0.0/content.js:30-35 | `normalizeLoose` yields only a-z, 0-9 and single inner spaces, with no outer space; it keeps, in order, every non-whitespace character of the masked strict form; it never lengthens |
| Matching.MatchesTarget | Blurred_v1.0.0/content.js:37-51 | a match implies neither side is blank |
| Matching.NormalizeIdempotent | Blurred_v1.0.0/content.js:26-28 | normalising twice is normalising once |
| Matching.NormalizeCaseBlind | Blurred_v1.0.0/content.js:26-28 | strings that agree once lower-cased normalise alike |
| Matching.LooseOfNormalize | Blurred_v1.0.0/content.js:30-31 | the loose form of the strict form is the loose form |
| Matching.CollapseFixpoint | Blurred_v1.0.0/content.js:33 | collapsing leaves a single-spaced string alone |
| Matching.LooseFixpoint | Blurred_v1.0.0/content.js:30-35 | text already in loose form is its own loose normalisation |
| Matching.LooseIdempotent | Blurred_v1.0.0/content.js:30-35 | loose normalisation is idempotent |
| Matching.MatchesTargetCaseInsensitive | Blurred_v1.0.0/content.js:37-51 | targets and sources that agree up to ASCII case give the same answer |
| Matching.MatchesTargetNormalized | Blurred_v1.0.0/content.js:37-39 | normalising both sides before the call, as the callers do, changes no answer |
| Matching.MatchesTargetStrict | Blurred_v1.0.0/content.js:38-42 | a source that includes the trimmed target, ignoring case, matches |
| Matching.MatchesTargetLoose | Blurred_v1.0.0/content.js:44-48 | a non-empty loose target included in the loose source matches |
| Matching.ShorterSourceMisses | Blurred_v1.0.0/content.js:37-51 | a source shorter than the target's loose form matches in neither tier |
| Matching.MatchesTargetReflexive | Blurred_v1.0.0/content.js:37-51 | every non-blank name matches itself |
| Matching.JoAnnSourceLoose | Blurred_v1.0.0/content.js:30-35 | the loose form of "Jo-Ann!" is "jo ann" |
| Matching.JoAnnMatches | Blurred_v1.0.0/content.js:37-51 | "Jo Ann" misses "Jo-Ann!" in the strict tier and matches it in the loose tier |
| Keywords.TrimAll | Blurred_v1.0.0/content.js:59 | each item is trimmed, in place |
| Keywords.DropEmpty | Blurred_v1.0.0/content.js:60 | `filter(Boolean)` keeps a one-item list exactly when its item is non-empty; every item kept is a non-empty input item and every non-empty input item is kept; it is the identity when none is empty and yields nothing when all are |
| Keywords.DropEmptyConcat | Blurred_v1.0.0/content.js:60 | filtering a concatenation is concatenating the filtered parts, so the non-empty items keep their order and count |
| Keywords.ParseKeywordText | Blurred_v1.0.0/content.js:57-60 | every keyword parsed from text is non-empty, trimmed and free of commas |
| Keywords.TrimKeepsSeparatorOut | Blurred_v1.0.0/content.js:58-59 | trimmed pieces of a split are trimmed and hold no separator |
| Keywords.ParseEmptyText | Blurred_v1.0.0/content.js:57 | an empty or falsy keyword setting parses to no keywords |
| Keywords.StringItems | Blurred_v1.0.0/content.js:55 | an all-string array gives its strings, in place |
| Keywords.ArrayKeywords | Blurred_v1.0.0/content.js:54-55 | trimming an all-string array and dropping empty items returns the trim of every non-blank item and nothing but items' trims, each non-empty and trimmed |
| Keywords.ParseKeywordList | Blurred_v1.0.0/content.js:53-61 | a string parses as its text and no other non-array throws; an array throws exactly when an item is not a string; every entry is non-empty and trimmed; from an array, each non-blank item's trim is returned and each entry is the trim of some item |
| Keywords.ReparseJoined | Blurred_v1.0.0/content.js:57-60 | comma-free keywords joined with ", " parse back to the same list |
| Keywords.SpacedCommaFree | Blurred_v1.0.0/content.js:58 | padding comma-free keywords with a space keeps them comma-free |
| Keywords.SpacedTrim | Blurred_v1.0.0/content.js:59 | trimming the space-padded keywords gives the keywords back |
| Keywords.KeywordTextRoundTrip | Blurred_v1.0.0/content.js:494-501 | the stored `keywords` text re-parses to the list it was made from |
| Keywords.KeywordValueRoundTrip | Blurred_v1.0.0/content.js:53-61 | the same, through `parseKeywordList` on the stored string value |
| Keywords.ParseStringValue | Blurred_v1.0.0/content.js:57 | a string value parses as its text, and the empty string as "" |
| Config.NormalizeAll | Blurred_v1.0.0/content.js:502 | each keyword is normalised, in place |
| Config.Defaults | Blurred_v1.0.0/content.js:1-10 | defines the stored defaults: enabled, not "blur all", empty target and keywords, intensity 4, mode "blur", no legacy names, legacy amount 4 |
| Config.Initial | Blurred_v1.0.0/content.js:20-24 | defines the settings before the first load: the defaults with an empty keyword list |
| Config.Intensity | Blurred_v1.0.0/content.js:486-491 | the intensity is `blurIntensity` when it is a positive number, else `blurAmount` when that is one, else 4; it is always positive |
| Config.LegacyTarget | Blurred_v1.0.0/content.js:485 | defines the legacy target: the first item of an array `targetNames`, or "" when that item is falsy or absent, and "" for a non-array |
| Config.PersonValue | Blurred_v1.0.0/content.js:493 | defines the target value before trimming: `targetPerson`, else the legacy target, else "" |
| Config.Sanitize | Blurred_v1.0.0/content.js:484-506 | throws exactly when the chosen target is not a string or the keywords throw; otherwise gives canonical settings with `enabled` true unless stored `false`, `blurAll` the truthiness, the opaque mode exactly for "opaque", the trimmed chosen target, the chosen intensity, the parsed keywords joined with ", " and their normalised list |
| Config.Merge | Blurred_v1.0.0/content.js:522-531 | each of the eight keys present in the change brings its new value; an absent one brings the current setting, and the legacy keys bring the current target and intensity |
| Config.WithDefaults | Blurred_v1.0.0/content.js:509 | with nothing stored the defaults are read |
| Config.OnChanged | Blurred_v1.0.0/content.js:517-536 | other storage areas change nothing; a sync change is applied, and a pass scheduled, exactly when its merge sanitises; then the settings become the sanitised merge; otherwise nothing changes |
| Config.DefaultsSanitizeToInitial | Blurred_v1.0.0/content.js:1-24 | the defaults sanitise to the initial settings, with an empty keyword list |
| Config.SanitizeFields | Blurred_v1.0.0/content.js:484-506 | once both throws are excluded, each sanitised field is the value computed from its own raw fields |
| Config.MergeNothing | Blurred_v1.0.0/content.js:522-531 | an empty change hands back every setting in its stored shape |
| Config.PersonRoundTrip | Blurred_v1.0.0/content.js:485-493 | a trimmed target, handed back both directly and as the legacy array, is the target chosen, unchanged |
| Config.ResanitizeUnchanged | Blurred_v1.0.0/content.js:517-533 | settings sanitised from string keywords survive a change event that carries no key |
| Config.SanitizeStored | Blurred_v1.0.0/content.js:484-506 | canonical settings whose keyword text joins comma-free keywords sanitise back to themselves after an empty merge |
| Config.SanitizeAgrees | Blurred_v1.0.0/content.js:484-506 | raw values that carry each field in a form sanitise reads back sanitise to those settings |
| Config.ModeValueOpaque | Blurred_v1.0.0/content.js:495 | the stored mode reads back as "opaque" exactly for the opaque mode |
| Config.MergeKeepsUntouched | Blurred_v1.0.0/content.js:522-533 | a change event keeps every setting whose key it does not carry; the target is kept unless it was empty and the legacy key changed |
| Config.ArrayKeywordWithComma | Blurred_v1.0.0/content.js:53-61 | a legacy array item "k1,k2" is one keyword on the first sanitise but re-parses to two from the stored text |
| Config.SingleArrayItem | Blurred_v1.0.0/content.js:54-55 | a one-item array holding a keyword parses to that keyword |
| Config.CommaSplitsTwo | Blurred_v1.0.0/content.js:57-60 | "k1,k2" parses to the two keywords |
| Conceal.OwnedDistinct | Blurred_v1.0.0/content.js:12-15 | the four class names are pairwise distinct |
| Conceal.LookOf | Blurred_v1.0.0/content.js:79-108 | defines the look the style sheet gives a node: plain without the blur class; revealed with the reveal class; hidden in the opaque mode; blurred in the blur mode |
| Conceal.Applied | Blurred_v1.0.0/content.js:397-411 | after `applyBlurToNode` the node has the blur class, the mode's class and not the other mode class; its reveal class and page classes are as before; it is marked applied with the reveal toggle installed |
| Conceal.Removed | Blurred_v1.0.0/content.js:413-426 | after `removeBlurFromNode` none of the four classes remains, page classes are kept, and only a node the extension marked loses its `onclick`; it looks plain |
| Conceal.Clicked | Blurred_v1.0.0/content.js:406-410 | the reveal toggle flips the reveal class only; any other handler's node is left unchanged here |
| Conceal.AppliedLook | Blurred_v1.0.0/content.js:79-108 | a freshly concealed node is blurred or hidden by mode, unless it already carried the reveal class |
| Conceal.StepIdempotent | Blurred_v1.0.0/content.js:397-426 | concealing twice is concealing once, and clearing twice is clearing once |
| Conceal.ReconcealHides | Blurred_v1.0.0/content.js:413-426 | a node cleared and concealed again is concealed, not revealed |
| Conceal.ClickToggles | Blurred_v1.0.0/content.js:406-410 | on a concealed node a click toggles between revealed and concealed, and two clicks cancel out |
| Conceal.ConsistentPreserved | Blurred_v1.0.0/content.js:397-426 | conceal, clear and click keep the blur class, the applied mark, the toggle and one mode class together |
| Conceal.ApplyRemoveApply | Blurred_v1.0.0/content.js:397-426 | conceal-clear-conceal equals clear-conceal |
| Conceal.RemoveApplyRemove | Blurred_v1.0.0/content.js:397-426 | clear-conceal-clear equals conceal-clear |
| Conceal.FoldSettles | Blurred_v1.0.0/content.js:428-458 | visiting a node with a run of decisions equals a closed form decided by the last decision and whether an opposite one occurred |
| Conceal.FoldIdempotent | Blurred_v1.0.0/content.js:428-458 | repeating the same decisions leaves the node as the first run left it |
| Conceal.FoldAppend | Blurred_v1.0.0/content.js:428-458 | one more visit is one more step |
| Conceal.FoldConsistent | Blurred_v1.0.0/content.js:428-458 | a pass keeps a consistent node consistent |
| Conceal.RevealPersists | Blurred_v1.0.0/content.js:397-411 | passes that keep concealing a revealed node keep it revealed |
| Conceal.FoldLook | Blurred_v1.0.0/content.js:428-458 | after a pass a node looks plain when its last decision clears it, and concealed or revealed when that decision conceals it |
| Conceal.Node.ApplyBlur | Blurred_v1.0.0/content.js:397-411 | the node's new state is `Applied` of its old state |
| Conceal.Node.RemoveBlur | Blurred_v1.0.0/content.js:413-426 | the node's new state is `Removed` of its old state |
| Conceal.Node.Click | Blurred_v1.0.0/content.js:406-410 | the node's new state is `Clicked` of its old state |
| Extract.FindAuthorStart | Blurred_v1.0.0/content.js:141 | finds the leftmost position where the metadata pattern matches, or reports that none does |
| Extract.AuthorAt | Blurred_v1.0.0/content.js:141 | defines a match of `/\]\s(.+?):\s$/` starting at `i`: "]" and a whitespace there, at least one character of the capture with no line terminator, then ":" and a whitespace that end the string |
| Extract.ParseAuthor | Blurred_v1.0.0/content.js:140-143 | the author is "" without a match, else the trimmed capture of the leftmost match; it is always trimmed |
| Extract.AuthorRoundTrip | Blurred_v1.0.0/content.js:140-143 | metadata written as "[stamp] author: " gives the author back |
| Extract.AuthorExample | Blurred_v1.0.0/content.js:140-143 | "[10:00, 1/1/2024] Alex: " gives "Alex" |
| Extract.IsIncomingRow | Blurred_v1.0.0/content.js:193-211 | a `false_` id is inbound and a `true_` id outbound; otherwise inbound exactly when the class holds "message-in" or lacks "message-out" |
| Extract.PrefixesExclusive | Blurred_v1.0.0/content.js:195-199 | no id starts with both prefixes |
| Extract.DirectionPrecedence | Blurred_v1.0.0/content.js:193-211 | the id prefix outranks every class name, and a bare row is inbound |
| Extract.RowText | Blurred_v1.0.0/content.js:213-220 | the row text is trimmed, and empty exactly when every part is blank |
| Extract.RowTextHoldsPart | Blurred_v1.0.0/content.js:213-220 | the row text includes each trimmed part, and is non-empty when some part is not blank |
| Extract.RowTextContainsPart | Blurred_v1.0.0/content.js:213-220 | `getRowText` includes each of the row's trimmed parts |
| Extract.RowAuthor | Blurred_v1.0.0/content.js:222-242 | the metadata author wins when non-empty; else the name node's title, label or text, trimmed; else "" |
| Extract.SidebarRowName | Blurred_v1.0.0/content.js:244-251 | "" without a title node; else the trimmed `title` attribute when it is non-empty, else the trimmed text |
| Extract.LooksLikeTime | Blurred_v1.0.0/content.js:271 | defines `/^\d{1,2}:\d{2}/`: one or two digits, a colon and two digits at the start |
| Extract.AllDigits | Blurred_v1.0.0/content.js:271 | defines `/^\d+$/`: a non-empty run of digits only |
| Extract.Survives | Blurred_v1.0.0/content.js:266-275 | defines the preview filter: the trimmed text is non-empty, not a clock time and not all digits |
| Extract.Surviving | Blurred_v1.0.0/content.js:266-275 | keeps one candidate exactly when its trimmed text is non-empty and neither a clock time nor all digits; every candidate kept passes and every passing candidate is kept; never lengthens |
| Extract.SurvivingConcat | Blurred_v1.0.0/content.js:266 | filtering a concatenation is concatenating the filtered parts, so survivors keep document order and count |
| Extract.GenericSurviving | Blurred_v1.0.0/content.js:305-319 | keeps one candidate exactly when it also is not the title node and is at most 160 characters; every candidate kept passes and every passing candidate is kept; never lengthens |
| Extract.GenericSurvivingConcat | Blurred_v1.0.0/content.js:305 | filtering a concatenation is concatenating the filtered parts, so `slice(0, 3)` sees the survivors in document order |
| Extract.Take3 | Blurred_v1.0.0/content.js:320 | `slice(0, 3)` is the prefix of length exactly the smaller of three and the input length |
| Extract.FirstFamily | Blurred_v1.0.0/content.js:265-280 | finds the first snippet selector with a surviving node, or reports that none has one |
| Extract.FirstFamilyIsLeast | Blurred_v1.0.0/content.js:265-280 | the first selector with survivors is the one chosen |
| Extract.PreviewNodes | Blurred_v1.0.0/content.js:253-321 | the first snippet selector with survivors gives exactly its survivors; with none, the secondary container's survivors; with none either, exactly the first three generic survivors; every node returned passes the filter |
| Extract.FallbackBounded | Blurred_v1.0.0/content.js:302-320 | the last resort returns at most three nodes, each a generic candidate, none over 160 characters, never the title node |
| Extract.Texts | Blurred_v1.0.0/content.js:332 | each preview node's text, in order |
| Extract.PreviewText | Blurred_v1.0.0/content.js:331-333 | the preview text is trimmed and lower-case |
| Extract.PreviewTextHoldsNode | Blurred_v1.0.0/content.js:331-333 | a keyword in one preview node's normalised text is in the row's preview text |
| Extract.DedupFromSubset | Blurred_v1.0.0/content.js:158-174 | every row kept is a listed input row whose element was not seen |
| Extract.DedupFromDistinct | Blurred_v1.0.0/content.js:158-174 | the rows kept have pairwise distinct elements |
| Extract.DedupFromComplete | Blurred_v1.0.0/content.js:158-174 | every listed, unseen element is kept |
| Extract.DedupFrom | Blurred_v1.0.0/content.js:155-176 | defines the `seen`-set loop on values: a listed row whose element was not seen is kept and its element marked seen; any other row is skipped |
| Extract.Dedup | Blurred_v1.0.0/content.js:149-177 | defines `getSidebarRows` after the DOM query: the loop run from an empty `seen` set |
| Extract.DedupCorrect | Blurred_v1.0.0/content.js:149-177 | `getSidebarRows` keeps listed input rows with distinct elements, and keeps every listed element once |
| Extract.DedupSidebarRows | Blurred_v1.0.0/content.js:155-176 | the `seen`-set loop returns the de-duplicated rows |
| Policy.ShouldBlurRow | Blurred_v1.0.0/content.js:362-395 | disabled conceals nothing; "blur all" conceals every inbound row |
| Policy.RowDecisionRules | Blurred_v1.0.0/content.js:362-395 | a row is concealed exactly when enabled and one of "blur all on an inbound row", chat title, inbound author or keyword applies |
| Policy.TitleConcealsAnyDirection | Blurred_v1.0.0/content.js:375-377 | a matching chat title conceals a row of either direction |
| Policy.OutboundIgnoresAuthor | Blurred_v1.0.0/content.js:379-384 | an outbound row's author never affects its decision |
| Policy.BlurAllOnlyInbound | Blurred_v1.0.0/content.js:371-373 | "blur all" conceals every inbound row; an outbound row still needs the title or a keyword |
| Policy.KeywordInPartConceals | Blurred_v1.0.0/content.js:386-392 | a stored keyword inside any text part, up to case and outer whitespace, conceals the row |
| Policy.KeywordInPartHits | Blurred_v1.0.0/content.js:386-392 | such a keyword is found in the normalised row text |
| Policy.KeywordHit | Blurred_v1.0.0/content.js:386-392 | defines `keywordList.some((kw) => text.includes(kw))` guarded by a non-empty list and a non-empty text |
| Policy.ShouldBlurSidebarRow | Blurred_v1.0.0/content.js:335-360 | disabled conceals nothing; "blur all" conceals every sidebar row |
| Policy.SidebarDecisionRules | Blurred_v1.0.0/content.js:335-360 | a sidebar row is concealed exactly when enabled and "blur all", the row name or a keyword in the preview applies |
| Policy.KeywordInPreviewConceals | Blurred_v1.0.0/content.js:352-357 | a stored keyword in one preview node's text conceals the sidebar row |
| Policy.TargetInSourceMatches | Blurred_v1.0.0/content.js:37-42 | a name that contains the trimmed target matches it after both are normalised |
| Engine.NodesOf | Blurred_v1.0.0/content.js:447 | the candidates' nodes, in order |
| Engine.SidebarTargets | Blurred_v1.0.0/content.js:445-448 | the preview nodes when there are any, else the container when there is one, else nothing |
| Engine.WithDecision | Blurred_v1.0.0/content.js:450-456 | every target of a sidebar row receives the row's one decision |
| Engine.MessageWork | Blurred_v1.0.0/content.js:431-439 | each message row's target is visited once, in row order, with that row's decision |
| Engine.SpreadLaysOut | Blurred_v1.0.0/content.js:442-457 | the sidebar loops visit each group's nodes in order, each with its group's decision, the groups one after another |
| Engine.SpreadPlaces | Blurred_v1.0.0/content.js:450-456 | the `m`-th target of group `j` is visited at the offset of group `j` plus `m`, with that group's decision |
| Engine.SpreadFromGroups | Blurred_v1.0.0/content.js:442-457 | every visit of the sidebar loops is a node of some group, carrying that group's decision |
| Engine.TargetGroups | Blurred_v1.0.0/content.js:443-448 | each sidebar row's targets, in row order |
| Engine.RowDecisions | Blurred_v1.0.0/content.js:444 | each sidebar row's decision, in row order |
| Engine.PassWork | Blurred_v1.0.0/content.js:428-458 | defines the visits of `applyBlur`: the message rows' targets with their decisions, then the de-duplicated sidebar rows' targets with theirs |
| Engine.SidebarWorkVisits | Blurred_v1.0.0/content.js:441-457 | every target of every sidebar row is visited, at a known position, with that row's decision |
| Engine.SidebarWorkSound | Blurred_v1.0.0/content.js:441-457 | every sidebar visit is a target of some row, carrying that row's decision |
| Engine.DecisionsFor | Blurred_v1.0.0/content.js:428-458 | a node the pass never visits receives no decision |
| Engine.DecisionsForSnoc | Blurred_v1.0.0/content.js:428-458 | one more visit adds its decision to that node's decisions only |
| Engine.Reconcile | Blurred_v1.0.0/content.js:432-457 | the reconcile loops leave every visited node as the fold of the decisions it received, in visit order |
| Engine.Engine.Schedule | Blurred_v1.0.0/content.js:460-465 | a frame is requested only when none is pending; afterwards one is pending |
| Engine.Engine.Load | Blurred_v1.0.0/content.js:508-515 | the settings become the sanitised stored values over the defaults and a pass is scheduled; a throwing sanitise changes nothing |
| Engine.Engine.StorageChanged | Blurred_v1.0.0/content.js:517-536 | the settings become `OnChanged`'s result, and a pass is scheduled exactly when the listener got that far |
| Engine.Engine.RunPass | Blurred_v1.0.0/content.js:428-458 | the token is cleared, settings are untouched, and every visited node ends as the fold of its decisions under the current mode |
| Engine.LastVisitDecides | Blurred_v1.0.0/content.js:428-458 | a visited node receives at least one decision, and the last one is the decision of its last visit, after which the pass does not visit it again |
| Engine.DisabledPassDecidesNothing | Blurred_v1.0.0/content.js:335-365 | with the extension disabled every visit of a pass clears its node |
| Engine.DisabledMessagesClear | Blurred_v1.0.0/content.js:363-365 | disabled, every message visit clears |
| Engine.DisabledSidebarClears | Blurred_v1.0.0/content.js:336-338 | disabled, every sidebar visit clears |
| Engine.DisabledPassClears | Blurred_v1.0.0/content.js:428-458 | with the extension disabled a pass leaves every visited node plain |
| Engine.OnlyConcealedDecisions | Blurred_v1.0.0/content.js:428-458 | a node every visit of which conceals receives no clearing decision |
| Engine.ConcealedAfterWork | Blurred_v1.0.0/content.js:397-411 | a visited node every visit of which conceals ends concealed in the current mode, or revealed if it already carried the reveal class |
| Engine.PassVisitsTouches | Blurred_v1.0.0/content.js:441-457 | every target of every sidebar row is among the nodes a pass visits |
| Engine.PassVisitsOnlyConceal | Blurred_v1.0.0/content.js:428-458 | a node whose every message row and every sidebar row decides to conceal is only ever concealed by the pass |
| Engine.SidebarTargetConcealed | Blurred_v1.0.0/content.js:428-458 | a sidebar target whose rows, message and sidebar, all decide to conceal is visited by the pass and ends concealed, or revealed if it already carried the reveal class |
| Engine.PassIdempotent | Blurred_v1.0.0/content.js:428-458 | a second pass over an unchanged page and unchanged settings changes no node |
| Scenarios.ExampleFromStorage | Blurred_v1.0.0/content.js:484-510 | stored target "Alex", keywords "urgent" and intensity 6 load, over the defaults, to the example settings: enabled, target "Alex", keyword "urgent" |
| Scenarios.ExampleCanonical | Blurred_v1.0.0/content.js:497-505 | the example settings are of the shape sanitise produces |
| Scenarios.ExampleDirections | Blurred_v1.0.0/content.js:193-211 | ids "false_1" and "false_3" are inbound, "true_2" outbound |
| Scenarios.InboundAlexConcealed | Blurred_v1.0.0/content.js:379-384 | an inbound row whose name node reads "Alex M." is concealed by target "Alex" |
| Scenarios.UrgentConcealed | Blurred_v1.0.0/content.js:386-392 | a row saying "this is urgent" is concealed by keyword "urgent" |
| Scenarios.OutboundUrgentConcealed | Blurred_v1.0.0/content.js:386-392 | the same holds for an outbound row |
| Scenarios.InboundSamVisible | Blurred_v1.0.0/content.js:362-395 | an inbound "hello" from "Sam" stays visible when the chat title does not match |
| Scenarios.SecretInText | Blurred_v1.0.0/content.js:389 | keyword "secret" is found in "this is secret info" |
| Scenarios.SecretNotInLeet | Blurred_v1.0.0/content.js:389 | keyword "secret" is not found in "s3cr3t": keyword matching is literal |
| Scenarios.TimeFiltered | Blurred_v1.0.0/content.js:271 | a preview reading "12:03" is filtered out |
| Scenarios.DirectoryNoPreview | Blurred_v1.0.0/content.js:253-321 | a sidebar row whose only preview texts are its name and a time has no preview nodes |
| Scenarios.DirectoryFallsBackToContainer | Blurred_v1.0.0/content.js:445-448 | that row's container is its only target, and the row's name conceals it |
| Scenarios.DirectoryPassWork | Blurred_v1.0.0/content.js:441-457 | a pass over that lone sidebar row visits its container once, deciding to conceal |
| Scenarios.DirectoryContainerConcealed | Blurred_v1.0.0/content.js:428-458 | after that pass the container looks blurred, when it was not already revealed |
| Scenarios.RevealSurvivesPass | Blurred_v1.0.0/content.js:397-411 | concealed, revealed by a click, then concealed by the next pass: the node stays revealed |
| Scenarios.RevealResetByClear | Blurred_v1.0.0/content.js:413-426 | a reveal does not survive a clearing pass: the next concealment hides the node again |

## Left out

- Querying the DOM is not modelled: `getCurrentChatName`, `getMessageRows`, `getRowTargetElement`, `getSidebarPreviewContainer`, the row selectors and `closest`. Their results are inputs: the chat title, the rows and the nodes each selector returns.
- `ensureStyleTag`, `updateStyleTag` and the style sheet's text are not modelled. Only the look the sheet gives each class combination is modelled (`Conceal.LookOf`).
- The `MutationObserver`, `requestAnimationFrame`, `DOMContentLoaded` and the `chrome.storage` calls are not modelled. The frame and the storage answers are method calls with their data as parameters.
- The popup is not part of this model.
- Text.ToLower: lower-cases ASCII letters only. Other scripts' case folding is not modelled.
- Numbers are modelled as integers, NaN or an infinity. Fractional intensities, and `String()` of a fraction, are not modelled.
- Extract.GenericSurviving: the 160-character cap counts characters, where JavaScript counts UTF-16 code units.
- Conceal.Clicked: a page's own click handler is left unchanged, and its effect is not modelled. `preventDefault` and `stopPropagation` are not modelled either.
- The `blurredApplied` dataset entry is modelled as a boolean. A value other than "1" set by the page reads as absent.
- A message row's `className` is taken to be a string. An SVG element's `className`, which is an object, is not modelled.
- Config.ResanitizeUnchanged: requires the stored keywords not to be an array, because `Config.ArrayKeywordWithComma` shows that array keywords are not stable.
- Scenarios.InboundSamVisible: requires that the open chat's title does not match the target, since any row would be concealed otherwise.
