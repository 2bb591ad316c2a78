# A model of the tool pages of a web toolbox

The toolbox is a React application of small, self-contained tools. This project models, in Dafny,
the state and event handlers of eight of them, together with the JavaScript string and array
operations they rely on:

- the Base64 tool: the hand-written "unicode" and "hex" codecs and the convert and clear buttons
  (`base64_tool.dfy`);
- the emoji picker: the recently-used list, the favourites toggle and the search
  (`emoji_picker.dfy`);
- the shared tool store, which keeps the last ten history entries (`tool_store.dfy`);
- the Pixiv page's tag-group input: adding, refusing and removing `|`-separated groups, and the
  request's tag field (`pixiv_page.dfy`);
- the mobile translator: the target-language table, swapping, clearing and the translate button
  (`mobile_translator.dfy`);
- the Markdown editor's toolbar, shortcuts and image insertion, with the cursor placement
  (`markdown_editor.dfy`);
- the regular-expression tester's flag toggle and match collection (`regex_tester.dfy`);
- the colour picker's parsing of `#rrggbb` and its three displays (`color_picker.dfy`).

`js_text.dfy` holds `trim`, `split`/`join`, `filter`, `slice`, `indexOf`, `parseInt(…, 16)` and
`String.fromCharCode` as the pages use them; `wrappers.dfy` holds `Option` and `Result`.

Each component's `useState` fields are the fields of a class, and each event handler other than the plain field setters is a method
that states the component's whole new state in terms of a function of the old one. The
properties are proved about those functions: round trips of the codecs and of `split`/`join`, the
bounds the lists keep (16 recent emojis, 10 history entries, 3 tag groups of 20 tags), the
invariants the handlers preserve (no repeated group, flag or recent emoji), and the placement of
the editor's cursor. Strings handled as UTF-16 code units (the Base64 codecs, `parseInt`) are
sequences of `int`; other strings are Dafny `string`s.

## Model

| member | source | states |
|---|---|---|
| JsText.Trim | src/components/features/base64-tool/Base64Tool.tsx:36 | `trim()` leaves no white space or line terminator at either end and never lengthens the text |
| JsText.TrimBlank | src/components/features/base64-tool/Base64Tool.tsx:36 | `trim()` gives the empty string exactly when the text is white space only (both directions) |
| JsText.Split | src/pages/PixivPage.tsx:57 | `split('\|')` gives one more piece than the text has separators, and no piece holds a separator |
| JsText.JoinSplit | src/pages/PixivPage.tsx:57 | joining the pieces of `split('\|')` with `\|` gives the group back: splitting loses nothing |
| JsText.SplitJoin | src/pages/PixivPage.tsx:57 | splitting a join of separator-free pieces gives the pieces back |
| JsText.Remove | src/pages/PixivPage.tsx:102 | `filter(t => t !== x)` removes every `x`, never lengthens, and leaves a list without `x` as it was |
| JsText.RemoveMembers | src/pages/PixivPage.tsx:102 | an element survives the filter exactly when it was there and differs from `x` |
| JsText.RemoveMultiset | src/components/features/emoji-tools/EmojiPicker.tsx:41 | the filter keeps every other element with its multiplicity and drops all copies of `x` |
| JsText.RemoveNoDuplicates | src/components/features/emoji-tools/EmojiPicker.tsx:31 | filtering a list without repeats leaves a list without repeats |
| JsText.RemoveAppended | src/components/features/emoji-tools/EmojiPicker.tsx:40-42 | filtering `x` out of a list with `x` appended is filtering it out of the list |
| JsText.RemoveConcat | src/pages/PixivPage.tsx:102 | the filter distributes over concatenation, so the kept elements keep their relative order |
| JsText.RemoveOnly | src/pages/PixivPage.tsx:102 | filtering out the one `x` of a list leaves the elements before and after it, in order |
| JsText.Take | src/components/features/emoji-tools/EmojiPicker.tsx:33 | `slice(0, n)` is the prefix of length min(n, length) |
| JsText.TakeLast | src/stores/tool-store.ts:13 | `slice(-n)` is the suffix of length min(n, length) |
| JsText.IndexOf | src/components/features/markdown-editor/MarkdownEditor.tsx:83 | `indexOf` gives the first position where the pattern occurs, or -1 when it occurs nowhere |
| JsText.ParseInt16 | src/components/features/base64-tool/Base64Tool.tsx:25 | `parseInt(s, 16)` of a non-empty run of hex digits, in either case, is their value, and of the empty text `NaN` |
| JsText.FromCharCode | src/components/features/base64-tool/Base64Tool.tsx:25 | `String.fromCharCode` keeps a value within 0..0xFFFF as the code unit and maps `NaN` to U+0000 |
| Base64Tool.ToHex | src/components/features/base64-tool/Base64Tool.tsx:23 | `toString(16)` gives non-empty lower-case hex digits whose value is the number |
| Base64Tool.ToHexLength | src/components/features/base64-tool/Base64Tool.tsx:23 | a number below 16^k is written with at most k digits |
| Base64Tool.PadStart | src/components/features/base64-tool/Base64Tool.tsx:23 | `padStart(width, '0')` has length max(width, length of the text) |
| Base64Tool.PadStartShape | src/components/features/base64-tool/Base64Tool.tsx:23 | the padding is zeros in front and the text is kept as the tail |
| Base64Tool.PaddedHexValue | src/components/features/base64-tool/Base64Tool.tsx:23 | leading zeros do not change the value of the padded digits |
| Base64Tool.UnicodeEscape | src/components/features/base64-tool/Base64Tool.tsx:23 | every escape is six units long and starts with `\u` |
| Base64Tool.EscapeDigits | src/components/features/base64-tool/Base64Tool.tsx:23 | the four digits of an escape are lower-case hex digits whose value is the code unit |
| Base64Tool.UnicodeEncode | src/components/features/base64-tool/Base64Tool.tsx:23 | the encoding is six units per code unit of the input |
| Base64Tool.UnicodeEncodeAt | src/components/features/base64-tool/Base64Tool.tsx:23 | the k-th escape of the encoding sits at offset 6k |
| Base64Tool.NoUpperUInEncode | src/components/features/base64-tool/Base64Tool.tsx:23 | the encoder never writes a capital `U` |
| Base64Tool.DropBackslashU | src/components/features/base64-tool/Base64Tool.tsx:25 | `replace(/\\u/g, '')` drops only backslashes followed by a lower-case `u`, and never lengthens the match |
| Base64Tool.UnicodeDecodeAsWritten | src/components/features/base64-tool/Base64Tool.tsx:24-26 | the decoder the page runs never lengthens the text |
| Base64Tool.UnicodeDecode | src/components/features/base64-tool/Base64Tool.tsx:24-26 | the corrected decoder never lengthens the text |
| Base64Tool.UnicodeRoundTrip | src/components/features/base64-tool/Base64Tool.tsx:23-26 | decoding an encoding gives back every string of UTF-16 code units |
| Base64Tool.UnicodeRoundTripAsWritten | src/components/features/base64-tool/Base64Tool.tsx:23-26 | the decoder as the page runs it also gives back every encoded string of code units |
| Base64Tool.UnicodeDecodeEscape | src/components/features/base64-tool/Base64Tool.tsx:24-26 | an escape `\u` or `\U` with four hex digits of either case decodes to the unit of that value, followed by the decoded rest |
| Base64Tool.HexValueIgnoresCase | src/components/features/base64-tool/Base64Tool.tsx:24 | lower-casing the letters of hex digits keeps their value |
| Base64Tool.UnicodeDecodeNoEscape | src/components/features/base64-tool/Base64Tool.tsx:24-26 | text holding no escape the pattern matches passes through both decoders unchanged |
| Base64Tool.DecodersAgreeWithoutUpperU | src/components/features/base64-tool/Base64Tool.tsx:24-25 | the decoder as written and the corrected one agree on text without a capital `U` |
| Base64Tool.UpperUEscapeDecodesToNul | src/components/features/base64-tool/Base64Tool.tsx:24-25 | as written, `\U0041` decodes to U+0000 while the corrected decoder gives `A` |
| Base64Tool.UpperUMatchIsNaN | src/components/features/base64-tool/Base64Tool.tsx:25 | `parseInt` of a match that still starts with a backslash is `NaN` |
| Base64Tool.HexUnit | src/components/features/base64-tool/Base64Tool.tsx:29 | each unit is written with at least two digits, and exactly two when it is below 256 |
| Base64Tool.HexUnitDigits | src/components/features/base64-tool/Base64Tool.tsx:29 | those digits are lower-case hex digits whose value is the code unit |
| Base64Tool.HexEncode | src/components/features/base64-tool/Base64Tool.tsx:29 | the hex encoding of a string of units below 256 is two digits per unit |
| Base64Tool.HexEncodeDigits | src/components/features/base64-tool/Base64Tool.tsx:29 | the hex encoding holds only lower-case hex digits |
| Base64Tool.HexChunks | src/components/features/base64-tool/Base64Tool.tsx:30 | `match(/.{1,2}/g)` gives chunks of one or two units, none holding a line terminator |
| Base64Tool.HexDecode | src/components/features/base64-tool/Base64Tool.tsx:30 | the decoding has one unit per chunk, each `fromCharCode(parseInt(chunk, 16))` |
| Base64Tool.HexDecodeEmpty | src/components/features/base64-tool/Base64Tool.tsx:30 | empty text, where the match gives `null`, decodes to the empty string |
| Base64Tool.HexChunksPairs | src/components/features/base64-tool/Base64Tool.tsx:30 | the chunks are the consecutive pairs of the text, the last one single when the length is odd |
| Base64Tool.HexChunksOfEncode | src/components/features/base64-tool/Base64Tool.tsx:29-30 | the chunks of an encoding are the two-digit groups of its units |
| Base64Tool.HexRoundTrip | src/components/features/base64-tool/Base64Tool.tsx:29-30 | decoding the hex encoding gives back every string of units below 256 |
| Base64Tool.HexRoundTripFailsAbove255 | src/components/features/base64-tool/Base64Tool.tsx:29-30 | a unit above 255 does not survive: U+4E2D comes back as U+004E U+002D |
| Base64Tool.Convert | src/components/features/base64-tool/Base64Tool.tsx:13-31 | the unicode and hex modes run the hand-written codecs, the unicode decoder as the page writes it, and never fail |
| Base64Tool.Base64Tool.constructor | src/components/features/base64-tool/Base64Tool.tsx:7-11 | empty input and output, Base64 encoding, no error |
| Base64Tool.Base64Tool.HandleConvert | src/components/features/base64-tool/Base64Tool.tsx:34-47 | a blank input shows the empty-input error; otherwise the output becomes the conversion, or a failure shows the prefixed message and keeps the old output |
| Base64Tool.Base64Tool.Clear | src/components/features/base64-tool/Base64Tool.tsx:141-145 | input, output and error are cleared; mode and direction are kept |
| EmojiPicker.NextRecent | src/components/features/emoji-tools/EmojiPicker.tsx:31-34 | the recent list grows by one up to its limit of 16 |
| EmojiPicker.NextRecentShape | src/components/features/emoji-tools/EmojiPicker.tsx:31-34 | the clicked emoji comes first, followed by the older entries without it, in their order |
| EmojiPicker.NextRecentFromOld | src/components/features/emoji-tools/EmojiPicker.tsx:31-34 | every entry is the clicked emoji or an old entry |
| EmojiPicker.NextRecentNoDuplicates | src/components/features/emoji-tools/EmojiPicker.tsx:31-34 | a recent list without repeats stays without repeats |
| EmojiPicker.NextRecentOfFirst | src/components/features/emoji-tools/EmojiPicker.tsx:31-34 | clicking the emoji already in front changes nothing |
| EmojiPicker.NextRecentKeepsOrder | src/components/features/emoji-tools/EmojiPicker.tsx:31-34 | clicking an emoji of the list moves it to the front and the entries around it keep their order |
| EmojiPicker.ShownRecent | src/components/features/emoji-tools/EmojiPicker.tsx:111-118 | the panel shows the first 12 recent emojis, and nothing while searching or when the list is empty (both directions) |
| EmojiPicker.NextFavorites | src/components/features/emoji-tools/EmojiPicker.tsx:39-45 | a favourite is removed entirely; a new one is appended |
| EmojiPicker.ToggleAbsentTwice | src/components/features/emoji-tools/EmojiPicker.tsx:39-45 | toggling a non-favourite twice gives the favourites back |
| EmojiPicker.TogglePresentTwice | src/components/features/emoji-tools/EmojiPicker.tsx:39-45 | toggling a favourite twice moves it to the end, once |
| EmojiPicker.FilterSearch | src/components/features/emoji-tools/EmojiPicker.tsx:50-56 | the search filter never lengthens the list |
| EmojiPicker.FilterSearchExact | src/components/features/emoji-tools/EmojiPicker.tsx:50-56 | every result matches the term, and every matching emoji is a result |
| EmojiPicker.FindCategory | src/components/features/emoji-tools/EmojiPicker.tsx:57 | `find` gives the first category with the name, or none when no category has it |
| EmojiPicker.FilteredEmojis | src/components/features/emoji-tools/EmojiPicker.tsx:47-58 | with a search term the search runs over all categories; without one the first category of the selected name is shown, or nothing when none has it |
| EmojiPicker.SearchResults | src/components/features/emoji-tools/EmojiPicker.tsx:47-56 | a search result is exactly an emoji of the table that matches the term |
| EmojiPicker.EmojiPickerState.constructor | src/components/features/emoji-tools/EmojiPicker.tsx:11-15 | the first category is selected; nothing is searched, remembered or copied |
| EmojiPicker.EmojiPickerState.HandleEmojiClick | src/components/features/emoji-tools/EmojiPicker.tsx:25-37 | the emoji is marked copied and the recent list updated; nothing else changes |
| EmojiPicker.EmojiPickerState.ToggleFavorite | src/components/features/emoji-tools/EmojiPicker.tsx:39-45 | only the favourites change, as `NextFavorites` says |
| EmojiPicker.EmojiPickerState.SelectCategory | src/components/features/emoji-tools/EmojiPicker.tsx:94-97 | the category is selected and the search cleared |
| ToolStore.NextHistory | src/stores/tool-store.ts:13 | the history grows by one up to its limit of 10 |
| ToolStore.NextHistoryShape | src/stores/tool-store.ts:13 | the new item is last, preceded by the newest old entries |
| ToolStore.NextHistoryKeepsNewest | src/stores/tool-store.ts:13 | the surviving old entries are the newest ones, in their order |
| ToolStore.Apply | src/stores/tool-store.ts:11-15 | clearing empties the history; adding is `NextHistory` |
| ToolStore.RunBounded | src/stores/tool-store.ts:10-15 | from a history of at most 10, any sequence of operations leaves at most 10 entries |
| ToolStore.RunEndsWithAdd | src/stores/tool-store.ts:11-14 | after operations ending with an addition, the added item is the last entry |
| ToolStore.Store.constructor | src/stores/tool-store.ts:10 | the history starts empty |
| ToolStore.Store.AddHistory | src/stores/tool-store.ts:11-14 | the history becomes `NextHistory` of the old one |
| ToolStore.Store.ClearHistory | src/stores/tool-store.ts:15 | the history becomes empty |
| PixivPage.TagInput | src/pages/PixivPage.tsx:69-97 | the handler either keeps the groups or appends the trimmed box, and appends only a new, valid group below the limit, clearing error and box |
| PixivPage.TagInputIgnored | src/pages/PixivPage.tsx:70 | without Enter or a click, or with a blank box, nothing changes |
| PixivPage.TagInputTooManyGroups | src/pages/PixivPage.tsx:75-78 | with 3 groups the group error is shown and groups and box are kept |
| PixivPage.TagInputTooManyTags | src/pages/PixivPage.tsx:80-85 | a group of more than 20 tags is refused with the tag error |
| PixivPage.TagInputDuplicate | src/pages/PixivPage.tsx:87-95 | a group already present is not added again; the box is emptied and the error kept |
| PixivPage.TagInputAppends | src/pages/PixivPage.tsx:87-95 | a new acceptable group is appended, the error cleared and the box emptied |
| PixivPage.TagInputKeepsValid | src/pages/PixivPage.tsx:69-97 | the group list stays valid: at most 3 groups, none twice, each trimmed, non-empty, with at most 20 tags |
| PixivPage.RemoveTag | src/pages/PixivPage.tsx:99-104 | exactly the groups other than the removed one remain (their order: `PixivPage.RemoveTagKeepsOrder`) |
| PixivPage.RemoveTagKeepsOrder | src/pages/PixivPage.tsx:99-104 | removing a group leaves the groups before and after it in their order |
| PixivPage.RemoveTagKeepsValid | src/pages/PixivPage.tsx:99-104 | removing a group keeps the list valid |
| PixivPage.RequestTags | src/pages/PixivPage.tsx:55-58 | the request has one list per group, joining back to the group, with no tag holding `\|` |
| PixivPage.RequestTagsBounds | src/pages/PixivPage.tsx:55-58 | for a valid list the request holds at most 3 groups of 1 to 20 tags each |
| PixivPage.AddClickAsWritten | src/pages/PixivPage.tsx:300-306 | as written, the button throws exactly when the keyword box is not blank |
| PixivPage.AddClickAsWrittenNeverAdds | src/pages/PixivPage.tsx:300-306 | as written, the button never adds a group, whatever the boxes hold |
| PixivPage.AddClick | src/pages/PixivPage.tsx:300-306 | the intended button either empties the tag box or leaves it as it was |
| PixivPage.AddClickAdds | src/pages/PixivPage.tsx:300-306 | the intended button puts an acceptable tag-box group into the list and empties the box |
| PixivPage.AddClickDiscrepancy | src/pages/PixivPage.tsx:300-306 | with `a` in the tag box and nothing in the keyword box, only the intended button adds `a` |
| PixivPage.PixivPageState.constructor | src/pages/PixivPage.tsx:40-47 | no group, no error, both boxes empty |
| PixivPage.PixivPageState.HandleTagInput | src/pages/PixivPage.tsx:69-97 | groups, error and tag box become the handler's result; the list stays valid |
| PixivPage.PixivPageState.RemoveTagClick | src/pages/PixivPage.tsx:285 | the clicked group is removed; the rest of the state is kept |
| PixivPage.PixivPageState.AddClickButton | src/pages/PixivPage.tsx:300-306 | the page's own button: it throws exactly when the keyword box is not blank, and it never changes the groups, the error or either box |
| PixivPage.PixivPageState.AddClickTagBox | src/pages/PixivPage.tsx:300-306 | the corrected button (the one the page evidently means), reading the tag box; the list stays valid |
| MobileTranslator.AvailableTargets | src/components/features/translator/MobileTranslatorTool.tsx:45 | the targets a source allows are concrete languages, never `auto` |
| MobileTranslator.ConcreteSourceTargets | src/components/features/translator/MobileTranslatorTool.tsx:28-36 | a concrete source allows each of the other five languages and not itself |
| MobileTranslator.AutoSourceTargets | src/components/features/translator/MobileTranslatorTool.tsx:29 | detection allows all six languages |
| MobileTranslator.UnknownSourceTargets | src/components/features/translator/MobileTranslatorTool.tsx:45 | a source missing from the table allows nothing |
| MobileTranslator.Swap | src/components/features/translator/MobileTranslatorTool.tsx:74-88 | with neither language `auto` the languages and texts are exchanged; otherwise nothing changes and a warning is raised |
| MobileTranslator.SwapTwice | src/components/features/translator/MobileTranslatorTool.tsx:74-88 | swapping twice gives back both languages and both texts |
| MobileTranslator.Clear | src/components/features/translator/MobileTranslatorTool.tsx:100-103 | both texts are emptied and both languages kept |
| MobileTranslator.PickSource | src/components/features/translator/MobileTranslatorTool.tsx:128 | a source button sets the source and leaves the target |
| MobileTranslator.PickTarget | src/components/features/translator/MobileTranslatorTool.tsx:183-188 | a target button sets the target only when the source allows it, otherwise does nothing |
| MobileTranslator.TargetNeverAuto | src/components/features/translator/MobileTranslatorTool.tsx:106-109 | from a target other than `auto`, no sequence of button presses makes the target `auto` |
| MobileTranslator.SourceButtonIgnoresTable | src/components/features/translator/MobileTranslatorTool.tsx:128 | a source button can leave a target the new source does not allow (Chinese to Chinese) |
| MobileTranslator.SwapButtonAlwaysSwaps | src/components/features/translator/MobileTranslatorTool.tsx:204-205 | when the swap button is enabled the swap always exchanges and raises no warning |
| MobileTranslator.TrimTestsBlank | src/components/features/translator/MobileTranslatorTool.tsx:49 | `!text.trim()` holds exactly for blank text |
| MobileTranslator.IsBlank | src/components/features/translator/MobileTranslatorTool.tsx:49 | the blank test answers whether the text is blank |
| MobileTranslator.FailureText | src/components/features/translator/MobileTranslatorTool.tsx:67 | the error shown is the server's non-empty message, or else the fixed failure message; it is never empty |
| MobileTranslator.Translator.constructor | src/components/features/translator/MobileTranslatorTool.tsx:6-14 | empty texts, detection as source, Chinese as target, nothing loading or shown |
| MobileTranslator.Translator.HandleTranslate | src/components/features/translator/MobileTranslatorTool.tsx:48-71 | blank text warns and sends nothing; otherwise the request carries text and languages, and the reply's translation, or its error text (the fixed message when the server sent none or an empty one), is shown |
| MobileTranslator.Translator.SwapLanguages | src/components/features/translator/MobileTranslatorTool.tsx:74-88 | the panel becomes its swap and the warning, if any, is shown |
| MobileTranslator.Translator.ClearText | src/components/features/translator/MobileTranslatorTool.tsx:100-103 | the panel is cleared |
| MobileTranslator.Translator.SelectSource | src/components/features/translator/MobileTranslatorTool.tsx:128 | the source button's effect on the panel |
| MobileTranslator.Translator.SelectTarget | src/components/features/translator/MobileTranslatorTool.tsx:183-188 | the target button's effect on the panel |
| MarkdownEditor.NewText | src/components/features/markdown-editor/MarkdownEditor.tsx:64-77 | a wrapping template with a selection wraps it; otherwise the template replaces the selection |
| MarkdownEditor.WrappingTemplates | src/components/features/markdown-editor/MarkdownEditor.tsx:64-77 | bold, italic, link, inline code and code block wrap a non-empty selection as markdown does |
| MarkdownEditor.ReplacingTemplates | src/components/features/markdown-editor/MarkdownEditor.tsx:32-51 | every other toolbar template replaces the selection |
| MarkdownEditor.Insert | src/components/features/markdown-editor/MarkdownEditor.tsx:57-79 | the new text is the text before the selection, the inserted text, and the text after it |
| MarkdownEditor.CursorOffsetPlacement | src/components/features/markdown-editor/MarkdownEditor.tsx:82-84 | the cursor lands on the first `url` of the inserted text, or at its end when the template has none |
| MarkdownEditor.InsertKeepsContext | src/components/features/markdown-editor/MarkdownEditor.tsx:57-79 | the text around the selection is kept and the length changes by inserted minus selected |
| MarkdownEditor.InsertAtCaret | src/components/features/markdown-editor/MarkdownEditor.tsx:64 | with nothing selected the template is inserted unchanged at the caret |
| MarkdownEditor.CursorPlacement | src/components/features/markdown-editor/MarkdownEditor.tsx:82-85 | the cursor lies within the inserted text and, for a template with `url`, on a `url` |
| MarkdownEditor.ShortcutTemplate | src/components/features/markdown-editor/MarkdownEditor.tsx:117-134 | a shortcut gives a toolbar template and needs Ctrl or Cmd |
| MarkdownEditor.ShortcutKeys | src/components/features/markdown-editor/MarkdownEditor.tsx:117-134 | Ctrl/Cmd with `b`, `i` and `k` give bold, italic and link (both directions), and nothing else does |
| MarkdownEditor.Editor.constructor | src/components/features/markdown-editor/MarkdownEditor.tsx:27-30 | the starting text with the write tab open |
| MarkdownEditor.Editor.InsertText | src/components/features/markdown-editor/MarkdownEditor.tsx:53-86 | with the text area shown the text becomes the insertion and the cursor is placed; otherwise nothing happens |
| MarkdownEditor.Editor.HandleKeyDown | src/components/features/markdown-editor/MarkdownEditor.tsx:117-134 | on the write tab a shortcut inserts its template and places the cursor; on the preview tab, and for any other key, nothing changes |
| MarkdownEditor.Editor.DropImage | src/components/features/markdown-editor/MarkdownEditor.tsx:149-162 | a dropped image is inserted as image markdown with its name |
| MarkdownEditor.Editor.PasteImage | src/components/features/markdown-editor/MarkdownEditor.tsx:164-179 | a pasted image is inserted as image markdown with the fixed name |
| MarkdownEditor.Editor.SetWriteTab | src/components/features/markdown-editor/MarkdownEditor.tsx:216 | the tab is switched and the text kept |
| RegexTester.FirstIndex | src/components/features/regex-tester/RegexTester.tsx:62 | the first position of the flag |
| RegexTester.RemoveFirst | src/components/features/regex-tester/RegexTester.tsx:62 | `replace(flag, '')` leaves text without the flag unchanged |
| RegexTester.ToggleFlag | src/components/features/regex-tester/RegexTester.tsx:59-65 | an absent flag is appended; a present one loses one occurrence and nothing else |
| RegexTester.ToggleFlagNoDuplicates | src/components/features/regex-tester/RegexTester.tsx:59-65 | flags stay without repeats, and hold the flag exactly when they did not before |
| RegexTester.ToggleAbsentTwice | src/components/features/regex-tester/RegexTester.tsx:59-65 | toggling an absent flag twice gives the flags back |
| RegexTester.TogglePresentTwice | src/components/features/regex-tester/RegexTester.tsx:59-65 | toggling a present flag twice gives back the same set of flags |
| RegexTester.TogglePresentTwiceReorders | src/components/features/regex-tester/RegexTester.tsx:59-65 | but not their order: `gi` becomes `ig` |
| RegexTester.Collect | src/components/features/regex-tester/RegexTester.tsx:36-48 | no match is recorded exactly when `exec` finds none from the start, the first recorded is that match, and only the `g` flag can keep the loop from stopping |
| RegexTester.CollectWithoutGlobal | src/components/features/regex-tester/RegexTester.tsx:36-48 | without `g` at most one match is recorded and the loop stops |
| RegexTester.CollectOrdered | src/components/features/regex-tester/RegexTester.tsx:36-48 | the recorded matches lie in the text, in text order, without overlapping |
| RegexTester.CollectMatches | src/components/features/regex-tester/RegexTester.tsx:36-48 | the `exec` loop records exactly the matches `Collect` specifies |
| RegexTester.Tester.constructor | src/components/features/regex-tester/RegexTester.tsx:10-14 | empty pattern and text, the `g` flag, no matches and no error |
| RegexTester.Tester.ToggleFlagButton | src/components/features/regex-tester/RegexTester.tsx:59-65 | the flags are toggled and stay without repeats |
| RegexTester.Tester.TestRegex | src/components/features/regex-tester/RegexTester.tsx:26-57 | an empty pattern or a compile error shows its error; otherwise the matches are shown and no match is an error |
| ColorPicker.Slice | src/components/features/color-picker/ColorPicker.tsx:13 | `slice` never gives more than the range asked for |
| ColorPicker.ParseColor | src/components/features/color-picker/ColorPicker.tsx:13-15 | an empty or one-character colour gives `NaN` for all three components |
| ColorPicker.ComponentOfDigits | src/components/features/color-picker/ColorPicker.tsx:13 | two hex digits are read as one component within 0..255 |
| ColorPicker.ParseHexColor | src/components/features/color-picker/ColorPicker.tsx:13-15 | the components of a `#rrggbb` colour are its three digit pairs, each within 0..255 |
| ColorPicker.FormatColor | src/components/features/color-picker/ColorPicker.tsx:69 | a colour as the input reports it is `#` and six hex digits |
| ColorPicker.ParseFormatColor | src/components/features/color-picker/ColorPicker.tsx:13-15 | reading a reported colour gives back its three components |
| ColorPicker.UpperAscii | src/components/features/color-picker/ColorPicker.tsx:82 | upper-casing keeps the length and turns `a`-`z` into `A`-`Z` |
| ColorPicker.HexText | src/components/features/color-picker/ColorPicker.tsx:82 | the HEX field keeps the length and holds no lower-case letter |
| ColorPicker.ParseIgnoresCase | src/components/features/color-picker/ColorPicker.tsx:82 | the upper-cased HEX display is a well-formed colour with the same components |
| ColorPicker.RgbToHsl | src/components/features/color-picker/ColorPicker.tsx:34-35 | a grey has hue 0 and saturation 0 |
| ColorPicker.GreyLightness | src/components/features/color-picker/ColorPicker.tsx:53-57 | a grey's lightness is 100 * r / 255 rounded, within 0..100 |
| ColorPicker.BlackAndWhite | src/components/features/color-picker/ColorPicker.tsx:34-35 | black and white have lightness 0 and 100 |
| ColorPicker.Decimal | src/components/features/color-picker/ColorPicker.tsx:93 | a number's decimal digits denote it, with no leading zero |
| ColorPicker.RgbTextOfColor | src/components/features/color-picker/ColorPicker.tsx:93 | the RGB display of a well-formed colour shows its components in decimal |
| ColorPicker.GreyHslText | src/components/features/color-picker/ColorPicker.tsx:104 | the HSL field of a grey reads `hsl(0°, 0%, L%)`, L being 100 * r / 255 rounded |
| ColorPicker.Picker.constructor | src/components/features/color-picker/ColorPicker.tsx:4-6 | black, with components and HSL zero |
| ColorPicker.Picker.HandleColorChange | src/components/features/color-picker/ColorPicker.tsx:8-21 | colour, components and HSL follow the picked colour, and the state stays consistent |
| ColorPicker.InitialIsBlack | src/components/features/color-picker/ColorPicker.tsx:4-6 | the initial components and HSL are what picking `#000000` would give |

## Left out

- Library codecs: `btoa`, `atob`, `encodeURIComponent` and `decodeURIComponent` are a parameter of `Base64Tool.Convert`, which reports what they return or the message they throw.
- Regular-expression engine: `new RegExp` and `exec` are a parameter of `RegexTester.Tester.TestRegex`; the model only assumes that a match found from a position starts there or later and lies within the text.
- `RegexTester.CollectMatches`: with the `g` flag, an empty match makes the page's loop run forever; the model stops there and reports `finished == false` instead of not terminating.
- Translation server: the network request is left out. `MobileTranslator.Translator.HandleTranslate` takes the server's reply as a parameter and states the final state. The loading flag set during the request is therefore not observable.
- Clipboard, `localStorage`, timers and the dismissal of notifications are left out. `EmojiPicker.EmojiPickerState.HandleEmojiClick` takes the clipboard write as succeeding, and the two-second reset of the copied mark is not modelled.
- The emoji picker's saved lists: the recent and favourite lists it reads back from storage when it mounts are left out. The model starts with both lists empty.
- The translator's copy button only writes to the clipboard and is left out.
- File reading: `FileReader` is left out. `MarkdownEditor.Editor.DropImage` and `MarkdownEditor.Editor.PasteImage` take the data URL already read, one file at a time.
- `Base64Tool.Convert` runs the unicode decoder as the page writes it (`Base64Tool.UnicodeDecodeAsWritten`). The corrected decoder of the first finding, `Base64Tool.UnicodeDecode`, is modelled beside it and not used by the tool.
- The Markdown editor's saved text is left out. Its effect (src/components/features/markdown-editor/MarkdownEditor.tsx, lines 136-147) runs after every change of the text and loads the saved text back when there is one, so in the page an edit can be replaced by the last saved text. The editor's methods state the text right after each edit, before that effect runs.
- The DOM text area: the selection is passed to the editor's methods, and the cursor position they compute is returned rather than set with `setSelectionRange` and `focus`.
- Floating point: the hue and saturation of a colour whose components differ are a parameter of `ColorPicker.RgbToHsl`. Greys are computed with integers: `Math.round(100 * r / 255)` equals `(200 * r + 255) / 510`, because 100r/255 has a fractional part in steps of 1/51 and so is never closer than 1/102 to a half, and the rounding error of the floating-point division cannot change the rounded result.
- `String.prototype.toLowerCase` in the emoji search is a parameter of the search functions.
- `ColorPicker.UpperAscii`: `toUpperCase` is modelled for ASCII only, which covers every character of a colour the input reports; the full Unicode case mapping is left out.
- Outside the Base64 codecs, a character of a Dafny `string` stands for one UTF-16 code unit; surrogate pairs are not distinguished.
- The Pixiv page's image fetch is left out: the network call, the images, their loading and error states, and the request's fields other than `tag`.
- Rendering is left out: the JSX layout, Markdown preview, styling and icons.
- `JsText.FromCharCode`: the contract does not state the reduction modulo 2^16 of values above 0xFFFF, which the body performs; only values within range and `NaN` are stated.
- `RegexTester.TogglePresentTwice`: states only that the same flags come back, as a multiset, because the order does change (`RegexTester.TogglePresentTwiceReorders`).
- `MarkdownEditor.CursorOffsetPlacement`: fenced templates containing `url` are excluded. No button, shortcut, drop or paste produces one.
- `MarkdownEditor.CursorPlacement`: the same exclusion as `MarkdownEditor.CursorOffsetPlacement`.
- `PixivPage.AddClick`: its own contract only says the tag box is emptied or kept. What it adds is stated by `PixivPage.AddClickAdds` and the `PixivPage.TagInput` lemmas it reuses.
- `ColorPicker.RgbToHsl`: states the grey case only (hue and saturation 0), since the other case is a parameter.

## Findings

| source | as written | input that shows it | evidently intended | confidence | as-written member | corrected member |
|---|---|---|---|---|---|---|
| src/components/features/base64-tool/Base64Tool.tsx:24-25 | the escape pattern is case-insensitive and matches `\U0041`, but the inner `replace(/\\u/g, '')` is case-sensitive, so the backslash stays, `parseInt` gives `NaN` and the escape becomes U+0000 | decoding `\U0041` | an escape with a capital `U` decodes like one with `u`, to `A` | not executed | Base64Tool.UpperUEscapeDecodesToNul | Base64Tool.UnicodeDecodeEscape |
| src/pages/PixivPage.tsx:300-306 | the "add" button finds `input[type="text"]`, the first text input, which is the keyword box of line 252 and not the tag box. When that box is blank the handler ignores the event. Otherwise the hand-made event lacks `preventDefault` and the handler throws. Either way no group is added. | `a` in the tag box, the keyword box empty, then a click on "add" | the click adds the tag box's group, as Enter in the tag box does | not executed | PixivPage.AddClickAsWrittenNeverAdds | PixivPage.AddClickAdds |
