# pmt prompt-template engine in Dafny

pmt is a terminal picker for prompt templates. The prompts file is markdown. Each
`## title` line starts a template, and the lines under it are the template's body. A
title may contain `/` to file the template in a folder tree. A body may hold
placeholders:

- `{name}` or `{name|description}` is a variable the user fills in.
- `{random|a, b, c}` or `{random|"a" "b"}` picks one of its options at random.

The user picks a template from the tree and fills in its fields. The program renders
the text and copies it.

This project models the core of that program:

- **Templates and tokens** (`src/parser.rs`):
  - the heading splitter (`Headings`);
  - the placeholder classifier and the random-option extractor (`Placeholder`);
  - the tokenizer (`Tokenizer`);
  - the field extractor (`Fields`);
  - the renderer (`Render`);
  - the title trie and its pre-order listing (`Tree`).
- **Interactive state** (`src/app.rs`): the editing session `EditorState` and the list
  state `App` (`Session`).
- **Screen arithmetic** (`src/ui.rs`): the area inside a border and the scroll offset
  (`Ui`).

The other modules are support:

- `Models` holds the records of `src/models.rs`.
- `Str` holds the pieces of Rust's `str` API the code calls. These are `trim`,
  `trim_matches`, `find`, `split`, `split_whitespace` and `lines`. Whitespace is
  Unicode White_Space, as in Rust.

Each loop of the source is a Dafny method with the same loop. Each method is proved
equal to a recursive specification function, and the properties are proved about that
function:

- `parse_templates` is a line loop with a title buffer and a body buffer.
- `parse_tokens` is a cursor `while` loop.
- `parse_random_options` is a character loop with an in-quote flag.
- `collect_fields` and `render_template` are accumulating loops.
- `build_tree_items` is an insertion loop followed by the accumulator `flatten`.

`EditorState` and `App` are classes whose methods update their fields in place.

Randomness is a parameter, as follows:

- **Parsing.** The pick of `parse_placeholder` comes from `draws`, a sequence of
  numbers indexed by the position of the placeholder's `{`. The choice is option
  `draw % |options|`.
- **Rerolling.** `reroll_random` picks nondeterministically: any option may come out.

## Model

| member | source | states |
|---|---|---|
| Str.Trim | src/parser.rs:42 | The result has no whitespace at either end. It is empty exactly when the input is all whitespace. It keeps an already trimmed string and adds no character. |
| Str.TrimChar | src/parser.rs:199 | `trim_matches(',')` removes every leading and every trailing comma. The result has no comma at either end, keeps a string without end commas as it is, and adds no character. |
| Str.IndexOfFrom | src/parser.rs:120 | `find` gives a position at or after the start. The character at that position is the one sought, or the position is the end when the character does not occur. |
| Str.IndexOfFromFirst | src/parser.rs:120 | `find` finds the first occurrence: no earlier position holds the character. |
| Str.Split | src/parser.rs:60 | `split` gives one more piece than there are separators, and no piece holds a separator. |
| Str.SplitJoin | src/parser.rs:60 | Splitting loses nothing: joining the pieces with the separator gives the input back. |
| Str.JoinSplit | src/parser.rs:60 | Splitting undoes joining: pieces without the separator, joined with it, split back into the same pieces. |
| Str.Words | src/parser.rs:198 | `split_whitespace` gives non-empty words without whitespace. |
| Str.WordsJoin | src/parser.rs:198 | `split_whitespace` undoes joining non-empty, whitespace-free words with single spaces: it gives those words back, in order. |
| Str.Lines | src/parser.rs:10 | `lines` gives lines without `\n`, and an empty text has no lines. |
| Headings.ParseHeading | src/parser.rs:37-48 | A line gives a title exactly when it is a heading: `##`, then a space or tab, then a title that is not blank. The title is non-empty and trimmed. |
| Headings.NotHeadings | src/parser.rs:37-48 | `###x`, `## ` and `##x` are not headings. |
| Headings.TrimTrailingNewline | src/parser.rs:50-53 | The result is a prefix of the input. A trailing `\r\n` loses both characters. Any other trailing `\n` loses just that character. Without a trailing `\n`, a trailing `\r` loses that character. Otherwise the input is kept unchanged. |
| Headings.ParseTemplates | src/parser.rs:5-35 | The line loop yields exactly `Sections` of the lines: one template per heading, as many templates as heading lines, each name a title. |
| Headings.SectionCount | src/parser.rs:10-33 | There are exactly as many templates as heading lines. |
| Headings.SectionNames | src/parser.rs:11-20 | Every template name is a non-empty trimmed title. |
| Headings.PreambleDropped | src/parser.rs:21-24 | Lines before the first heading belong to no template. |
| Headings.BodyIsJoinedLines | src/parser.rs:21-31 | A body is its lines joined by `\n`, less one final `\r`. |
| Placeholder.CommaWords | src/parser.rs:196-201 | Fallback options are never empty, hold no whitespace and have no comma at either end. There is at most one per word. Which words they are is stated by the lemmas in the rows below. |
| Placeholder.CommaWordsAppend | src/parser.rs:198-201 | The fallback works word by word, in order: the options of two word lists are those of the first, then those of the second. |
| Placeholder.CommaWordsKeeps | src/parser.rs:199-200 | A word that keeps characters after `trim_matches(',')` gives exactly that trimmed word as an option, ahead of the options of the words after it. |
| Placeholder.CommaWordsDropsEmpty | src/parser.rs:199-200 | A word made only of commas gives no option: the options of the list are those of the words after it. |
| Placeholder.CommaWordsKeepsBare | src/parser.rs:199-200 | Words that are already non-empty and comma-free at both ends come back unchanged, in order. |
| Placeholder.FallbackOfWords | src/parser.rs:176-204 | Quote-free, non-empty, whitespace-free words joined by single spaces give exactly their comma-trimmed words, in order, with the comma-only ones dropped. |
| Placeholder.FallbackRoundTrip | src/parser.rs:176-204 | Quote-free options written out separated by spaces are read back as the same options, in order. |
| Placeholder.TrailingCommaDropped | src/parser.rs:199 | An option followed by one comma trims back to that option. |
| Placeholder.CommaSeparated | src/parser.rs:196-201 | A comma list has one word per option: each option followed by a comma, except the last, which stands alone. |
| Placeholder.CommaListWords | src/parser.rs:196-201 | The fallback reads a comma list back as the options it lists, in order. |
| Placeholder.CommaListRoundTrip | src/parser.rs:176-204 | `random` options written `a, b, c` give `a`, `b` and `c`, for any quote-free options in their place. |
| Placeholder.ParseRandomOptions | src/parser.rs:176-204 | The character loop yields `RandomOptions`. Closed `"…"` runs are kept verbatim, even empty ones. An unclosed last run is kept only when it is not empty. The comma-trimmed words are used only when no quoted option exists. |
| Placeholder.QuotedOptionsHaveNoQuote | src/parser.rs:180-195 | No quoted option contains `"`. |
| Placeholder.LoneQuoteIsAnOption | src/parser.rs:176-204 | A fallback option can contain `"`. `random` options `a "` give the options `a` and `"`: a lone final `"` opens only an empty run, so there is no quoted option, and the `"` stays a word. |
| Placeholder.NoQuoteFallsBack | src/parser.rs:196-202 | A text without `"` gives its comma-trimmed words. |
| Placeholder.ParsePlaceholder | src/parser.rs:147-174 | Any token it classifies spans exactly the raw `{…}` text. |
| Placeholder.PlaceholderRules | src/parser.rs:147-174 | A `random` placeholder (text starting with `random` and a bar) gives a Random token whose choice is among its options, or literal text when there are no options. Any other placeholder gives a variable or nothing (None), and gives nothing exactly when the trimmed name before the first bar is empty. A variable's name is non-empty, trimmed and free of bars, and its description is the trimmed text after the first bar. |
| Tokenizer.Classify | src/parser.rs:130-134 | A span that is not a placeholder becomes literal text. Either way the token spans exactly the raw text. |
| Tokenizer.ParseTokens | src/parser.rs:117-145 | The cursor loop yields exactly `Tokens(body, draws)`. |
| Tokenizer.Coverage | src/parser.rs:117-145 | The tokens' spans, concatenated in order, are the body: no gap, no overlap. |
| Tokenizer.NoBrace | src/parser.rs:120-143 | A body without `{` gives `[Text(body)]`, or `[]` when it is empty. |
| Tokenizer.UnclosedBrace | src/parser.rs:136-139 | A `{` with no later `}` makes the rest of the body the last token, as text. |
| Tokenizer.TokensWellFormed | src/parser.rs:117-174 | Every token is well formed. Literal text is non-empty. Placeholders run from a `{` to the first `}` after it. Variables have trimmed, non-empty, bar-free names. Random tokens choose among their non-empty options. |
| Fields.CollectFields | src/parser.rs:206-225 | The loop yields `FieldsOf(tokens)`. |
| Fields.FieldsExtracted | src/parser.rs:206-225 | Field names are pairwise distinct, and every variable name has a field. Each field comes from its name's first occurrence, with the caption from that occurrence's description. Fields are ordered by first occurrence. |
| Fields.FieldsStartEmpty | src/parser.rs:217-221 | Every collected field's value is empty. |
| Render.FieldIndex | src/parser.rs:233-235 | The lookup finds a field with the name, or reports that there is none. |
| Render.FieldIndexIsFirst | src/parser.rs:233-235 | The lookup finds the first field with the name. |
| Render.RenderTemplate | src/parser.rs:227-254 | The loop yields `Rendered`: each token's text in order. |
| Render.VarRendering | src/parser.rs:232-243 | A variable shows the value of the first field with its name. It shows its raw span when that value is empty, when no field has its name, or when all fields of that name are empty. |
| Render.RenderUnfilled | src/parser.rs:227-254 | With no random token and no field filled, the output is the tokens' spans. |
| Render.RoundTrip | src/parser.rs:227-254 | A body whose placeholders are all variables renders to itself before any field is filled. |
| Tree.Segments | src/parser.rs:58-63 | A name's path segments are non-empty, trimmed and free of `/`. |
| Tree.SegmentsJoin | src/parser.rs:58-63 | Segments joined with `/` split back into the same segments. |
| Tree.SegmentsOfPieces | src/parser.rs:58-63 | The path of pieces without `/`, joined with `/`, is those pieces trimmed, with the blank ones dropped. |
| Tree.BlankPieceIgnored | src/parser.rs:58-63 | A blank piece between slashes (`A//B`, `A/ /B`) leaves the path unchanged. |
| Tree.NewNodeLooksUpNothing | src/parser.rs:80-86 | A new node records no template anywhere below it. |
| Tree.SubtreeLookup | src/parser.rs:88-103 | A lookup gives the template recorded at the node the path leads to, and nothing when the path leads to no node. |
| Tree.InsertSubtree | src/parser.rs:88-103 | After an insertion, a path leads to a node exactly when it did before or it is a start of the inserted path: insertion creates the missing nodes of its path and no others. |
| Tree.InsertLookup | src/parser.rs:88-103 | After an insertion, the inserted path leads to the new index, overwriting any earlier one. Every other path leads where it did before. |
| Tree.InsertKeepsSiblingOrder | src/parser.rs:93-101 | An insertion keeps the children's names in order, or appends the new segment after them. |
| Tree.ChildIndexIsFirst | src/parser.rs:93-96 | The child search finds the first child with the name: no earlier child has it. |
| Tree.InsertKeepsDistinct | src/parser.rs:88-103 | An insertion reuses the child with the segment's name and creates one only when there is none. So siblings keep pairwise distinct names at every level. |
| Tree.BuildDistinct | src/parser.rs:55-65 | In the built trie, no two siblings share a name. |
| Tree.InsertKeepsSegmentNamed | src/parser.rs:88-103 | Inserting a path of segments keeps every node below the root named by a segment. |
| Tree.BuildSegmentNamed | src/parser.rs:55-65 | A trie built from paths of segments names every node by a segment. |
| Tree.PathsOfSegments | src/parser.rs:57-64 | Every path built from the template names is made of segments. |
| Tree.FlattenCaptions | src/parser.rs:105-114 | Flattening a trie named by segments captions every item with a segment. |
| Tree.TreeItemsCaptions | src/parser.rs:55-70 | Every item's caption is a segment: non-empty, trimmed and free of `/`. |
| Tree.FlattenReaches | src/parser.rs:105-114 | With distinct siblings, each listed item is a node some path leads to. The path ends with the caption and is as long as the item is deep. The node it leads to records the item's template, or none for a folder row. |
| Tree.ListedIsLast | src/parser.rs:55-114 | An item naming template `i` sits where `i`'s path ends, under its last segment and at its depth. No later template has that path. |
| Tree.ListedAreLast | src/parser.rs:55-114 | Only the last template with each path is listed, at the depth and under the caption of that path. |
| Tree.FlattenFindsNode | src/parser.rs:105-114 | Every non-empty path that leads to a node is listed, folder or template, with its last segment, its depth and the node's template. |
| Tree.FlattenFinds | src/parser.rs:105-114 | Every path that leads to a template is listed: an item with its last segment, its depth and that template. |
| Tree.LastPathListed | src/parser.rs:55-114 | A non-empty path that no later path repeats is listed under its last segment, at its depth. |
| Tree.LastTemplatesListed | src/parser.rs:55-114 | Every template with a non-empty path that no later template overwrites is listed, under its last segment, at its path's depth. |
| Tree.BuildSubtree | src/parser.rs:55-65 | The built trie holds exactly the root and the non-empty starts of the inserted paths. |
| Tree.ListedSits | src/parser.rs:55-114 | Every listed item sits at a non-empty start `p` of some path. It has `p`'s last segment as caption and `p`'s depth, and shows the last template whose path is exactly `p`, or none. |
| Tree.FolderRowInsidePath | src/parser.rs:55-114 | A folder row (no template) lies strictly inside some longer path, which has the row's caption at the row's depth. |
| Tree.TreeItemsSitOnPaths | src/parser.rs:55-114 | No row is spurious: every row of the listing, folders included, sits at a non-empty start of some template's path. It has that start's last segment and depth, and shows the last template with exactly that path. |
| Tree.PrefixListed | src/parser.rs:55-114 | Every non-empty start of a path is listed, with the last template whose path it is. |
| Tree.TemplatePrefixesListed | src/parser.rs:55-114 | No row is missing: every non-empty start of a template's path (each folder on the way and the template itself) is listed under its last segment, at its depth, with the last template of exactly that path. |
| Tree.FlattenInto | src/parser.rs:105-114 | The accumulator recursion appends the pre-order listing: each child, then its subtree one level deeper. |
| Tree.BuildTreeItems | src/parser.rs:55-70 | The insertion loop, then `flatten`, yields `TreeItems(templates)`. |
| Tree.LastWithPathIsLast | src/parser.rs:57-64 | `LastWithPath` is the last template index with the given path, or None when no template has that path. |
| Tree.BuildLookup | src/parser.rs:55-65 | In the built trie, each path leads to the last template filed under it: a later template with the same path overwrites an earlier one. |
| Tree.TreeItemsIndexTemplates | src/parser.rs:55-70 | Every template index in the items is below the number of templates. |
| Tree.TreeItemsShaped | src/parser.rs:105-114 | The first item has depth 0, and each item is at most one level deeper than the one before it. |
| Tree.NoSegmentsNoItem | src/parser.rs:88-92 | A name with no non-blank segment marks only the root, which is never listed, so it adds no item. |
| Session.EditorState.constructor | src/app.rs:291-302 | A new session holds the body's tokens and their collected fields, with cursor and scroll at 0. |
| Session.NextIndex | src/app.rs:304-309 | With no fields the cursor stays. Otherwise it moves to the next field, wrapping from the last to the first, and stays in range. |
| Session.EditorState.NextField | src/app.rs:304-309 | The cursor moves by `NextIndex`. Nothing else changes. |
| Session.NextCycles | src/app.rs:304-309 | From the first field, `n` moves forward visit fields 0, 1, …, n-1, and the `count`-th move returns to 0. |
| Session.PrevIndex | src/app.rs:311-320 | With no fields the cursor stays. From 0 it goes to the last field, otherwise to the previous one. It stays in range when it started in range. |
| Session.EditorState.PrevField | src/app.rs:311-320 | The cursor moves by `PrevIndex`. Nothing else changes. |
| Session.NextPrevInverse | src/app.rs:304-320 | Next then previous, or previous then next, returns to the same field. |
| Session.Typed | src/app.rs:322-326 | Only the field under the cursor changes: its value grows by the character. An out-of-range cursor changes nothing. |
| Session.EditorState.PushChar | src/app.rs:322-326 | The fields become `Typed`, and the tokens and cursor stay. |
| Session.Erased | src/app.rs:328-332 | Only the field under the cursor changes: its value loses its last character, and an empty value stays empty. An out-of-range cursor changes nothing. |
| Session.EditorState.Backspace | src/app.rs:328-332 | The fields become `Erased`, and the tokens and cursor stay. |
| Session.ErasedUndoesTyped | src/app.rs:322-332 | Backspace undoes typing a character. |
| Session.EditorState.RerollRandom | src/app.rs:334-345 | The token count stays the same. Text and variable tokens stay. Each Random token with options keeps its options and raw span, and its new choice is one of its options. The fields and cursor stay. |
| Session.RerollKeepsSpans | src/app.rs:334-345 | A reroll keeps the template text the tokens cover. |
| Session.RerollKeepsFields | src/app.rs:334-345 | A reroll keeps the fields the tokens open. |
| Session.FreshSessionRendersBody | src/app.rs:291-302 | A new session on a body whose placeholders are all variables renders the body itself. |
| Session.InitialSelection | src/app.rs:60-64 | Row 0 is selected exactly when there are rows. |
| Session.App.Load | src/app.rs:57-95 | A successful load shows the templates' tree with the initial selection in the list view. A failed load shows the error view over an empty list. |
| Session.App.Reload | src/app.rs:254-264 | The reloaded templates replace the old ones, with their tree, the initial selection and scroll 0. |
| Session.Clamp | src/app.rs:189 | The value is pulled into `[lo, hi]` and kept when it is already inside. |
| Session.App.MoveList | src/app.rs:183-191 | On an empty list nothing changes. Otherwise the selection becomes `clamp(current + delta, 0, len - 1)`, a valid row, with no selection counting as row 0. |
| Session.MoveUndone | src/app.rs:183-191 | A move that stays inside the list is undone by the opposite move. |
| Session.App.IndexFromMouse | src/app.rs:269-287 | There is a row exactly when the area is not degenerate, the cell lies in it, and scroll plus row offset is a listed row. That row is scroll plus row offset. |
| Session.ClickedRowIsShown | src/app.rs:269-287 | A clicked row lies in the window the list is drawn from. |
| Session.App.OpenTarget | src/app.rs:193-205 | A template is opened exactly when a row is selected, the row names a template, and that template exists. |
| Session.App.OpenSelectedTemplate | src/app.rs:193-209 | With no target, the view and editor stay. With a target, a new session on that template's body is shown in the editor view. The list state is unchanged either way. |
| Session.App.CopyRendered | src/app.rs:211-216 | The text handed to the clipboard is the open session's tokens rendered with its current field values. Without a session there is none. |
| Session.TemplateRowsOpen | src/app.rs:198-205 | In a consistent list, a selected template row always opens: the existence check never fails. |
| Ui.InnerRect | src/ui.rs:194-205 | Each axis of at least two cells loses one cell at each end, and a shorter axis is kept. The result lies within the area. |
| Ui.InnerRectNests | src/ui.rs:194-205 | Peeling twice stays inside the first inner area, and an area too small to peel is a fixed point. |
| Ui.Clamped | src/ui.rs:211 | `min(current, total - 1)` is a row of the list, at most `current`, and equals `current` inside the list. |
| Ui.EnsureVisible | src/ui.rs:207-218 | A degenerate list or view gives 0. Otherwise the selected row is visible and the offset is a row of the list. The offset stays at the clamped old offset when the selection is already visible there. |
| Ui.VisibleWindow | src/ui.rs:57-59 | The window `[scroll, min(scroll + height, total))` the callers slice is valid and holds the selected row. |
| Ui.EnsureVisibleIsNearest | src/ui.rs:207-218 | No offset that shows the selected row is closer to the clamped old offset. |

## Left out

- File access is not part of this model: finding, creating and reading the prompts file, and the "no templates" load error. `App.Load` and `App.Reload` take the load's outcome as a parameter, either the templates or None.
- Also not part of this model:
  - the external editor process and the `EDITOR` variable;
  - the clipboard itself and the status `copy_rendered` sets: `App.CopyRendered` gives only the text it copies;
  - terminal setup;
  - the event loop and the key and mouse dispatch (`on_key`, `on_mouse`).
- Status messages and the double-click timer use the clock and are left out. So are the error text of a failed load and the `should_quit` and `needs_redraw` flags.
- The `rand` crate's distribution is left out. Picks are a `draws` parameter when parsing and any option when rerolling.
- `App.Reload` models only the successful reload inside `open_prompts_in_editor`.
- Drawing with ratatui is left out, apart from `inner_rect`, `ensure_visible` and the slice their callers take. As a result `field_scroll` and `list_scroll` change only through `EnsureVisible`, which no method of the model calls.
- Integer widths are left out: the model's integers are unbounded. This covers `u16` coordinates in `Rect` and `inner_rect`, the `usize`-to-`isize` casts in `move_list`, and the `usize` additions in `index_from_mouse`, none of which overflow for realistic screens and lists.
- `TreeNode` is a value with a functional `Insert`. In the source, each node owns its children, so updating a node in place and replacing it with an updated copy have the same effect.
- `Str.Lines` is stated only partly: its contract says that lines hold no `\n`. How lines relate to the text follows from its definition on `Split` and from `Str.SplitJoin`.

Three behaviours of the code that are easy to misread are modelled as the code has them:

- `trim_matches(',')` removes every leading and trailing comma of a fallback option, not just one.
- A lone final `"` (`random|a "`) opens an empty run, which gives no quoted option. The options are then the fallback words, and `"` is one of them (`Placeholder.LoneQuoteIsAnOption`).
- A quoted option may be empty (`""`). Its random choice can then be empty, and the renderer then prints the placeholder's raw text.
