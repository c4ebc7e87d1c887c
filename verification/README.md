# JSON localization editor — a Dafny model of its data logic

The editor opens a folder of JSON translation files and loads each `.json` file
as a *flat key mapping*, where a dotted key path maps to a leaf value. It shows
one table row per key, in a shared *key order*, with one column per file. The
user edits, adds, deletes and reorders rows and adds languages. On save it
rebuilds every file from the rows on screen. This project models the pure data
logic of `script.js` and proves properties of it:

- the key-path codec `flatten` / `unflatten`, with both round trips;
- `loadLanguages` and `openFolder`;
- the key gathering and row building of `renderTable`;
- `addKey`, with its placeholder and the rename listener on the key cell;
- the context-menu insert;
- `addLanguage`;
- the key-column delete;
- the ArrowUp/ArrowDown move together with `updateKeyOrderFromDOM`;
- `saveAll`'s reconstruction of each file from the rows.

JavaScript objects are insertion-ordered association lists, `seq<(string, V)>`.
The module `Assoc` provides them:

- `Put` replaces a value in place or appends a new key, as `obj[k] = v` does.
- `Delete` filters the key out.
- `UniqueKeys` is the invariant every object keeps.

The rest of the state is modelled as follows:

- JSON values are the datatype `JsonValue.Json`.
- The page state is `Store.Session`. It holds the loaded files, the key order and the rows.
- Each `Store.Row` records its bound key (`tr.dataset.key`), the text of its key cell and the texts of its value cells. It also records whether `addKey` gave it the rename listener.
- Every user action is a function from session to session.
- `Saving.Save` gives the flat map written for each file. It returns `None` when the save would throw.

Modules:

- `Wrappers`: `Option`.
- `Assoc`: ordered objects.
- `Text`: `trim`, `split(".")`, joining with `.`, and `endsWith`.
- `JsonValue`: parsed JSON and `Object.entries`.
- `KeyPath`: `flatten` and the steps of `unflatten`, with reference descriptions by leaf paths.
- `FlattenProofs`, `UnflattenProofs`, `RoundTrip`: the codec's proofs; `UnflattenProofs` also holds `unflatten` itself, whose contract draws on them.
- `Seqs`: the array operations used on the key order and on the rows.
- `Store`: the session and the user actions.
- `Saving`: `saveAll`.
- `StoreProofs`: how actions and saves interact.
- `Scenarios`: a concrete folder worked through.

### Where the code and its description disagree (the model follows the code)

- **Adding a language.** A language just added and saved with no values entered does not become the empty object. Its file gets `""` under every non-empty key of the key order (`StoreProofs.AddLanguageThenSave`). The same rule applies to every file: a row writes a value, `""` when blank, into every file, so a file that lacked a key gains it on save (`StoreProofs.RenderSave`).
- **Renaming a rendered row.** Renaming the key cell of a row that `renderTable` built with a non-empty bound key changes nothing that is saved. Such a row keeps its bound key and has no rename listener (`StoreProofs.RenderedKeyEditIgnored`). A rendered row can also be bound to `""`: an `addKey` placeholder re-rendered, for instance when a language is added. Its bound key is falsy, so a save and a move read its trimmed key text. Such a row has no rename listener either, so the key order stays as it was (`Store.EditedRowKey`). A save writes only keys the key order holds. The typed key is therefore saved only when the key order already holds it, for example after a move has recomputed the order from the rows. A new key typed there is dropped from every file (`StoreProofs.UnboundKeySaved`). Only rows made by `addKey` rename. Their rename replaces every occurrence of the old key in the key order, not one position.
- **The placeholder.** Typing the first key into an inserted row does not fill its `""` placeholder. The key is pushed at the end of the key order (`StoreProofs.InsertedThenKey`, `StoreProofs.PlaceholderThenKey`). A key not yet in the order is therefore saved after all other keys. A key already in it stays at its first position, since a save writes each key once, at its first place in the order.
- **The add-key button.** The button passes its click event as the anchor. The row is appended and then reading the event's `dataset` throws, so no placeholder is added (`StoreProofs.ButtonThenKey`).
- **Inserting from the first row.** A top-half right-click on the first row appends the new row at the end: its `previousSibling` is `null`.
- **What a delete removes.** Delete removes the key typed in the key cell (trimmed), not the row's bound key.
- **Order after a move.** A save writes each file's flat keys in the new row order (`StoreProofs.MoveThenSave`). After `unflatten`, top-level names come in the order of their first flat key. A moved row whose first name also appears in an earlier row does not change the top-level order.

## Model

| member | source | states |
|---|---|---|
| KeyPath.Flatten | script.js:37-44 | every value of the flat object is a leaf (never a plain object) and every key occurs once |
| FlattenProofs.FlattenPaths | script.js:37-44 | flattening writes exactly the leaves of the object, depth first in property order, each under its names joined with `.` (an empty prefix adds no dot) |
| FlattenProofs.LeafPathsSound | script.js:38-41 | each written leaf path leads, in the original object, to the value written for it, and that value is not a plain object |
| FlattenProofs.LeafPathsComplete | script.js:38-41 | every leaf reachable in the original object is written, with its path and value |
| FlattenProofs.LeafPathsIndependent | script.js:38-41 | no written path is a prefix of another when names are unique at every depth |
| UnflattenProofs.InsertAtSelf | script.js:48-52 | one `reduce` over a key's names leaves the key's value readable at its path when no leaf blocks the way |
| UnflattenProofs.InsertAtOther | script.js:48-52 | the `reduce` for one key leaves every path that is neither a prefix nor an extension of it reading as before |
| UnflattenProofs.InsertAtAbove | script.js:50 | every proper prefix of the written path holds an object afterwards |
| UnflattenProofs.BuildClear | script.js:47-53 | when no key's path is a proper prefix of a later key's, each key finds no leaf on its way |
| UnflattenProofs.BuildReads | script.js:45-55 | in `unflatten`'s result every key's path leads to its value when no path is a prefix of another |
| UnflattenProofs.BuildLeaves | script.js:45-55 | every leaf of `unflatten`'s result is the value of some key, at that key's path |
| UnflattenProofs.BuildWellKeyed | script.js:45-55 | `unflatten` produces objects with unique names at every depth |
| UnflattenProofs.Unflatten | script.js:45-55 | on its domain (no key's path a proper prefix of a later key's), `unflatten` of leaf values has unique names at every depth, and when no path is a prefix of another every key's value is found at its split path |
| RoundTrip.UnflattenFlatten | script.js:37-55 | `unflatten(flatten(f)) == f` for objects with unique, dot-free names at every depth, no empty nested objects and non-empty top-level names |
| RoundTrip.FlattenUnflatten | script.js:37-55 | `flatten(unflatten(m))` holds exactly the entries of `m`, each key once, when no path is a prefix of another, values are leaves and every key's first dot-separated name is non-empty (so no key is `""` or starts with `.`) |
| Text.Trim | script.js:155 | the result has no surrounding white space and is the piece of the input that only white space surrounds |
| Text.Split | script.js:48 | `split(".")` gives at least one dot-free piece, and joining the pieces with `.` gives the input back |
| Text.SplitJoin | script.js:48 | splitting the join of dot-free names gives the names back |
| JsonValue.Entries | script.js:38 | `Object.entries` fails exactly on `null` and gives an object's own properties |
| Store.Loaded | script.js:136-143 | a file contributes a flat map only when it is a `.json` file whose text parses to something other than `null`; for an object the map is `flatten` of its properties |
| Store.LoadedValue | script.js:136-143 | a file contributes exactly when it is a `.json` file whose text parses to something other than `null`. The map is `flatten` of the value's entries: the object's properties, an array's or string's indices, nothing for a number or boolean. It restates `Store.Loaded`'s two ensures as one if-and-only-if, for use as a lemma |
| Store.LoadKeys | script.js:133-146 | the loaded file names are exactly the names of entries that contribute a flat map |
| Store.Load | script.js:133-146 | each loaded name occurs once |
| Store.LoadNames | script.js:133-146 | the loaded names are those of the contributing entries, each once, in the order of its first contributing entry |
| Store.LoadGet | script.js:136-141 | the flat map under a name is `flatten` of the last contributing entry of that name, since a later file of the same name overwrites it |
| Store.AppendNew | script.js:97 | the old order is kept as a prefix, and the keys pushed are the file's keys not yet present, once each |
| Store.AppendNewOrder | script.js:97 | the keys one file pushes come in the order of their first occurrence in that file |
| Store.Reconcile | script.js:95-98 | the old key order is kept as a prefix |
| Store.ReconcileFresh | script.js:95-98 | the keys pushed after the old order are distinct and none of them was already in it |
| Store.ReconcileOrder | script.js:95-98 | the pushed keys come in the order first encountered: file by file, and within a file in its key order (their first positions in the files' concatenated key lists increase) |
| Store.ReconcileKeys | script.js:95-98 | after gathering, a key is in the order exactly when it was there before or some file has it |
| Store.RenderRow | script.js:102-116 | a rendered row is bound to its key, shows it, and has one cell per file with that file's value text, blank when the key is absent |
| Store.Render | script.js:94-118 | rows follow the gathered key order one to one and each row is the rendering of its key; files are untouched and every row has one cell per file |
| Store.OpenFolder | script.js:125-132 | opening replaces everything: files are the loaded ones, the key order has no duplicates, holds exactly the keys some file has, and lists them in the order first encountered across the files |
| Store.AddKey | script.js:179-216 | the new empty row is appended or goes right below the anchor row; the placeholder goes after the first occurrence of the anchor's key, at the end, or nowhere when the anchor is missing or is the button's click event |
| Store.ContextInsert | script.js:271-289 | a bottom-half click inserts the row right below the clicked row and a top-half click right above it, every other row keeping its order; on the first row a top-half click appends the row and a `""` placeholder; otherwise the placeholder goes after the first occurrence of the anchor row's key, or nowhere when that key is not in the key order |
| Store.EditKey | script.js:187-199 | a tracked rename replaces every occurrence of the old key and leaves none; a first key is pushed at the end; untracked rows change only their text; other rows are untouched |
| Store.Rekey | script.js:190-196 | the listener's key-order update: a changed bound key is renamed at every occurrence and none is left, a first key is pushed at the end, an unchanged key changes nothing |
| Store.EditCell | script.js:111-116 | only the edited cell changes; keys and key order stay |
| Store.DeleteEverywhere | script.js:240 | the key is gone from every file; file names and order stay |
| Store.DeleteKey | script.js:229-246 | an empty key removes only the row; an unconfirmed delete changes nothing; a confirmed one removes the row, the key's entry from every file (`delete`) and every occurrence of it from the key order (`filter`), and keeps everything else in order |
| Store.AddLanguage | script.js:221-227 | a cancelled, empty or existing name changes nothing; a new name is added as an empty file at the end and the table is re-rendered |
| Store.Move | script.js:298-318 | at the edge nothing happens; otherwise the row swaps with its neighbour and the key order becomes the rows' keys |
| Store.RowKeys | script.js:359-361 | the key order read back from the table has one key per row, in row order, each the row's bound key or else its trimmed key text |
| Store.EditedRowKey | script.js:187-199 | after a key-cell edit, a row made by `addKey` or one with no bound key is read under the trimmed new text; any other row keeps its bound key |
| Store.CellText | script.js:114 | a key the file lacks shows as a blank cell |
| Store.CellTextEntry | script.js:114 | a key the file has shows the text of its value: strings as they are, `null` blank, booleans as `true`/`false`, numbers through the number-to-text conversion, objects as `[object Object]` |
| Store.ItemsTextConcat | script.js:114 | an array shows as its elements' texts joined with commas: the join of two non-empty parts is their joins with a comma between |
| Text.TrimIdempotent | script.js:155 | trimming twice gives the same as trimming once, so a bound key the listener stored trimmed reads back unchanged |
| Seqs.IndexOf | script.js:211 | `indexOf` is absent exactly when the value is absent, and otherwise points at its first occurrence |
| Seqs.ReplaceGone | script.js:193 | after the rename map the old key is gone and its occurrences all count as the new key |
| Seqs.ReplaceBack | script.js:193 | a rename to a name not in the key order is undone by renaming back |
| Seqs.Remove | script.js:242 | the filter drops every occurrence of the key and keeps every other element with its count |
| Seqs.SwapNextTwice | script.js:302-317 | swapping neighbours twice restores the rows; a swap is a permutation |
| Saving.CollectGet | script.js:153-161 | for each file, a non-empty key has a collected value exactly when some row carries it, and it is the trimmed cell of the last such row; the empty key never has one |
| Saving.ArrangeSpec | script.js:164-168 | the written map holds the keys that are both in the key order and collected, each once, in key-order sequence, with the collected value |
| Saving.ConsistentSaves | script.js:153-160 | when every row has one cell per file, the save never meets a missing cell, so it succeeds |
| Saving.Save | script.js:147-168 | the save succeeds exactly when every keyed row has a cell for every file; it writes one map per loaded file, in file order |
| Saving.SaveSpec | script.js:147-168 | each file gets exactly the non-empty keys of the key order that some row carries, once each and in key order, each with the trimmed cell of the last row carrying it |
| StoreProofs.AddKeyConsistent | script.js:203-207 | adding a key keeps one cell per file in every row |
| StoreProofs.EditKeyConsistent | script.js:187-199 | editing a key cell keeps file names unique and one cell per file in every row |
| StoreProofs.DeleteKeyConsistent | script.js:238-243 | deleting keeps file names unique and one cell per file in every row |
| StoreProofs.AddLanguageConsistent | script.js:221-227 | adding a language keeps names unique and gives every row a cell for the new file |
| StoreProofs.MoveConsistent | script.js:298-318 | moving keeps the session consistent |
| StoreProofs.MoveUpDown | script.js:302-317 | up then down restores the rows, and the key order then mirrors them |
| StoreProofs.MoveThenSave | script.js:358-360 | after a move, every file is saved in the rows' new order |
| StoreProofs.RenderCovers | script.js:95-98 | every key of every file gets a row |
| StoreProofs.RenderSave | script.js:147-168 | saving a freshly rendered table writes every non-empty key of the key order into every file, with the trimmed text its cell shows, blank for a file that lacks the key |
| StoreProofs.RenderSaveKeeps | script.js:147-168 | opening and saving without edits keeps every string value without surrounding white space under its key |
| StoreProofs.AddLanguageThenSave | script.js:221-227 | a new language saved at once gets `""` under every non-empty key of the key order |
| StoreProofs.PlaceholderThenKey | script.js:187-216 | the first key typed into a row added at the end is pushed after that row's `""` placeholder |
| StoreProofs.ButtonThenKey | script.js:187-216 | the first key typed into a row added from the button is pushed at the end, with no placeholder before it |
| StoreProofs.InsertedThenKey | script.js:187-215 | after an insert below a row whose key is in the order, typing the first key leaves the `""` placeholder after that key and pushes the typed key at the end |
| StoreProofs.RenderedKeyEditIgnored | script.js:155 | editing the key cell of a rendered row whose bound key is non-empty leaves the key order and the save unchanged |
| StoreProofs.UnboundKeySaved | script.js:164-167 | a key typed into a rendered row bound to `""` is saved in a file exactly when it is non-empty and already in the key order. The row has no rename listener (script.js:187-199), so a new key is dropped from every file |
| StoreProofs.SameRowsSave | script.js:153-161 | a save reads each row only through its key and its cells |
| StoreProofs.EditCellThenSave | script.js:157-159 | a value typed into the last row carrying a key is what the save writes for that key |
| StoreProofs.DeleteKeepsOrder | script.js:242 | a confirmed delete takes the key's one occurrence out of the key order, and the other keys keep their relative order |
| StoreProofs.DeleteKeepsEntries | script.js:240 | a confirmed delete takes the key's one entry out of each file that has it, and the other entries keep their order |
| Seqs.RemoveOne | script.js:242 | the filter takes out an element that occurs once, and keeps the elements before and after it in order |
| StoreProofs.DeleteThenSave | script.js:238-243 | after a confirmed delete no saved file has the deleted key |
| StoreProofs.DeleteKeepsOthers | script.js:240 | a confirmed delete leaves every other key of every file as it was |
| StoreProofs.AddThenDelete | script.js:236-237 | deleting a just-added row with an empty key cell removes it without asking and restores the rows; the `""` placeholder stays in the key order |
| StoreProofs.SavedStrings | script.js:158-159 | every saved value is a string |
| StoreProofs.SaveThenReopen | script.js:164-169 | reopening a saved file gives back the saved flat map, up to order, when no saved key's path is a prefix of another's and no saved key starts with `.` |
| Scenarios.OpenFolderExample | script.js:125-132 | opening `a.json = {"x":{"y":"1"}}` and `b.json = {"x":{"y":"2"},"z":"3"}` gives the key order `x.y`, `z` and the cells `1`/`2` and blank/`3` |

## Left out

- Browser and file-system I/O is not modelled: the folder picker, permissions, `localStorage`, reading and writing files. A folder is a list of entries whose text is already parsed (`None` for text that is not JSON). A save ends with the flat map for each file; `unflatten` is modelled on its own, and the step from a saved map to `unflatten` of it is stated by `StoreProofs.SaveThenReopen`.
- JSON text is not modelled: parsing, and `JSON.stringify` with two-space indentation. Numbers are mathematical reals; their display text is the parameter `numText`.
- Order of integer-like keys: JavaScript lists such object keys first, in numeric order. The model keeps insertion order for every key.
- Prototype keys: `in`, `||` and property reads on names such as `__proto__` or `constructor` are not modelled.
- Strings are sequences of code points. UTF-16 surrogate pairs in `Object.entries` of a string file are not modelled.
- Presentation is not modelled: column resizing, the status toast, header cells, row selection and deselection, and the `enableDragAndDrop` call (which `script.js` never defines, and which comes after every data effect).
- Headers: file names shown in editable header cells are never read back, so header edits are left out.
- Row selection: the selected row of a move is a parameter.
- Dialogs: the `confirm` answer of a delete and the `prompt` answer of an add-language are parameters.
- Re-entrant saves are left out: writes are not modelled.
- Actions interleaved with an in-flight load or save are not modelled: each operation is one atomic step. `saveAll` re-reads `keyOrder` for each file after awaiting the previous file's write, so a move, rename or delete handled during a save reaches only the later files. `Saving.Save` reads one key order for all files. `loadLanguages` sets `languages = {}` before its awaits, so an action taken while a folder loads sees only part of the files. `Store.Load` gives only the finished result.
- UnflattenProofs.Unflatten: inputs where one key's path is a proper prefix of a later key's are excluded by its precondition. There the earlier key's leaf lies on the later key's path, and JavaScript's `acc[part] || {}` meets it. A falsy leaf is replaced by `{}`. An array leaf is returned as it is, so the later writes land on the array as properties; an index-like name such as the `0` of `a.0` replaces or adds an element. A truthy primitive leaf makes the later writes be dropped, or throw a `TypeError` in strict mode or one level further down.
- KeyPath.Insert: a write that meets a leaf on the way returns the object unchanged. This branch is outside `Unflatten`'s domain.
- Store.EditKey: models one `input` event carrying the full new text. Intermediate keystrokes are separate calls.
