# Featured tiles: editor and page loader

This project models the two halves of the site's "featured tiles" feature in Dafny.

- **The admin editor** (`admin/featured-manager.js`) is a state machine over nine tile records with ids `T1`..`T9`. It also holds the last imported document (`importedData`) and one local-storage slot (`dickson_featured_draft`). The model covers:
  - the per-field edits;
  - the image attach, drop and clear handlers;
  - import (`handleImport` and `populateFromData`), reset (`resetToImported`) and clear (`clearDraft`);
  - the draft's save and load;
  - export: building the public `featured.json` document, choosing which tiles go into `featured-images.zip`, and naming each zip entry.
- **The page loader** (`featured-loader.js`) fetches `featured.json` and projects it onto the product cards. Card `i` takes the data of tile `T(i+1)`, found through a map built from the document's `tiles` array.

Modules:

| module | file | content |
|---|---|---|
| `Text` | text.dfy | decimal numerals, used in tile ids; `split('.').pop()` |
| `Json` | json.dfy | parsed JSON as the code sees it: a document, its `tiles` elements, each either `null` or a record of optional string fields |
| `Tiles` | tiles.dfy | the tile record, ids, the initial nine tiles, `tiles.find` |
| `Entries` | entries.dfy | the loop shared by the merge and the draft load: `forEach` over the elements, find the tile by id, update it. A `null` element throws and leaves the earlier updates applied |
| `Merge` | merge.dfy | `populateFromData` and its defaulting rule |
| `Persistence` | persistence.dfy | `saveToLocalStorage` and `loadFromLocalStorage` |
| `Export` | export.dfy | `exportData` and the entry naming of `createImageZip` |
| `Editor` | editor.dfy | the editor state `(tiles, importedData, storage slot)`, one transition per user action, and lemmas about runs of actions |
| `Loader` | loader.dfy | `loadFeaturedTiles`: the id map and the per-card overwrite rules |

Parsing is abstract:

- A text either parses to a `Document` or is `Malformed`.
- A document is either falsy (`null`, `false`, `0`, `""`) or truthy. A truthy document either has a `tiles` array or does not. The second case covers every truthy value whose `tiles` is missing or is not an array, such as `[]`, `1` or `{"tiles": "x"}`. On those, `tiles.forEach` throws before any element is read.
- Each array element is `null` or a record.
- A record field is `None` when it is absent or null.

Exceptions raised by the code's `forEach` loops appear as an outcome flag. The model keeps the partial effect of the loop, as the code does.

In three places the code does less than one might expect. The model follows the code.

- **Clear keeps local paths.** `clearDraft` (admin/featured-manager.js:311-319) resets every field except `localImage`, which it keeps. It also removes the stored draft and does not write it again. `Editor.ClearRestoresDefaultsIff` proves exactly when the result equals the creation state.
- **Exported paths keep `.jpg`.** The exported `localImage` is never rewritten from the upload (admin/featured-manager.js:390, 432-433). A fresh tile with `bowl.png` attached exports `localImage = images/featured/T1.jpg`, while its archive entry is `images/featured/T1.png`. `Editor.SilverBowlExport` proves what the code produces, and `Export.DefaultPathMatchesEntryIffJpg` shows that the two agree only for `.jpg` uploads.
- **Failures are not all-or-nothing.** A stored draft that does not parse is only logged, with no status message. A draft or imported document whose `tiles` array holds a `null` is applied up to that element (admin/featured-manager.js:250-252, 355-356). An import whose merge throws has already replaced `importedData` (line 237).

## Model

| member | source | states |
|---|---|---|
| `Text.Decimal` | admin/featured-manager.js:26 | the numeral of `n` in a tile id is a non-empty string of digits, one digit exactly when `n < 10` |
| `Text.DecimalRoundTrip` | admin/featured-manager.js:26 | reading the numeral back gives `n`, so the rendering loses nothing |
| `Text.DecimalInjective` | admin/featured-manager.js:26 | two numbers have the same numeral exactly when they are equal |
| `Text.AfterLastDot` | admin/featured-manager.js:432 | `split('.').pop()` returns a dot-free suffix of the name, preceded by a dot when it is not the whole name |
| `Text.AfterLastDotOfDotted` | admin/featured-manager.js:432 | a name `stem.ext` gives `ext`, however many dots the stem has |
| `Text.AfterLastDotOfUndotted` | admin/featured-manager.js:432 | a name without a dot gives the whole name |
| `Json.Prefix` | admin/featured-manager.js:250-252 | the elements a `forEach` reaches before reading `.id` of a `null` throws: a prefix with no `null`, followed by a `null` when it is not the whole array |
| `Json.Matches` | admin/featured-manager.js:251 | the records carrying a given id: an entry is listed exactly when it is a record in the array with that id |
| `Json.MatchesSingle` | admin/featured-manager.js:251 | when only one element carries the id, it is the only match |
| `Tiles.TileIdInjective` | admin/featured-manager.js:25-26 | `T${n}` names differ for different `n`, in both directions |
| `Tiles.InitialTiles` | admin/featured-manager.js:22-38 | nine tiles in order with ids `T1`..`T9`; empty title, price, url and remote image; mode `local`; local image `images/featured/{id}.jpg`; no file and no preview |
| `Tiles.WellFormedDistinct` | admin/featured-manager.js:25-26 | the nine ids are pairwise distinct |
| `Tiles.IndexOf` | admin/featured-manager.js:251 | `tiles.find` by id: the first tile with the id, or none exactly when no tile has it |
| `Tiles.IndexOfDistinct` | admin/featured-manager.js:251 | with distinct ids, each tile is found at its own position |
| `Entries.Overwrite` | admin/featured-manager.js:254-259 | one merge step never changes the tile's id, file or preview |
| `Entries.AssignFields` | admin/featured-manager.js:359 | one `Object.assign` of a draft element copies every persisted key the element carries and keeps the tile's value for every key it lacks; the id and file never change |
| `Entries.ApplyEntry` | admin/featured-manager.js:251-252 | one element changes at most the tile with its id; ids and files are kept everywhere |
| `Entries.ApplyItems` | admin/featured-manager.js:250-262 | the loop keeps ids, count and files, and the merge keeps previews; it runs to the end exactly when no element is `null` |
| `Entries.ApplyDocument` | admin/featured-manager.js:250 | a falsy document, or one without `tiles`, throws before any tile changes |
| `Entries.ApplyEntryAt` | admin/featured-manager.js:251-252 | with distinct ids, the tile at `k` is updated exactly when the element carries its id |
| `Entries.ApplyItemsPointwise` | admin/featured-manager.js:250-262 | each tile ends as its own elements applied in document order; no other element affects it |
| `Entries.ApplyItemsAppend` | admin/featured-manager.js:250-262 | running `a + b` is running `a` then `b`, except that a throw in `a` ends the loop |
| `Merge.Populate` | admin/featured-manager.js:249-263 | the merge keeps ids, count, files and previews, completes exactly when the array has no `null`, and changes nothing when `tiles` is missing |
| `Merge.LastMatch` | admin/featured-manager.js:250-251 | the last visited element carrying the id, or none exactly when no visited element carries it |
| `Merge.OverwriteFields` | admin/featured-manager.js:254-259 | each field takes the entry's non-empty value, else `''`; mode defaults to `local` and the local image to `images/featured/{id}.jpg` |
| `Merge.OverwriteIgnoresPriorFields` | admin/featured-manager.js:254-259 | a merged tile does not depend on the public fields it had before |
| `Merge.OverwriteAbsorbs` | admin/featured-manager.js:254-259 | a second entry for the same tile replaces everything the first one wrote |
| `Merge.FoldMergeIsLast` | admin/featured-manager.js:250-259 | merging several entries into one tile equals merging only the last of them |
| `Merge.PopulatePointwise` | admin/featured-manager.js:249-263 | each tile ends merged with the last visited entry carrying its id, so a later duplicate wins; a tile with no entry is unchanged |
| `Merge.PopulateIdempotent` | admin/featured-manager.js:249-263 | merging the same document twice equals merging it once, including when it throws |
| `Merge.PopulateForgetsEdits` | admin/featured-manager.js:249-263 | tiles that differ only in the public fields of tiles the document covers merge to the same result |
| `Merge.UnknownEntrySkipped` | admin/featured-manager.js:251-252 | an entry whose id names no tile can be removed from the document without changing the merge |
| `Persistence.Save` | admin/featured-manager.js:331-346 | the stored draft lists every tile in order with id, title, price, url, mode, local image, remote image and preview, and no file |
| `Persistence.Load` | admin/featured-manager.js:349-376 | an absent or unparsable draft changes nothing; ids, count and files are kept; the load is announced exactly when the whole array is applied |
| `Persistence.LoadPointwise` | admin/featured-manager.js:353-359 | for any parsed draft, each tile is matched by id and takes, one `Object.assign` after another, exactly the elements carrying its id that the loop visits before any `null`, in document order; unknown ids touch nothing |
| `Persistence.LoadStopsAtNull` | admin/featured-manager.js:355-376 | a `null` element ends the load without announcing it: the elements before it stay applied and none after it is applied |
| `Persistence.LoadAfterSave` | admin/featured-manager.js:331-376 | loading a saved draft restores every persisted field of every tile and keeps each tile's current file |
| `Persistence.LoadAfterSaveIdentity` | admin/featured-manager.js:331-376 | a save followed by a load changes nothing |
| `Persistence.SaveIgnoresFiles` | admin/featured-manager.js:334-343 | tiles that differ only in their files save the same draft |
| `Export.ExportDocument` | admin/featured-manager.js:382-393 | the document lists every tile in order with its id and exactly its six public fields, and no preview |
| `Export.ZipIndices` | admin/featured-manager.js:399 | the positions chosen for the zip increase strictly and are exactly the tiles in local mode with a file attached |
| `Export.Archive` | admin/featured-manager.js:399-402 | no zip exactly when no tile qualifies; otherwise between one entry and one per tile |
| `Export.ArchiveEntriesQualify` | admin/featured-manager.js:429-436 | every zip entry is made from a tile in local mode with a file attached |
| `Export.ArchiveInTileOrder` | admin/featured-manager.js:429-437 | the zip holds one entry per qualifying tile, in tile order |
| `Export.ZipEntryNaming` | admin/featured-manager.js:432-433 | an upload `stem.ext` is stored as `{id}.ext`; one with no dot uses its whole name as the extension |
| `Export.DefaultPathMatchesEntryIffJpg` | admin/featured-manager.js:432-433 | a tile on its default local path points at its zip entry exactly when the upload's extension is `jpg` |
| `Export.ExportThenImport` | admin/featured-manager.js:382-393 | importing an exported document restores every public field (when no mode or local path is empty) and keeps files and previews |
| `Export.ImportThenExport` | admin/featured-manager.js:382-393 | exporting right after importing a complete canonical document gives that document back |
| `Editor.Init` | admin/featured-manager.js:14-19 | startup gives the nine tiles, no imported document, no files and the ready message; with nothing stored or an unparsable draft (only logged), the tiles are the initial ones |
| `Editor.SetText` | admin/featured-manager.js:114-132 | a text input changes only its own field of its own tile, then saves |
| `Editor.SetMode` | admin/featured-manager.js:137-153 | a mode button changes only that tile's mode, keeping the other mode's values, then saves |
| `Editor.PickFile` | admin/featured-manager.js:167-170 | a chosen file is attached to its tile only, without a save, and the stored draft still matches the tiles; choosing nothing changes nothing |
| `Editor.DropFile` | admin/featured-manager.js:182-189 | a dropped file is attached exactly when its type starts with `image/` |
| `Editor.PreviewReady` | admin/featured-manager.js:206-212 | the finished read sets only that tile's preview, then saves |
| `Editor.ClearImage` | admin/featured-manager.js:192-198 | clear-image removes only that tile's file and preview, then saves |
| `Editor.Import` | admin/featured-manager.js:229-246 | no file: no change. Unparsable text: error, no change. Parsed: `importedData` replaced and the merge applied; saved and reported only when the merge completes |
| `Editor.Reset` | admin/featured-manager.js:296-304 | without an imported document: error, no change. Otherwise the merge of that document, saved and reported when it completes, with no message when it throws |
| `Editor.Clear` | admin/featured-manager.js:307-328 | unconfirmed: no change. Confirmed: draft removed, `importedData` kept, every tile back to its creation values except its local image |
| `Editor.ExportDraft` | admin/featured-manager.js:379-411 | the document always; the zip is exactly the archive of the qualifying tiles (local mode with a file), built exactly when some tile qualifies, with a message counting its entries |
| `Editor.Handle` | admin/featured-manager.js:217-226 | no action changes the tile count or any tile's id |
| `Editor.Run` | admin/featured-manager.js:21-43 | after any sequence of actions there are exactly the nine tiles `T1`..`T9`, in order |
| `Editor.FreshStart` | admin/featured-manager.js:14-38 | a fresh editor with nothing stored shows the nine default tiles |
| `Editor.InitFromDraft` | admin/featured-manager.js:14-38 | startup with a parsed draft gives each default tile exactly the draft elements carrying its id, applied by `Object.assign` in document order up to the first `null` |
| `Editor.ReloadRestoresDraft` | admin/featured-manager.js:349-376 | reloading after any saved state restores every persisted field; only attached files are lost |
| `Editor.ResetWithoutImport` | admin/featured-manager.js:297-300 | reset before any import reports an error and changes nothing |
| `Editor.ResetIdempotent` | admin/featured-manager.js:296-304 | pressing reset twice equals pressing it once |
| `Editor.ResetRestoresImport` | admin/featured-manager.js:296-304 | after a successful import, reset undoes any edits to merged fields of covered tiles and rewrites the same draft |
| `Editor.ResetAfterImport` | admin/featured-manager.js:296-304 | reset right after a successful import changes nothing |
| `Editor.ResetUndoesTextEdit` | admin/featured-manager.js:296-304 | retyping a field of a covered tile and then resetting gives back the imported state |
| `Editor.ResetUndoesModeEdit` | admin/featured-manager.js:296-304 | toggling a covered tile's mode and then resetting gives back the imported state |
| `Editor.ClearIdempotent` | admin/featured-manager.js:307-328 | clearing twice equals clearing once |
| `Editor.ReloadAfterClear` | admin/featured-manager.js:310 | after a clear, a reload starts from the initial tiles |
| `Editor.ClearRestoresDefaultsIff` | admin/featured-manager.js:311-318 | clear yields the creation state exactly when every local path is still its default |
| `Editor.SilverBowlExport` | admin/featured-manager.js:379-438 | fresh editor, T1 set to "Silver Bowl", "$200", local mode and `bowl.png`, then export: the document has `images/featured/T1.jpg`, the zip has `images/featured/T1.png`, and the message counts one image |
| `Loader.Collect` | featured-loader.js:30-33 | building the id map completes exactly when no element is `null` |
| `Loader.CollectLookup` | featured-loader.js:30-33 | for any id a card can ask for, the map holds the last element with that id, and only ids some element carries |
| `Loader.ImageSource` | featured-loader.js:62-66 | remote mode with a non-empty remote URL uses it; local mode with a non-empty local path uses that; otherwise the source is kept |
| `Loader.ProjectCard` | featured-loader.js:46-90 | the image loses its placeholder, gets an `img` with the chosen source, the title as alt and `display: block`; title, price and link change only for non-empty values, and the link opens in a new tab with `noopener noreferrer` |
| `Loader.LoadFeatured` | featured-loader.js:10-97 | the cards keep their number; a failed fetch, an unparsable body, a missing grid, a missing `tiles` array or a `null` element (the map build throws before any card is touched) leaves every card unchanged |
| `Loader.LoadFeaturedPointwise` | featured-loader.js:36-43 | card `i` depends only on itself and the elements with id `T(i+1)`: it is unchanged when there are none, otherwise projected with the last one |
| `Loader.ProjectCardIdempotent` | featured-loader.js:45-90 | projecting the same tile twice equals projecting it once |
| `Loader.LoadFeaturedIdempotent` | featured-loader.js:10-91 | running the loader twice on the same response equals running it once |
| `Loader.LoadExported` | featured-loader.js:36-43 | on a document the editor exported, each of the first nine cards takes its own tile's public fields and every later card is left alone |

## Left out

- Rendering is not modelled. This covers the DOM structure (`createTileEditor`), `updateEditorUI`, showing and hiding previews, and the mode buttons' CSS classes. None of them changes tile state.
- `FileReader` is not modelled. The file read is split into `PickFile`, which attaches the file, and `PreviewReady`, which delivers the data URL later. The data URL is an opaque string.
- `JSON.parse` and `JSON.stringify` are abstracted as described above. Only string-valued fields are modelled: a number, boolean, object or array in a field is treated like an absent one.
- Timestamps are not modelled. The draft's `timestamp` and the document's `updatedAt` come from the clock.
- JSZip, `Blob`, `URL.createObjectURL` and the anchor-click downloads are out. Only the two artifacts and the zip's entries are modelled. The error status when a download or zip build fails is also out.
- `localStorage.setItem` failures (quota exceeded, a real risk because the draft holds data-URL previews) are out. Only `handleImport` catches them (admin/featured-manager.js:235-243). It then shows the import error after `importedData` has been replaced and the merge applied. The edit handlers, the preview callback and `resetToImported` do not catch them. The model treats every save as successful.
- `showStatus` timers are out. The model keeps only the message kind a transition shows.
- The `confirm` dialog is a boolean parameter.
- The "draft loaded" message is out, because `init` replaces it at once with the ready message.
- `fetch` and the network are out. The page loader receives a response parameter that either failed or carries a body that may not parse.
- Races between overlapping uploads, imports, reads and exports are out. The model is sequential.
- script.js, showcase-loader.js and instagram-loader.js are not part of this model. They are navigation UI, network fetches and DOM building, with no shared state.
- Persistence.Load: a hand-edited draft is not fully modelled. Extra keys copied by `Object.assign`, including an `imageFile` key, are not modelled, and neither are `null` text fields. Drafts written by `saveToLocalStorage` have neither.
- Loader.ProjectCard: a `null` title gives the alt text "null" in the code, but the model treats it like a missing title ("undefined").
- Loader.Collect: the map is modelled as a plain map. Effects of special property names such as `__proto__` on the page's plain object are not modelled.
