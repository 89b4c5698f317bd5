# Arc bookmarks: bookmark store and Arc sidebar import

This project models the core of the `vscode-arc-bookmarks` extension in Dafny:

- **Sidebar flattening** (`ArcSidebar`). It starts from the item array of Arc's
  sidebar file, already decoded. Each entry is a bare string or a `value`
  object whose fields may all be missing. Pass 1 builds the folder-id → title
  map. Pass 2 emits one bookmark for each entry that has a usable URL and a
  usable name, and finds its folder with a one-hop lookup of `parentID`.
  `ReadArcBookmarks` keeps the two loops of the source and is proved equal to
  the specification `Parse`. JavaScript truthiness is written out, and so is
  the `?? ''` default that makes a missing `id` or `parentID` the key `""`.
- **Import reconciliation** (`Reconcile`). `Candidates` keeps the Arc
  bookmarks whose URL no stored bookmark has. `Select` gives what the
  multi-select picker returns. `Merge` appends the picked bookmarks to the
  stored list.
- **Bookmark store** (`Store`). A class over the single global-state key. It
  is read with a default of `[]` and replaced whole on every save.
- **Command logic** (`Commands`). Add, remove, edit and sync, each as a
  method that takes the store. Each method says exactly what the store holds
  afterwards, and each keeps the invariant that every stored bookmark has a
  non-empty name and URL.

`Parse` is a function, so the same items always give the same list.

A folder without an `id` is stored under the key `""` (src/extension.ts:55).
A tab without `parentID` (src/extension.ts:16) looks up `""`
(src/extension.ts:68), so it is filed under that folder;
`ArcSidebar.ExampleMissingIds` shows this.

## Model

| member | source | states |
|---|---|---|
| ArcSidebar.ReadArcBookmarks | src/extension.ts:47-72 | the two loops return exactly `Parse(items)`; every bookmark has a non-empty name and URL; there are no more bookmarks than items |
| ArcSidebar.Parse | src/extension.ts:47-72 | the parse result is usable bookmarks, at most one per item, and empty for an empty (missing) item array |
| ArcSidebar.FolderNames | src/extension.ts:50-57 | every title in the folder-name map is non-empty, so a resolved folder is never empty |
| ArcSidebar.EntryBookmark | src/extension.ts:59-69 | an entry yields a bookmark exactly when it has a `value`, a non-empty `tab.savedURL` and a non-empty chosen name; that bookmark is usable |
| ArcSidebar.Flatten | src/extension.ts:59-72 | pass 2 emits at most one bookmark per item, and all of them are usable |
| ArcSidebar.FlattenConcat | src/extension.ts:60-70 | pass 2 keeps input order: the output for `a + b` is the output for `a` followed by the output for `b` |
| ArcSidebar.FlattenMembers | src/extension.ts:60-70 | a bookmark is emitted exactly when some item yields it |
| ArcSidebar.Register | src/extension.ts:50-57 | pass 1 from a given map; a map whose titles are all non-empty keeps them non-empty |
| ArcSidebar.RegisterConcat | src/extension.ts:50-57 | pass 1 over `a + b` is pass 1 over `b`, started from the map that `a` built |
| ArcSidebar.SkippedEntryIgnored | src/extension.ts:51-70 | inserting anywhere in the items an entry that is neither a folder nor a bookmark (a bare string, an entry without `value`, or a `value` that is not a folder and has no usable URL or name) leaves the parse result unchanged |
| ArcSidebar.FolderNamesSpec | src/extension.ts:50-57 | a key is in the folder map exactly when some folder item (non-empty `childrenIds`, no tab, non-empty title) has that id, with `""` for a missing id; its title is the one of the last such item |
| ArcSidebar.EntryFolder | src/extension.ts:50-68 | an emitted bookmark has a folder exactly when some folder's id key equals the item's parent key (`""` when absent on either side), and it is that last folder's title; otherwise the folder is undefined |
| ArcSidebar.EntryName | src/extension.ts:63-66 | the URL is `tab.savedURL`; the name is `title` when it is non-empty, else `tab.savedTitle` |
| ArcSidebar.ExampleFolderAndTab | src/extension.ts:47-72 | folder `f1` "Dev" plus a tab with empty title, parent `f1` and saved title "Go" parse to `[{Go, https://go.dev, Dev}]` |
| ArcSidebar.ExampleMissingIds | src/extension.ts:55-68 | a tab without `parentID` is filed under a titled folder that has no `id` |
| Reconcile.Candidates | src/extension.ts:249-253 | every candidate is an Arc bookmark whose URL is not among the stored URLs; there are no more candidates than Arc bookmarks |
| Reconcile.CandidatesMembers | src/extension.ts:249-253 | a bookmark is a candidate exactly when it is in the Arc list and its URL differs from every stored bookmark's URL |
| Reconcile.CandidatesConcat | src/extension.ts:252-253 | the filter keeps Arc order |
| Reconcile.CandidatesAllNew | src/extension.ts:249-253 | when no Arc URL is stored, every Arc bookmark is offered |
| Reconcile.CandidatesNoneNew | src/extension.ts:249-265 | when every Arc URL is already stored, nothing is offered (the "already synced" case) |
| Reconcile.SyncIdempotent | src/extension.ts:248-276 | after importing every candidate, a second sync offers nothing |
| Reconcile.Merge | src/extension.ts:275 | the result is the stored list followed by the picked bookmarks, with no dedup |
| Reconcile.MergeWellFormed | src/extension.ts:274-276 | merging usable bookmarks into a usable list gives a usable list |
| Reconcile.Select | src/extension.ts:267-274 | the picker returns only candidates, and no more of them than there are candidates |
| Reconcile.SelectMembers | src/extension.ts:267-274 | a bookmark is picked exactly when it stands at a ticked position |
| Reconcile.SelectAll | src/extension.ts:258-274 | with every position ticked (the pre-ticked default), the whole candidate list is imported |
| Reconcile.ExampleCandidates | src/extension.ts:248-253 | with `A` at `https://a.com` stored, Arc's `A2` at the same URL is dropped and `B` is kept |
| Store.BookmarkStore.constructor | src/extension.ts:33-35 | before the first save, the list is read as `[]` |
| Store.BookmarkStore.Get | src/extension.ts:33-35 | the saved list, or `[]` before any save |
| Store.BookmarkStore.Save | src/extension.ts:37-39 | a save replaces the whole list |
| Commands.RemovedAt | src/extension.ts:190 | removal gives length n−1; entries before `i` stay in place and entries after it shift down by one |
| Commands.RemovedAtMultiset | src/extension.ts:190 | removal takes out exactly one occurrence of the entry at `i` and nothing else |
| Commands.RemovedAtWellFormed | src/extension.ts:190 | removal keeps a usable list usable |
| Commands.Edited | src/extension.ts:233 | entry `i` becomes `{newName, newUrl, old folder}`; every other entry and the length are unchanged |
| Commands.EditedWellFormed | src/extension.ts:225-233 | an edit with a non-empty name and URL keeps a usable list usable |
| Commands.Add | src/extension.ts:144-168 | the store gains exactly one `{name, url}` with no folder, at the end, if and only if both inputs are non-empty; otherwise it is untouched |
| Commands.Remove | src/extension.ts:173-194 | the outcome is "no bookmarks" for an empty list, "cancelled" without a pick, and otherwise the saved list is `RemovedAt` at the picked index; the store is untouched unless saved |
| Commands.Edit | src/extension.ts:199-236 | the outcome is "no bookmarks", "cancelled" (no pick, empty URL or empty name), or the saved list is `Edited` at the picked index; the store is untouched unless saved |
| Commands.Sync | src/extension.ts:241-279 | the outcomes "no Arc bookmarks", "all synced", "nothing picked" and "imported n" are kept apart; an import saves the stored list merged with the picked candidates; the store changes only on an import; imported URLs were not stored before; usability is preserved |

## Left out

- Reading and decoding the sidebar file (`fs.existsSync`, `readFileSync`, `JSON.parse`, the macOS path): the model starts from the decoded item array. A missing file or missing `sidebarSyncState.items` is the empty sequence. Entries are typed by the source's `ArcSidebarItem` shape; JSON values of other types in those fields are not modelled.
- The source throws on a `null` entry in `items` (src/extension.ts:52, where `item.value` is read from `null`) and on malformed JSON (src/extension.ts:46); the sync command then fails instead of reporting that no bookmarks were found. Neither case is modelled.
- `context.globalState` persistence and its asynchronous `Thenable`: modelled as one field that is replaced whole.
- All VS Code UI: picker and input-box labels and separators, information and warning messages, `executeCommand`, and the open command with its quick actions and clipboard prefix check. The store is reached only through the add, remove, edit and sync logic.
- URL validity through `new URL(v)` on add and edit, and the default name taken from the URL's hostname: both belong to the WHATWG URL parser, which is not part of this model. The add and edit methods take whatever non-empty URL and name the input boxes return.
- Commands.Add: the model keeps only the "non-empty" half of the guard. The URL is not also checked for validity, for the reason above.
- Commands.Edit: the same as for Commands.Add; the new URL is only required to be non-empty.
- Reconcile.Select: the multi-select picker is modelled as returning the ticked candidates in list order. Its real order is up to VS Code.
