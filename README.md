# wasibase notes core in Dafny

wasibase is a command-line note collection. Notes are Markdown files kept in
a three-level directory tree: category (Oberkategorie), subcategory
(Unterkategorie) and note file `<Thema>.md`. This project models the core of
that system and proves properties of the model. The core covers:

- the storage module: listing, reading, writing and deleting in the tree;
  the traversal of all notes; statistics; search with a preview around the
  match; backup and restore; the sync-path setting;
- the text utilities: HTML escaping, backlink extraction, frontmatter
  stripping and the plain-text preview;
- the graph builder: category, subcategory and note nodes; hierarchy edges;
  backlink edges from `[[title]]` references, matched by lower-cased title;
- the editor servers' handlers: `/save`, `/autosave` and `/search`, and the
  text and escaping of the edit page;
- two helpers of the terminal menus: the per-category note count and the
  note picker with its filter.

The directory tree is a value, `Corpus.Tree`. It has category directories,
subcategory directories inside them, and the plain files beside them. The
plain files matter because every listing keeps directories only, and because
a path that runs through a plain file makes the file system throw (ENOTDIR).
That error is the `Failure(NotADirectory)` of the model.

Read-only operations take the tree as a parameter. The operations that change
the disk are methods of the class `Storage.Store`, whose fields are the tree
and the configuration map.

The source's three nested `for` loops are Dafny methods with `while` loops.
This covers getAllNotes, getStats, the graph builder and the picker. Each
method is proved equal to a recursive specification function, and the lemmas
are about those functions.

Modules, one per file: `Wrappers`, `Text`, `Order`, `Corpus`, `Storage`,
`Links`, `Utils`, `GraphServer`, `Server`, `Manage` and `NotePicker`.

## Model

| member | source | states |
|---|---|---|
| Order.SortedNames | src/storage.js:25-28 | A name listing is strictly sorted, has exactly the given names and no repeats |
| Order.SortedListingUnique | src/storage.js:28 | Two strictly sorted listings with the same members are equal, so each listing is determined by its set of names |
| Corpus.Oberkategorien | src/storage.js:23-29 | Sorted; lists exactly the directories at the root, not the plain files |
| Corpus.Unterkategorien | src/storage.js:31-38 | Sorted; lists exactly the subdirectories of the category, and nothing when the category does not exist |
| Corpus.GetUnterkategorien | src/storage.js:31-38 | Throws exactly when the category name is a plain file; otherwise returns the listing |
| Corpus.Titles | src/storage.js:73-74 | A title is listed iff its `.md` file is in the folder (of the corrected title listing; see "Left out") |
| Corpus.Notes | src/storage.js:70-77 | Sorted; a title is listed iff reading that note succeeds (of the corrected title listing; see "Left out") |
| Corpus.GetNotes | src/storage.js:70-77 | Throws exactly when the subcategory name is a plain file; otherwise returns the sorted titles |
| Corpus.ListedSubcategoryIsDirectory | src/storage.js:115-116 | Listing the notes of a listed subcategory never throws |
| Corpus.NoteFileInjective | src/storage.js:79-81 | Different titles have different note file names |
| Corpus.TitleRoundTrip | src/storage.js:74-75 | The corrected listing gives back every title from its file name |
| Corpus.AsWrittenTitleMismatch | src/storage.js:75 | As written, the file of title `x.mdy` is listed as `xy.md`, which names a different file |
| Corpus.AsWrittenAgreesWithoutMd | src/storage.js:75 | As written, a title without `.md` inside it is listed correctly |
| Corpus.AsWrittenTitlesCollide | src/storage.js:75 | As written, the different files of titles `x.mdy` and `xy.md` (`x.mdy.md` and `xy.md.md`) both list as `xy.md` |
| Corpus.AsWrittenListingAgrees | src/storage.js:73-75 | When no note file has `.md` inside its stem, the as-written listing gives each file its trailing-extension title and lists exactly the titles of the model |
| Corpus.MakeCategory | src/storage.js:40-44 | Keeps the tree well formed; the category then exists unless a file holds its name; creating an existing one changes nothing |
| Corpus.MakeSubcategory | src/storage.js:46-50 | Fails exactly when the category name is a file; otherwise the subcategory exists afterwards unless a file holds its name |
| Corpus.PutNote | src/storage.js:93-99 | Fails exactly when a path component is a plain file; keeps the tree well formed |
| Corpus.ReadAfterPut | src/storage.js:93-99 | After a save, that note reads back its content and every other note reads as before |
| Corpus.PutNoteListed | src/storage.js:93-99 | After a save, the category, subcategory and title are all listed |
| Corpus.PutNoteAfterMakeSubcategory | src/web/server.js:39-41 | Creating both directories first and then saving equals saving alone |
| Corpus.PutNoteIntoNewCategory | src/web/server.js:39-41 | The same, for a category that did not exist |
| Corpus.PutNoteIntoNewSubcategory | src/web/server.js:39-41 | The same, for a new subcategory of an existing category |
| Corpus.RemoveNote | src/storage.js:101-106 | Deleting a note keeps the tree well formed |
| Corpus.ReadAfterRemoveNote | src/storage.js:101-106 | After a delete, that note reads as missing and every other note reads as before |
| Corpus.RemoveCategory | src/storage.js:52-57 | The category name is gone afterwards; the tree stays well formed |
| Corpus.ReadAfterRemoveCategory | src/storage.js:52-57 | Every note of the category is gone and every other note is unchanged |
| Corpus.RemoveSubcategory | src/storage.js:59-64 | The subcategory name is gone afterwards; the tree stays well formed |
| Corpus.ReadAfterRemoveSubcategory | src/storage.js:59-64 | Every note of the subcategory is gone and every other note is unchanged |
| Corpus.RemoveAbsentUnchanged | src/storage.js:54-63 | Deleting a note, category or subcategory that does not exist leaves the tree exactly as it was |
| Corpus.ReadAfterMakeSubcategory | src/storage.js:40-50 | Creating directories changes no note |
| Corpus.AllNotesMembers | src/storage.js:111-123 | A note is in the traversal iff reading it succeeds (of the corrected title listing; see "Left out") |
| Corpus.AllNotesOrdered | src/storage.js:114-118 | The traversal is ordered by category, then subcategory, then title, and has no duplicates (of the corrected title listing; see "Left out") |
| Corpus.NoteCountIsLength | src/storage.js:136-138 | Summing the note counts of a category's subcategories gives the number of its notes in the traversal |
| Storage.Store.CreateOberkategorie | src/storage.js:40-44 | The new tree is that of MakeCategory; the configuration is unchanged |
| Storage.Store.CreateUnterkategorie | src/storage.js:46-50 | Fails iff MakeSubcategory fails, leaving the tree as it was; otherwise the new tree is that of MakeSubcategory |
| Storage.Store.DeleteOberkategorie | src/storage.js:52-57 | The new tree is that of RemoveCategory |
| Storage.Store.DeleteUnterkategorie | src/storage.js:59-64 | The new tree is that of RemoveSubcategory |
| Storage.Store.SaveNote | src/storage.js:93-99 | Fails iff PutNote fails, leaving the tree as it was; otherwise the new tree is that of PutNote |
| Storage.Store.DeleteNote | src/storage.js:101-106 | The new tree is that of RemoveNote |
| Storage.Store.RestoreFromBackup | src/storage.js:222-229 | Succeeds iff every save succeeds, and then returns the number of entries; on a throw, the entries before the failing one stay written |
| Storage.Store.SetSyncPath | src/storage.js:253-257 | Only the key `syncPath` of the configuration changes; afterwards the sync path reads back as the value given, or as none when that value is empty |
| Storage.SyncPath | src/storage.js:249-251 | There is a sync path iff the key is set to a non-empty string, and it is that string |
| Storage.GetAllNotes | src/storage.js:111-123 | The nested loops produce exactly the traversal AllNotes |
| Storage.GetStats | src/storage.js:128-146 | Gives the number of categories and of subcategories, and a note count equal to the length of the traversal |
| Storage.CreateBackup | src/storage.js:195-204 | Version 1 with the given timestamp; one entry per traversed note, in order, each with that note's content (of the corrected title listing; see "Left out") |
| Storage.RestoreLaterWins | src/storage.js:222-229 | After a successful restore, a note reads the last backup entry for it, or what it read before when there is no such entry |
| Storage.RestoreOwnBackup | src/storage.js:195-229 | Restoring a tree's own backup into it succeeds and changes nothing (of the corrected title listing; see "Left out") |
| Storage.RestoreNeverFails | src/storage.js:222-229 | Into a tree with no plain files at the root or category level, restore never throws |
| Storage.RestoreIntoEmpty | src/storage.js:222-229 | Restoring into an empty tree succeeds, and every backed-up note reads its last entry's content |
| Storage.FailureStops | src/storage.js:224-227 | A throw on one entry makes the whole restore fail |
| Storage.PreviewAroundMatch | src/storage.js:165-174 | Around a match, the first case-insensitive occurrence is marked, with up to 50 characters of context on each side and `...` where text was cut |
| Storage.PreviewWithoutMatch | src/storage.js:176 | With no content match, the preview is the first 100 characters, plus `...` if the content is longer |
| Storage.PreviewNoNewline | src/storage.js:183 | A search preview contains no newline |
| Storage.PreviewLength | src/storage.js:164-183 | A search preview is at most the query length plus 119 characters |
| Storage.SearchMeaning | src/storage.js:152-189 | A hit is in the results iff its note has non-empty content, its title or content contains the query case-insensitively, and it carries that note's preview; hits follow the traversal order |
| Storage.SearchNotes | src/storage.js:152-189 | The loop over all notes produces exactly Search |
| Links.NextMatch | src/utils.js:69-73 | Finds the first position from which `[[`, one or more characters other than `]`, and `]]` occur |
| Links.CaptureShape | src/utils.js:69-74 | Each captured link text is non-empty, has no `]`, and appears in the content as `[[text]]` |
| Links.Dedup | src/utils.js:77 | Keeps exactly the distinct values and has no duplicates |
| Links.DedupFirstOccurrenceOrder | src/utils.js:77 | Distinct values keep the order of their first occurrence |
| Links.BacklinksMeaning | src/utils.js:68-78 | The backlinks are the distinct trimmed captures, ordered by first occurrence |
| Links.BlankLink | src/utils.js:74 | `[[ ]]` yields the empty name, because the trim happens after the match |
| Links.CaseVariantsKept | src/utils.js:77 | `[[A]][[a]]` yields both names: removing duplicates is case sensitive |
| Utils.ExtractBacklinks | src/utils.js:68-78 | The regex loop produces exactly Backlinks |
| Utils.EscapeHtmlSafe | src/utils.js:54-63 | Escaped text contains no `<`, `>`, `"` or `'` |
| Utils.EscapeHtmlRoundTrip | src/utils.js:54-63 | Decoding the five entities gives back the original text |
| Utils.EscapeHtmlIdentity | src/utils.js:54-63 | Text without special characters is unchanged |
| Utils.EscapeHtmlLength | src/utils.js:55-61 | The length grows by 4 per `&`, 3 per `<` or `>`, and 5 per quote |
| Utils.RemoveFrontmatter | src/utils.js:84 | Removing the frontmatter leaves a suffix of the text |
| Utils.StripWithoutFrontmatter | src/utils.js:84 | Text that does not start with `---`, or has no closing `---`, is only trimmed |
| Utils.StripWithFrontmatter | src/utils.js:84 | Everything through the first closing `---` and one following newline is removed, then the rest is trimmed |
| Utils.StripHeadingsIdentity | src/utils.js:94 | Text with no `#` at a line start is unchanged |
| Utils.StripHeadingsExample | src/utils.js:94 | `## Title` becomes `Title` |
| Utils.GetPreview | src/utils.js:90-104 | Gives nothing for missing or empty content; the cleaned text when it fits; otherwise its first maxLength characters and `...` |
| Utils.PreviewIsPlain | src/utils.js:93-103 | A preview has no `*` and no newline; it is at most maxLength + 3 characters long |
| Utils.PreviewEllipsisIff | src/utils.js:100-103 | The preview ends in `...` iff the cleaned text was longer than maxLength, when the cleaned text does not itself end in `...` |
| GraphServer.GraphBacklinks | src/web/graphServer.js:8-17 | Missing content gives no backlinks; otherwise the same backlinks as the shared extractor |
| GraphServer.ExtractBacklinks | src/web/graphServer.js:8-17 | The guarded regex loop produces exactly GraphBacklinks |
| GraphServer.BuildGraphData | src/web/graphServer.js:22-100 | The loops produce exactly the nodes Nodes and the links GraphLinks |
| GraphServer.NoteNodesFollowTraversal | src/web/graphServer.js:29-71 | The note nodes occur in the order of the storage traversal, one per note |
| GraphServer.HierarchyLinkCount | src/web/graphServer.js:48-52 | There is one hierarchy edge per subcategory and one per note |
| GraphServer.HierarchyLinksFirst | src/web/graphServer.js:48-97 | All hierarchy edges come before all backlink edges |
| GraphServer.TitleIndexLastWins | src/web/graphServer.js:72 | A lower-cased title is a key iff some note has it; the note it maps to is the last such note |
| GraphServer.TitleIndexValues | src/web/graphServer.js:72 | Every note the title index maps to is a note node of the graph |
| GraphServer.LinksFromMembers | src/web/graphServer.js:86-94 | A note's edges are exactly those to the indexed note of one of its backlinks, other than the note itself |
| GraphServer.LinksFromLength | src/web/graphServer.js:86-94 | A note has at most one edge per backlink |
| GraphServer.BacklinkEdgeIff | src/web/graphServer.js:84-97 | A backlink edge from source to target exists iff a note with id source has a backlink whose lower-cased form maps to a different note with id target |
| GraphServer.CaseVariantsGiveTwoEdges | src/web/graphServer.js:86-94 | `[[A]][[a]]` gives two identical edges to note `a`: edges are not deduplicated |
| GraphServer.LinkEndpointsAreNodes | src/web/graphServer.js:22-100 | Both ends of every edge are node ids |
| Server.ComposeStripRoundTrip | src/web/server.js:30-37 | Stripping the frontmatter from a saved note gives back the trimmed body, when the frontmatter values contain no `---` |
| Server.SaveStoresComposedNote | src/web/server.js:29-41 | A save fails iff a plain file blocks the path; on success, the note under the trimmed title holds the composed text and every other note is unchanged |
| Server.StoreNote | src/web/server.js:39-41 | Creating the directories first (new-note server) or not (edit server) makes the tree that of one PutNote |
| Server.Save | src/web/server.js:22-49 | A missing or blank title gives `Thema fehlt` and no change; otherwise the note is written and the path with the untrimmed title is returned |
| Server.Autosave | src/web/server.js:60-82 | A missing or blank title gives `no_thema` and no change; otherwise the note is written and the save time is returned |
| Server.EditorContent | src/web/server.js:96 | The editor starts empty for a missing note, otherwise from the note without its frontmatter |
| Server.EditAfterSave | src/web/server.js:96-125 | Opening a note just saved shows the trimmed body that was typed |
| Server.EscapeContentGuarded | src/web/server.js:1034 | Every backquote and dollar sign in the escaped content is preceded by a backslash |
| Server.EscapeContentLength | src/web/server.js:1034 | The escaped content is longer by one per backquote and per dollar sign |
| Server.EscapeTitleShape | src/web/server.js:1035 | The escaped title has no `"`, every `'` follows a backslash, and the length grows by 1 per `'` and 5 per `"` |
| Server.EditPageShowsBackslashes | src/web/server.js:1034-1035 | As written, a body of one backquote shows in the editor with a backslash, and so does a title of one apostrophe |
| Server.EditPageShowsText | src/web/server.js:1034-1035 | Corrected: HTML-escaped fields show exactly the title and the editor text, with no `"` in the value and no `<` in the textarea |
| Server.SearchResponseMeaning | src/web/server.js:180-188 | A blank query gives no results; otherwise the results are those of searchNotes for the trimmed query |
| Server.HandleSearch | src/web/server.js:180-188 | The handler returns exactly SearchResponse |
| Manage.ManagePreviewAgrees | src/ui/manage.js:18-33 | The menu's own getPreview equals the shared one for every content and length |
| Manage.ManagePreviewIsPlain | src/ui/manage.js:18-33 | The menu's preview is empty without content, has no `*` or newline, and is at most maxLength + 3 long |
| Manage.CountNotesInOberkategorie | src/ui/manage.js:73-76 | Throws exactly when the category name is a plain file |
| Manage.CountNotesMeaning | src/ui/manage.js:73-76 | The count is the sum over the subcategories and equals the number of the category's notes in the storage traversal |
| NotePicker.GetAllNotes | src/ui/note.js:21-41 | The nested loops produce exactly the entries of the storage traversal |
| NotePicker.PickerFollowsTraversal | src/ui/note.js:30-35 | One entry per traversed note, in order, with its three names and `ober / unter / thema` as the path |
| NotePicker.FilterMeaning | src/ui/note.js:202-211 | A blank search keeps the list; otherwise exactly the entries with the lower-cased text in a lower-cased name are kept, in order |
| NotePicker.QueryNotTrimmed | src/ui/note.js:205 | The filter text is not trimmed: `ab ` does not find the note `ab` that `ab` finds |
| Text.TrimEmptyIffBlank | src/web/server.js:25 | A text trims to empty iff it is all whitespace |
| Text.TrimIdempotent | src/web/server.js:186 | Trimming twice equals trimming once |
| Text.TrimIsSlice | src/utils.js:84 | Trimming removes a whitespace prefix and a whitespace suffix, and nothing else |
| Text.IndexOf | src/storage.js:165 | Finds a position iff the pattern occurs, and that position is its first occurrence |
| Text.Lower | src/storage.js:154 | Lower-casing keeps the length and maps each character on its own |

## Left out

- Path strings and `path.join` are left out. A note is addressed by its three names. Names containing a path separator, `.` or `..` are not modelled.
- `ensureDir` on the notes root, called by `getOberkategorien`, is left out. The root always exists in the model.
- Directories inside a subcategory are left out: a folder maps file names to contents. A directory called `x.md` there would be listed as a note in the source.
- The sort is left out as JavaScript performs it. `Array.prototype.sort` compares UTF-16 code units; the model compares characters. The two agree on names without characters outside the Basic Multilingual Plane.
- Storage.PreviewAroundMatch: positions and the 50-character context count Unicode characters; JavaScript's `indexOf`, `length` and `substring` count UTF-16 code units (src/storage.js:165-174). The two agree on text without characters outside the Basic Multilingual Plane. With such characters the source shows fewer of them in the window, and a cut can split a surrogate pair.
- Storage.PreviewWithoutMatch: the 100-character cut at src/storage.js:176 counts Unicode characters, not UTF-16 code units, as in the line above.
- Utils.GetPreview: the maxLength cut at src/utils.js:100-101 counts Unicode characters, not UTF-16 code units; the same holds for Utils.Truncate, and for Manage.ManagePreview at src/ui/manage.js:29-30.
- Text.Lower: `toLowerCase` is modelled on ASCII letters only. No other character changes, and the length is kept. The proofs rely only on the mapping being per character.
- Dates are parameters: `toLocaleDateString`, `toLocaleTimeString` and the backup timestamp.
- JSON text is left out: the request and response bodies are datatypes.
- Request fields other than `thema` are assumed to be strings; a missing `oberkategorie` would become the text `undefined` in the source.
- `saveBackupToFile`, `loadBackupFromFile` and `syncToPath` are file I/O around a backup value and are left out.
- `loadConfig` and `saveConfig` are JSON file I/O. The configuration is a map held by the store, with a missing key and `null` alike as absent values.
- Storage.SyncPath: non-string configuration values are not modelled.
- HTTP plumbing is left out: express, the status codes beyond the response kinds, the closing timers, `setTimeout` and the callbacks. So are Markdown rendering (`marked`), the HTML templates other than the two edit-page fields, and the terminal menus' prompts.
- The nodes' `label` field is modelled as the category, subcategory or title name it is set to.
- Corpus.WellFormed: the traversal and count functions require that no name is both a file and a directory. A real file system cannot hold such a name.
- The race between `existsSync` and the following call is left out, because the model has no concurrency.
- `noteExists` and `getNotePath` are covered by Corpus.ReadNote and Corpus.NoteFile; they have no members of their own.
- Corpus.Titles: lists note files by the trailing-extension title, as the listing evidently intends; it does not reproduce `replace('.md', '')` at src/storage.js:75. As written, a file whose stem contains `.md` lists under a title that reads as missing (`x.mdy.md` lists as `xy.md`), and two files can list under one title (`x.mdy.md` and `xy.md.md`). Corpus.AsWrittenListingAgrees proves that both listings agree when no stem contains `.md`.
- Corpus.Notes: built on Corpus.Titles, so "sorted, without repeats, and each title reads a note" holds of the corrected listing only. As written, getNotes can list a title that reads as missing, and can list the same title twice.
- Corpus.AllNotesMembers: "in the traversal iff reading succeeds" is about the corrected listing. As written, the traversal can hold a title that reads as missing; searchNotes then skips it, createBackup gives it `''`, and the graph gives it no backlinks.
- Corpus.AllNotesOrdered: "no duplicates" is about the corrected listing. As written, two files such as `x.mdy.md` and `xy.md.md` give two equal traversal entries, two graph nodes with one id, and two counts in getStats.
- Storage.CreateBackup: "each entry holds that note's content" is about the corrected traversal. The `|| ''` fallback at src/storage.js:201 is not modelled separately: in the model a traversed note always reads its content, so the fallback matters only for an empty note, whose content is already `''`. As written, the fallback also applies to a listed title that reads as missing, which then gets the content `''`.
- Storage.RestoreOwnBackup: holds for the corrected listing. As written, the backup of a folder holding `x.mdy.md` has the entry `xy.md` with content `''`, and restoring it writes a new file `xy.md.md`.

## Findings

| source | as written | input that shows it | evidently intended | confidence | as-written member | corrected member |
|---|---|---|---|---|---|---|
| src/storage.js:75 | `replace('.md','')` removes the first `.md` of the file name | a note titled `x.mdy` is stored as `x.mdy.md` and listed as `xy.md`, which then reads as missing; `x.mdy.md` and `xy.md.md` both list as `xy.md` | remove the trailing `.md` extension | not executed | Corpus.AsWrittenTitleMismatch | Corpus.TitleRoundTrip |
| src/web/server.js:1034-1035 | the escapes for a JavaScript template literal are applied to text inserted into HTML: the textarea and the `value` attribute | a body of one backquote shows as a backslash and a backquote; a title `'` shows as `\'` | escape for HTML, so the page shows the text as stored | not executed | Server.EditPageShowsBackslashes | Server.EditPageShowsText |
