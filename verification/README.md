# litreview in Dafny

A Dafny model of the core of `litreview`, a command-line manager for research
notes. It tracks bibliographic documents, their authors, a tree of notes
attached to each document, and a link graph between documents. Four parts of
the program are modelled, each in its own module:

- `Base` (`base.dfy`) holds the shared vocabulary:
  - store ids;
  - `Option` for Python's `None`;
  - `Result` and `Outcome` for exceptions. An `Outcome` keeps the state an
    operation had already written when it raised;
  - ASCII `lower()`;
  - `list.remove` and the filter used by the history;
  - `int(str)`, with its whitespace, sign and underscore rules, and `str(int)`.
- `DocumentTypes` (`document_types.dfy`) covers the value objects `Doc`,
  `Author` and `Note`:
  - their normalising constructors;
  - their dictionary form, written by `to_dict` and read back by `from_ref`.
- `Database` (`database.dfy`) models the document store as in-memory maps:
  - documents in stream order;
  - a note list per document;
  - authors keyed by (lastname, firstname).

  Documents are kept as they were written. Reading one back applies the
  defaults of `from_ref`, so a missing link list reads as empty.

  It models the data transformations of adding and deleting documents, the
  author counts, links and notes.
- `Model` (`model.py` → `model.dfy`) is the navigation model:
  - the document and note caches, as an id list plus an id-to-object
    dictionary each;
  - the current document and note;
  - the flat history of visited ids.
- `Litreview` (`litreview.dfy`) is the navigation state of the interactive
  shell:
  - the cached documents and notes, and the current document;
  - the child notes of the current level with their browsing cursor;
  - the note and link stacks;
  - the menu that `get_links` builds.

Python's uncaught exceptions are modelled as values: `Err(fault)`, or
`Crashed(partial state, fault)`. Each place where the program is evidently
wrong is modelled twice, once as written and once corrected. The rest of
the model uses the corrected version (see Findings).

## Model

| member | source | states |
|---|---|---|
| Base.ParseInt | database.py:203-204 | `int(s)` ignores surrounding whitespace and accepts an optional sign followed by digits, where single underscores may separate digits. On plain digit strings it yields their decimal value, and it fails on text that is empty once stripped |
| Base.TrimStartSpec | database.py:203-204 | stripping the front drops exactly a run of whitespace, and what is left is empty or starts with a character that is not whitespace |
| Base.TrimEndSpec | database.py:203-204 | stripping the back drops exactly a run of whitespace, and what is left is empty or ends with a character that is not whitespace |
| Base.PaddingIgnored | database.py:203-204 | whitespace before and after the number does not change what `int` reads |
| Base.UnderscoreIgnored | database.py:203-204 | a single underscore between two digits does not change what `int` reads |
| Base.DoubleUnderscoreRejected | database.py:203-204 | two underscores in a row make `int` fail |
| Base.ParseNegative | database.py:212 | a minus sign followed by digits reads as the negated value of the digits |
| Base.ParseShowRoundTrip | database.py:203-205 | a document count written with `str` and read back with `int` is the same integer, which is why the model keeps the count as an integer |
| Base.RemoveFirst | database.py:122 | `list.remove(x)` shortens the list by one, removes one occurrence of `x`, and leaves the number of every other element unchanged |
| Base.Without | model.py:157-163 | the filtered history contains no occurrence of the id, and keeps every other id as often as before |
| Base.WithoutConcat | model.py:157-163 | the filter works part by part, so the ids kept stay in their original relative order |
| Base.Insert | database.py:23 | placing a new key in the stream keeps every earlier element before it and moves every later one up by one. The result holds exactly the new key and the old elements |
| Base.RemoveInserted | database.py:23 | cutting a just-placed element out of its position gives the list back |
| Base.WithoutInserted | database.py:23 | filtering out a key just placed in a list that lacked it gives the list back |
| Base.InsertKeepsDistinct | database.py:23 | placing a new key in a list without repetitions keeps it without repetitions |
| DocumentTypes.YearValue | document_types.py:8-9 | `int(year)` keeps an integer year, and on text succeeds exactly when the text parses as an integer |
| DocumentTypes.PaddedYearAccepted | document_types.py:8-9 | a year written as digits with whitespace around them is accepted as the value of the digits |
| DocumentTypes.GroupedYearAccepted | document_types.py:8-9 | a year written with an underscore between two groups of digits is accepted as the value of the digits |
| DocumentTypes.NewDoc | document_types.py:3-15 | the constructor fails only on a year that is not an integer. It stores the DOI lower-cased and the year as an integer, and every other field as given |
| DocumentTypes.NewDocDoiNormalised | document_types.py:11-12 | a constructed document's DOI is already lower case |
| DocumentTypes.NewNote | document_types.py:109-116 | the note constructor raises ValueError exactly when the notetype is not one of the twelve listed, and otherwise stores the fields as given |
| DocumentTypes.DocToDict | document_types.py:39-61 | the dictionary always has doctype, title and authors. It has year, doi, inlinks, outlinks and id exactly when they are not `None`, holds no other key, and stores each value as given, the id included |
| DocumentTypes.DocFromRef | document_types.py:18-37 | reading raises KeyError without the three mandatory keys and takes the id from the reference. A missing link key leaves the constructor's empty default, and a missing year or doi leaves `None` |
| DocumentTypes.DocRoundTrip | document_types.py:18-61 | reading back the dictionary of any document recovers every field, with the reference's id, and with a `None` link list turned into the empty default |
| DocumentTypes.DocRoundTripExact | document_types.py:18-61 | a document that carries its reference's id and both link lists survives the round trip unchanged |
| DocumentTypes.AuthorToDict | document_types.py:85-101 | names and count are always present. Affiliation and email are present exactly when non-empty, and id exactly when not `None` |
| DocumentTypes.AuthorFromRef | document_types.py:73-83 | reading an author raises KeyError without names and count, and takes the id from the reference |
| DocumentTypes.AuthorRoundTrip | document_types.py:73-101 | an author survives the round trip, except that an empty affiliation or email comes back as `None` |
| DocumentTypes.NoteToDict | document_types.py:126-139 | ref_id, notetype and body are always present; page and id are present exactly when not `None`; nothing else is present |
| DocumentTypes.NoteFromRef | document_types.py:119-124 | reading a note raises KeyError without its three keys, yields only valid notetypes, takes the reference's id, and has a page exactly when one was stored |
| DocumentTypes.NoteRoundTrip | document_types.py:119-139 | a note with a valid notetype survives the round trip, with the reference's id |
| DocumentTypes.NoteRoundTripRejectsInvalid | document_types.py:115-124 | a stored note whose notetype is not valid cannot be read back (ValueError) |
| Database.GetDocsInOrder | database.py:52-54 | in a consistent store, `get_docs` yields the stored documents in stream order, each read back with its key as id and `from_ref`'s defaults for missing fields |
| Database.TitleIndex | database.py:38-43 | the position found is the first document whose title matches ignoring case, and there is none exactly when no title matches |
| Database.FindTitle | database.py:38-43 | `_get_doc_by_title` returns nothing exactly when no stored title matches ignoring case, and otherwise returns the first match in stream order |
| Database.GetAuthor | database.py:194-200 | `_get_author` finds an author exactly when one with the same (lastname, firstname) is stored |
| Database.AddAuthor | database.py:181-189 | `_add_author` leaves every stored author as it was and adds the new name, with its count, only when the name is new |
| Database.AuthorKeyIsCaseSensitive | database.py:194-196 | names differing only in case are different authors, so adding one creates a second record |
| Database.IncDocCount | database.py:202-205 | the count of the named author goes up by one and nothing else changes. A missing author raises AttributeError |
| Database.DecDocCount | database.py:207-216 | an author with count 1 is deleted. Any other count goes down by one, with the author's other fields kept. Other authors are unchanged, and a missing author raises AttributeError |
| Database.IncThenDecRestores | database.py:202-216 | decrementing right after incrementing gives back the same author map, for an author whose count is not 0 |
| Database.Credit | database.py:18-22 | crediting one listed author creates it when missing and raises its count by one |
| Database.CreditAll | database.py:18-22 | after the author loop, exactly the old and the listed authors are stored. Each listed author's count rose by its number of listings, and unlisted authors are unchanged |
| Database.DebitAll | database.py:66-69 | the decrement loop raises when a listed author is missing. When every count covers its listings, each count drops by its number of listings and authors reaching zero are removed. Unlisted authors are kept |
| Database.GetDocByTitle | database.py:38-43 | a document is found exactly when a stored title matches ignoring case, and the one found is stored and has that title |
| Database.AddDoc | database.py:12-23 | a title already stored, ignoring case, changes nothing. Otherwise the document is stored as written under the new key, which takes the stream position the store gives it. The notes are untouched, and the listed authors are credited |
| Database.AddDocCreditsAuthors | database.py:17-22 | adding a document under a new title stores each listed author with its count raised by its number of listings, and keeps every other author |
| Database.AddDocKeepsValid | database.py:12-23 | adding a document keeps every document listed once, under its own key |
| Database.InsertKeepsValid | database.py:23 | a document stored under a new key that it carries as id, at any stream position, keeps the store consistent |
| Database.DeleteDoc | database.py:56-72 | deletion removes the document's notes and, on success, the document itself, and debits its authors. A missing author raises after the notes are gone, with the document still stored. Other documents' notes are untouched |
| Database.CreditThenDebit | database.py:18-22 | the author loop of `delete_doc` (lines 66-69) undoes the one of `add_doc`: when every stored count is positive, the same authors remain, with the same counts |
| Database.AddThenDeleteDoc | database.py:12-72 | deleting a document right after adding it under a fresh id and an unused title succeeds, wherever the new key was placed. The documents, stream order and notes are as before, and so are the authors and their counts |
| Database.DeleteAdded | database.py:12-72 | deleting a just-added document restores the documents, stream order and notes exactly, and leaves the authors as the delete loop debits them |
| Database.DeleteDocKeepsValid | database.py:56-72 | deleting a document keeps the store consistent, including after a crash |
| Database.AddLink | database.py:74-103 | both documents stored: `in` is appended to the outlinks of `out`, and `out` to the inlinks of `in`, a missing list counting as empty; no other document or field changes. Otherwise AttributeError |
| Database.AddLinkKeepsSymmetric | database.py:87-103 | adding a link keeps each outlink list mirrored by the inlink lists |
| Database.AddLinkPair | database.py:87-103 | after adding a link, the one pair `(out, in)` gains exactly one occurrence on each side, and no other pair changes |
| Database.DeleteLink | database.py:105-126 | as written, deleting a link removes one occurrence of `in` from the outlinks of `out` and leaves the inlinks alone. A missing list returns False, and an absent link raises ValueError |
| Database.DeleteLinkFromUnlinkedDoc | database.py:119-126 | a document stored without an outlinks key keeps it missing, so deleting a link from it returns False and writes nothing |
| Database.DeleteLinkBreaksSymmetry | database.py:118-135 | on a two-document store with one mirrored link, `delete_link` as written leaves the inlink behind |
| Database.DeleteLinkSymmetric | database.py:105-135 | with both updates run, one occurrence is removed from each side. Every other id keeps its count in both lists, both documents keep their other fields, and no other document, the stream order, the notes or the authors change |
| Database.DeleteLinkSymmetricKeepsSymmetric | database.py:117-135 | with both updates run, deleting an existing link keeps the lists mirrored |
| Database.AddNote | database.py:137-144 | the note is stored under its document with the new key, at the stream position the store gives it, and nothing else changes |
| Database.AddNoteKeepsValid | database.py:137-144 | adding a note with a fresh key keeps note ids unique within the document |
| Database.NoteIndex | database.py:159-165 | the position found is the first note with the given id, and there is none exactly when no note has it |
| Database.Repoint | database.py:171-174 | every note that referred to the deleted id now refers to the document, and every other note is unchanged, in place |
| Database.RemoveNote | database.py:159-174 | the deletion fails exactly when no note has the id, and otherwise removes exactly one note |
| Database.DeleteNote | database.py:155-175 | `delete_note` returns False and changes nothing exactly when the document has no note with that id. Otherwise the document has one note fewer, and no other document's notes change |
| Database.DeleteNoteRepoints | database.py:169-175 | after deleting a note, no note refers to it, each former child now refers to the document, and every other surviving note is kept |
| Database.RemoveNoteRepoints | database.py:171-174 | the list-level form of re-pointing: every surviving note appears, its reference moved to the document if it referred to the deleted note |
| Database.DeleteNoteRemovesIt | database.py:159-165 | with note ids unique, the deleted note is no longer stored |
| Database.RemoveNoteInserted | database.py:144-175 | deleting a note just placed under an id no other note has takes out exactly that note and re-points the notes that referred to it |
| Database.AddThenDeleteNote | database.py:137-175 | deleting a note right after adding it under a fresh id succeeds wherever it was placed, and the document's notes are exactly as before |
| Database.RemoveNoteRemovesIt | database.py:159-165 | the list-level form: with unique ids, no remaining note has the deleted id |
| Model.Ids | model.py:55-62 | the id lists the reload loops build hold each object's id at the object's position |
| Model.Index | model.py:59-62 | the reference dictionary: exactly the listed keys, each mapped to the object at its last occurrence |
| Model.Assign | model.py:57-61 | the dictionary filled by the loop, one assignment per object in order, has exactly the listed keys |
| Model.AssignIsIndex | model.py:57-61 | the loop's assignments give the same dictionary as filing each key under its last occurrence |
| Model.IndexLastWins | model.py:59-62 | an entry whose key no later entry repeats survives in the dictionary |
| Model.ReloadDocs | model.py:55-62 | `reload_docs` replaces the document cache and nothing else |
| Model.ReloadDocsCoherent | model.py:55-62 | after `reload_docs`, the id list and the dictionary hold the same ids and each object is filed under its own id; history and current id are untouched |
| Model.ReloadDocsMirrorsStore | model.py:55-62 | in a consistent store, after `reload_docs` the cached ids are the store's keys in stream order, and the cache holds each stored document as `from_ref` reads it back, in that order |
| Model.GetCurrentDoc | model.py:64-67 | the current document is found exactly when a current id is set and cached, and it is the object cached under that id |
| Model.GetCurrentNote | model.py:100-103 | the current note is found exactly when a current note id is set and cached, and it is the object cached under that id |
| Model.ReloadNotes | model.py:88-98 | `reload_notes` changes only the note cache. With no current document it changes nothing. Otherwise the note ids are those of the stored notes, in order, and each id is filed under its last note |
| Model.ReloadNotesMirrorsStore | model.py:88-98 | after `reload_notes` the cached note ids are the ids of the current document's stored notes, in order, and each stored note can be looked up by its id |
| Model.ReloadNotesCoherent | model.py:88-98 | `reload_notes` keeps the note id list and the note dictionary in agreement |
| Model.GetDocs | model.py:82-83 | `get_docs` yields one entry per cached id |
| Model.HistoryPush | model.py:138-141 | pushing an object without an id changes nothing. Otherwise the history grows by exactly that id at the end, and nothing else changes |
| Model.ResolveCoherent | model.py:149-154 | in a coherent cache, a history id resolves to the cached document, else to the cached note, else to nothing, and what it resolves to carries that id |
| Model.HistoryPop | model.py:143-154 | popping an empty history returns nothing and changes nothing. Otherwise exactly the last id is removed and resolved |
| Model.PushThenPop | model.py:138-154 | popping right after pushing an object with an id gives back the previous state, and resolves that id |
| Model.HeadAgreesWithPop | model.py:165-175 | `history_head` returns what `history_pop` would, without changing the history |
| Model.HistoryDeleteObj | model.py:156-163 | after deletion the object's id is absent from the history and every other id occurs as often as before |
| Model.HistoryDeleteKeepsOrder | model.py:156-163 | deleting from a history splits over any division of it, so the remaining ids keep their relative order |
| Model.HistoryDeleteObjAsWritten | model.py:156-158 | as written, every call raises NameError |
| Model.HistoryReset | model.py:177-178 | `history_reset` empties the history and changes nothing else |
| Model.SetCurrentObj | model.py:21-45 | nothing, or an unknown document or note id, is refused without change. A known document becomes current with its id pushed and the current note cleared; a known note becomes current with its id pushed and the document kept |
| Model.SetCurrentDocLoadsItsNotes | model.py:31-34 | selecting a document loads exactly the notes stored under it |
| Model.HistoryBackReturnsPrevious | model.py:180-191 | for a history ending `[..., p, c]` with both resolvable, going back returns `p`'s object and leaves `[..., p]` |
| Model.HistoryBackAtStart | model.py:180-188 | with a single resolvable entry, going back returns nothing and leaves the history as it was |
| Model.DeleteDoc | model.py:73-80 | a document the cache does not list is refused. A listed one is deleted from the store, and the call succeeds exactly when the store deletion does, returning True. Success removes its id from the history and keeps every other history id. It also reloads the document cache from the store. The current document id is kept |
| Model.DeleteDocDropsFromCache | model.py:73-80 | deleting a listed document from a freshly loaded cache succeeds when its authors are stored, and the cached ids lose exactly its id, the others keeping their order |
| Model.LiftedWithout | model.py:73-80 | dropping a key from the stream order and then taking ids is the same as dropping its id from the id list |
| Model.FreshIds | model.py:55-62 | for a consistent store, the ids a reload caches are the store's keys in stream order |
| Model.DeleteDocAsWrittenKeepsDeletedId | model.py:73-80 | deleting a visited document as written raises NameError and leaves its id in the history, where the corrected version succeeds and removes it |
| Model.DeleteNote | model.py:113-117 | the corrected `delete_note` performs the store deletion, and the note's id leaves the history while other ids keep their counts. Both caches are reloaded from the store: the document cache always, and the note cache when a document is current. The current ids are kept |
| Model.DeleteNoteAsWritten | model.py:113-114 | as written, `delete_note` raises NameError before changing anything |
| Litreview.Reset | litreview.py:28-35 | `reset` clears the current document, notes, child notes, cursor and note history, and keeps the link history and the document cache |
| Litreview.ReloadNotes | litreview.py:71-74 | with no current document nothing changes. Otherwise only the cached notes change, to those stored under the current document |
| Litreview.FirstIdIndex | litreview.py:94-96 | the position found carries the id and no earlier cached document does, and there is none exactly when no cached document carries it |
| Litreview.FirstWithId | litreview.py:94-96 | the document found is the first cached one carrying the id, and there is none exactly when no cached document carries it |
| Litreview.SetCurrentDoc | litreview.py:79-101 | nothing, or an id no cached document carries, changes nothing. A cached document becomes current as it is, and any other document is replaced by the first cached one with its id. Any selection loads the notes of the selected id, and the stacks are kept |
| Litreview.SetCurrentDocIdempotent | litreview.py:79-101 | selecting the document that a selection just made current changes nothing more |
| Litreview.GetCurrentNote | litreview.py:109-113 | the current note is the last one in the note history, and there is none exactly when the history is empty |
| Litreview.ChildrenOf | litreview.py:714-718 | a note is listed exactly when it is cached and refers to the target |
| Litreview.ChildrenOfCounts | litreview.py:714-718 | the child list holds each cached note that refers to the target as often as it is cached, and no other |
| Litreview.GetChildNotes | litreview.py:708-722 | without a current document there is no answer and nothing changes. Otherwise the answer is the target's children, and the cursor goes back to 0 |
| Litreview.SortRaisesOnSiblings | litreview.py:720 | as written, the sort raises exactly when there are two or more children. When it does not raise, the answer is the corrected one |
| Litreview.TwoSiblingsCrash | litreview.py:714-722 | a document with two notes makes the as-written call raise, while the corrected one lists both |
| Litreview.PopNote | litreview.py:692-704 | with an empty note history nothing changes. Otherwise exactly the last note is removed, and the child notes become the level of the new last note, or of the document at the top. Without a document there are none |
| Litreview.PopLink | litreview.py:469-479 | with an empty link history nothing changes. Otherwise exactly the last document is popped and the note history cleared. A popped document still cached becomes current at its top level. Otherwise the first cached document with its id does, also at its top level |
| Litreview.DoPop | litreview.py:454-467 | with no argument, a note is popped while there is one, then a document, and nothing happens when both stacks are empty. `note` and `doc` pop that stack |
| Litreview.Walk | litreview.py:676-687 | the walk changes only the child notes and the cursor. A bad index restores the child notes held on entry, and a successful walk ends on the children of the last note reached |
| Litreview.DoSelectNote | litreview.py:663-689 | a refused path leaves the note history and the child notes as they were. A successful one appends exactly one note, and the current document and link history never change |
| Litreview.WalkFollows | litreview.py:676-687 | the walk reaches exactly the note that the path designates among the cached notes |
| Litreview.SelectNoteFollowsPath | litreview.py:663-689 | selecting succeeds exactly when the path designates a note. It pushes exactly that note, and otherwise leaves the note history and the child notes unchanged |
| Litreview.SelectThenPop | litreview.py:663-704 | selecting keeps the shell on a consistent level, and popping right after a successful selection restores the note history and the child notes |
| Litreview.DoGetNextNote | litreview.py:760-779 | a missing list raises, and an empty one shows nothing. Otherwise the note under the cursor is shown, starting over when the cursor has passed the end, and the cursor ends between 1 and the list length |
| Litreview.BrowseShowsLevel | litreview.py:760-779 | browsing from the cursor to the end shows the rest of the level once, in order |
| Litreview.LastMatch | litreview.py:413-420 | the position found is the last cached document carrying the id, and there is none exactly when no document carries it |
| Litreview.LinkIndexEntries | litreview.py:405-434 | every menu entry leads to a cached document carrying that entry's link id, and to the last such document. Every link id some document carries gets an entry |
| Litreview.LinkIndexComplete | litreview.py:413-434 | an entry exists exactly when some cached document carries the link id, so dangling ids get none while the counter still advances |
| Litreview.LinkIndexMap | litreview.py:405-434 | the nested loops that fill the menu build exactly the menu described by `LinkIndex` |
| Litreview.MenuDoc | litreview.py:410-434 | a number is an entry of the menu exactly when its link id is carried by a cached document, and the entry leads to the last such document |
| Litreview.JumpToLink | litreview.py:400-450 | notes raise AttributeError and missing lists raise TypeError. A choice that is not an entry changes nothing. Choosing an entry pushes the document left, clears the note history and opens at its top level exactly the document the entry leads to |
| Litreview.JumpThenPop | litreview.py:445-479 | following a link and then popping returns to the document left, with the link history as before |
| Litreview.DanglingLinkMisleadsMenu | litreview.py:442-447 | with a dangling first link, the as-written guard lets 0 through to a KeyError and refuses the listed entry 1 |
| Litreview.DanglingLinkCorrected | litreview.py:442-447 | on the same documents, the corrected guard refuses 0 and opens the linked document on 1 |
| Litreview.JumpListsWrongChildren | litreview.py:445-449 | as written, the child list after a jump is the notes attached to the document left, so a note of the opened document is missing; the corrected version lists it |

## Left out

- Terminal I/O is not modelled: the cmd2 shell, prompts, printing, text wrapping and `update_prompt`. A line typed at a prompt is a parameter, and end of input is `None`.
- The shell commands that only print or prompt are not modelled: `do_note_tree`, `do_notes`, `do_whereami`, and the menus of `do_add_doc` and friends.
- The Firestore client, snapshots and references are not modelled. The store is in-memory maps, and a key the store would allocate (`add`) is a parameter. `NotFound` never occurs, so `_get_doc` always returns a reference.
- The author record's own store id is not modelled: authors are keyed by (lastname, firstname).
- `doc_count` is stored as a string in the source. The model keeps an integer, justified by `Base.ParseShowRoundTrip`.
- Document ids and their ordering are not computed. Firestore streams a collection in ascending document-id order, and `add` allocates a random id (database.py:23, 144). The model keeps the stream order as data: the `order` sequence for documents, and the stored sequence for a document's notes. `Database.AddDoc` and `Database.AddNote` take the position the new key lands at as a parameter.
- Unicode is not modelled: `lower()` and `isnumeric()` are restricted to ASCII, so non-ASCII digits and case mappings are not covered.
- Base.ParseInt: covers ASCII whitespace and ASCII digits only. Python's `int` also strips Unicode whitespace and reads Unicode decimal digits, and strings are modelled as ASCII text.
- DocumentTypes.NewDoc: the constructor's defaults `title=None` and `authors=None` are not modelled, so the title is always a string and the authors always a list. `add_doc` iterates the authors (database.py:18), so a document without authors raises TypeError. One without a title raises AttributeError at the title comparison (database.py:41) unless the store is empty, and once stored it would make every later title lookup raise. Every shell command that builds a document supplies both.
- Python compares documents by identity in `set_current_doc` (`doc_obj in self.all_docs`). The model compares values, which agrees whenever cached ids are distinct.
- Model.GetDocs: states only the length of the result. Its contents are stated for a freshly reloaded cache by `Model.ReloadDocsMirrorsStore`.
- The mutable default arguments `inlinks=[]` and `outlinks=[]` of the document constructor are not modelled. Each document gets its own list.
- The `Model` wrappers `add_doc`, `add_note`, `create_link` and `delete_link` (model.py:69-71, 108-111, 125-136) are left out. Each only calls the store operation and reloads the caches, and both of those are modelled.
- `Model.get_notes` and `history_get` just return the cache or the history as they are, so they are not modelled.
- The link-deletion menu `do_delete_link` is not modelled. It repeats the menu of `get_links` and then calls `delete_link`, which is modelled.
- Model.HistoryHead: has no contract of its own. `Model.HeadAgreesWithPop` states that it returns what `Model.HistoryPop` does, and that one's contract is stated.
- Model.GetDoc: has no contract of its own. It is the dictionary's `.get` (model.py:85-86), and what it returns after a reload is stated through `Model.GetDocs` by `Model.ReloadDocsMirrorsStore`.
- Model.GetNote: has no contract of its own. It is the dictionary's `.get` (model.py:122-123), and what it returns after a reload is stated by `Model.ReloadNotesMirrorsStore`.
- Database.GetDocs: has no contract of its own. `Database.GetDocsInOrder` states its result for a consistent store.
- Model.HistoryBack: has no contract of its own. Its behaviour is stated by `Model.HistoryBackReturnsPrevious` and `Model.HistoryBackAtStart` for histories whose last entries resolve.
- Negative author counts are modelled but not ruled out. `_dec_author_doc_count` deletes an author only at a count of exactly 1 (database.py:209-210), so a stored count of 0 is lowered to -1. The store's own additions never store 0, because every added author is credited at once.

## Findings

| source | as written | input that shows it | evidently intended | confidence | as-written member | corrected member |
|---|---|---|---|---|---|---|
| litreview.py:720 | `child_notes.sort()` on `Note` objects, which define no ordering | a document with two notes attached to it: the sort raises TypeError | list the children, in a stable order | not executed | Litreview.SortRaisesOnSiblings | Litreview.ChildrenOfCounts |
| model.py:158 | the loop reads the bare name `history` | any call, e.g. deleting a document whose id is in the history: NameError after the store deletion | filter `self.history` | not executed | Model.DeleteDocAsWrittenKeepsDeletedId | Model.HistoryDeleteObj |
| model.py:114 | passes the undefined name `note_ob` | any call of `delete_note`: NameError before anything changes | pass `note_obj` | not executed | Model.DeleteNoteAsWritten | Model.DeleteNote |
| database.py:124 | `return True` right after the outlinks update | documents `a` → `b` with mirrored lists: after `delete_link(a, b)`, `b` still lists `a` as an inlink | also remove `out` from the inlinks of `in` | not executed | Database.DeleteLinkBreaksSymmetry | Database.DeleteLinkSymmetricKeepsSymmetric |
| litreview.py:442 | the choice is checked against `len(index_map)` | outlinks `["gone", "b"]` with only `b` cached: choice 0 raises KeyError and the listed choice 1 is refused | accept exactly the keys of the menu | not executed | Litreview.DanglingLinkMisleadsMenu | Litreview.DanglingLinkCorrected |
| litreview.py:449 | `get_child_notes(obj)` uses the document left | `a` links to `b`, and `b` has a note attached to it: after the jump the list is empty | list the children of the new current document | not executed | Litreview.JumpListsWrongChildren | Litreview.JumpToLink |
