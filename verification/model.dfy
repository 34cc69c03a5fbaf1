/**
  The navigation model: a cache of the store's documents and of the notes
  of the current document, the current document and note, and a flat
  history of visited ids. The caches are keyed, as in the source, by each
  object's optional id; the history holds ids only, never objects, so it
  survives a reload of the caches.
 */
module Model {
  import opened Base
  import opened DocumentTypes
  import Database

  datatype State = State(
    db: Database.Store,
    allDocIds: seq<Option<Id>>,
    docIdToObj: map<Option<Id>, Doc>,
    allNoteIds: seq<Option<Id>>,
    noteIdToObj: map<Option<Id>, Note>,
    currentDocId: Option<Id>,
    currentNoteId: Option<Id>,
    history: seq<Id>)

  // ---------------------------------------------------------------------
  // Cache

  /** The id list the reload loops build by appending each object's id in
      turn. */
  function Ids<T>(xs: seq<T>, id: T -> Option<Id>): (r: seq<Option<Id>>)
    ensures |r| == |xs| && forall i :: 0 <= i < |xs| ==> r[i] == id(xs[i])
  {
    if xs == [] then [] else Ids(xs[..|xs| - 1], id) + [id(xs[|xs| - 1])]
  }

  function DocIds(ds: seq<Doc>): seq<Option<Id>> {
    Ids(ds, (d: Doc) => d.id)
  }

  function NoteIds(ns: seq<Note>): seq<Option<Id>> {
    Ids(ns, (n: Note) => n.id)
  }

  /** Position of the last occurrence of `k` in `keys`. */
  function LastIndex(keys: seq<Option<Id>>, k: Option<Id>): (i: nat)
    requires k in keys
    ensures i < |keys| && keys[i] == k
    ensures forall j :: i < j < |keys| ==> keys[j] != k
  {
    if keys[|keys| - 1] == k then |keys| - 1 else LastIndex(keys[..|keys| - 1], k)
  }

  /** The dictionary the reload loops build: `xs[i]` is assigned under
      `keys[i]` for each position in turn. */
  function Assign<T>(keys: seq<Option<Id>>, xs: seq<T>): (r: map<Option<Id>, T>)
    requires |keys| == |xs|
    ensures forall k :: k in r <==> k in keys
  {
    if keys == [] then map[]
    else
      var n := |keys| - 1;
      assert keys == keys[..n] + [keys[n]];
      Assign(keys[..n], xs[..n])[keys[n] := xs[n]]
  }

  /** The reference reading of such a dictionary: every listed key holds the
      entry at its last occurrence. */
  function Index<T>(keys: seq<Option<Id>>, xs: seq<T>): (r: map<Option<Id>, T>)
    requires |keys| == |xs|
    ensures forall k :: k in r <==> k in keys
    ensures forall k :: k in r ==> r[k] == xs[LastIndex(keys, k)]
  {
    map k | k in keys :: xs[LastIndex(keys, k)]
  }

  /** Assigning in list order leaves every key with its last entry: a later
      assignment under a key replaces the earlier ones. */
  lemma {:induction false} AssignIsIndex<T>(keys: seq<Option<Id>>, xs: seq<T>)
    requires |keys| == |xs|
    ensures Assign(keys, xs) == Index(keys, xs)
  {
    if keys != [] {
      var n := |keys| - 1;
      AssignIsIndex(keys[..n], xs[..n]);
      var a := Assign(keys, xs);
      var x := Index(keys, xs);
      forall k | k in keys
        ensures a[k] == x[k]
      {
        if k != keys[n] {
          assert LastIndex(keys, k) == LastIndex(keys[..n], k);
        }
      }
      assert a == x;
    }
  }

  /** An entry no later entry shares its key with survives indexing. */
  lemma IndexLastWins<T>(keys: seq<Option<Id>>, xs: seq<T>, i: nat)
    requires |keys| == |xs| && i < |xs|
    requires forall j :: i < j < |xs| ==> keys[j] != keys[i]
    ensures keys[i] in Index(keys, xs) && Index(keys, xs)[keys[i]] == xs[i]
  {
    var k := LastIndex(keys, keys[i]);
    assert !(k > i);
  }

  /** `reload_docs`: rebuilds the document cache wholesale from the store;
      nothing else changes. */
  function ReloadDocs(m: State): (r: State)
    ensures r == m.(allDocIds := r.allDocIds, docIdToObj := r.docIdToObj)
  {
    var docs := Database.GetDocs(m.db);
    m.(allDocIds := DocIds(docs), docIdToObj := Assign(DocIds(docs), docs))
  }

  function GetCurrentDoc(m: State): (r: Option<Doc>)
    ensures r.Some? <==> m.currentDocId.Some? && m.currentDocId in m.docIdToObj
    ensures r.Some? ==> r.value == m.docIdToObj[m.currentDocId]
  {
    if m.currentDocId.None? || m.currentDocId !in m.docIdToObj then None
    else Some(m.docIdToObj[m.currentDocId])
  }

  function GetCurrentNote(m: State): (r: Option<Note>)
    ensures r.Some? <==> m.currentNoteId.Some? && m.currentNoteId in m.noteIdToObj
    ensures r.Some? ==> r.value == m.noteIdToObj[m.currentNoteId]
  {
    if m.currentNoteId.None? || m.currentNoteId !in m.noteIdToObj then None
    else Some(m.noteIdToObj[m.currentNoteId])
  }

  /** `reload_notes`: rebuilds the note cache from the notes stored under
      the current document; with no current document nothing changes. */
  function ReloadNotes(m: State): (r: State)
    ensures r == m.(allNoteIds := r.allNoteIds, noteIdToObj := r.noteIdToObj)
    ensures GetCurrentDoc(m).None? ==> r == m
    ensures GetCurrentDoc(m).Some? ==>
              var notes := Database.GetNotes(m.db, GetCurrentDoc(m).value.id);
              r.allNoteIds == NoteIds(notes) && r.noteIdToObj == Index(NoteIds(notes), notes)
  {
    match GetCurrentDoc(m)
    case None => m
    case Some(d) =>
      var notes := Database.GetNotes(m.db, d.id);
      AssignIsIndex(NoteIds(notes), notes);
      m.(allNoteIds := NoteIds(notes), noteIdToObj := Assign(NoteIds(notes), notes))
  }

  /** `get_docs`: the cached object for each cached id, in cache order. */
  function GetDocs(m: State): (r: seq<Option<Doc>>)
    ensures |r| == |m.allDocIds|
  {
    seq(|m.allDocIds|, i requires 0 <= i < |m.allDocIds| => GetDoc(m, m.allDocIds[i]))
  }

  function GetDoc(m: State, id: Option<Id>): Option<Doc> {
    if id in m.docIdToObj then Some(m.docIdToObj[id]) else None
  }

  function GetNote(m: State, id: Option<Id>): Option<Note> {
    if id in m.noteIdToObj then Some(m.noteIdToObj[id]) else None
  }

  /** The id list and the dictionary agree, and each cached object is
      filed under its own id. */
  ghost predicate DocsCoherent(m: State) {
    && (forall k :: k in m.docIdToObj <==> k in m.allDocIds)
    && (forall k :: k in m.docIdToObj ==> m.docIdToObj[k].id == k)
  }

  ghost predicate NotesCoherent(m: State) {
    && (forall k :: k in m.noteIdToObj <==> k in m.allNoteIds)
    && (forall k :: k in m.noteIdToObj ==> m.noteIdToObj[k].id == k)
  }

  lemma ReloadDocsCoherent(m: State)
    ensures DocsCoherent(ReloadDocs(m))
    ensures ReloadDocs(m).history == m.history && ReloadDocs(m).currentDocId == m.currentDocId
  {
    var docs := Database.GetDocs(m.db);
    AssignIsIndex(DocIds(docs), docs);
  }

  lemma ReloadNotesCoherent(m: State)
    requires NotesCoherent(m)
    ensures NotesCoherent(ReloadNotes(m))
  {
  }

  /** With a document current, `reload_notes` caches exactly the notes
      stored under it, in stored order, each found again under its own id. */
  lemma ReloadNotesMirrorsStore(m: State)
    requires Database.Valid(m.db) && GetCurrentDoc(m).Some?
    ensures var notes := Database.GetNotes(m.db, GetCurrentDoc(m).value.id);
            && |ReloadNotes(m).allNoteIds| == |notes|
            && (forall i :: 0 <= i < |notes| ==> ReloadNotes(m).allNoteIds[i] == notes[i].id)
            && (forall i :: 0 <= i < |notes| ==> GetNote(ReloadNotes(m), notes[i].id) == Some(notes[i]))
  {
    var notes := Database.GetNotes(m.db, GetCurrentDoc(m).value.id);
    forall i | 0 <= i < |notes|
      ensures GetNote(ReloadNotes(m), notes[i].id) == Some(notes[i])
    {
      ReloadedNote(m, notes, i);
    }
  }

  /** One position of the reloaded note cache: note ids are unique, so the
      dictionary keeps that note under its id. */
  lemma ReloadedNote(m: State, notes: seq<Note>, i: nat)
    requires Database.Valid(m.db) && GetCurrentDoc(m).Some?
    requires notes == Database.GetNotes(m.db, GetCurrentDoc(m).value.id) && i < |notes|
    ensures GetNote(ReloadNotes(m), notes[i].id) == Some(notes[i])
  {
    var keys := NoteIds(notes);
    assert Database.NoteIdsDistinct(notes);
    forall j | i < j < |keys|
      ensures keys[j] != keys[i]
    {
    }
    IndexLastWins(keys, notes, i);
  }

  /** After `reload_docs` the cached ids are the store's document ids in
      stream order, and `get_docs` yields the stored documents in that
      order. */
  lemma ReloadDocsMirrorsStore(m: State)
    requires Database.Valid(m.db)
    ensures |ReloadDocs(m).allDocIds| == |m.db.order|
    ensures forall i :: 0 <= i < |m.db.order| ==> ReloadDocs(m).allDocIds[i] == Some(m.db.order[i])
    ensures forall i :: 0 <= i < |m.db.order| ==>
              GetDocs(ReloadDocs(m))[i] == Some(Persisted(m.db.docs[m.db.order[i]], m.db.order[i]))
  {
    var r := ReloadDocs(m);
    Database.GetDocsInOrder(m.db);
    forall i | 0 <= i < |m.db.order|
      ensures r.allDocIds[i] == Some(m.db.order[i])
      ensures GetDocs(r)[i] == Some(Persisted(m.db.docs[m.db.order[i]], m.db.order[i]))
    {
      ReloadedEntry(m, i);
    }
  }

  /** One position of the reloaded cache: its id is the store's key there,
      and no later key repeats it, so the dictionary keeps that document. */
  lemma ReloadedEntry(m: State, i: nat)
    requires Database.Valid(m.db) && i < |m.db.order|
    requires |Database.GetDocs(m.db)| == |m.db.order|
    requires forall j :: 0 <= j < |m.db.order| ==>
               Database.GetDocs(m.db)[j] == Persisted(m.db.docs[m.db.order[j]], m.db.order[j])
    requires forall j :: 0 <= j < |m.db.order| ==> Database.GetDocs(m.db)[j].id == Some(m.db.order[j])
    ensures ReloadDocs(m).allDocIds[i] == Some(m.db.order[i])
    ensures GetDocs(ReloadDocs(m))[i] == Some(Persisted(m.db.docs[m.db.order[i]], m.db.order[i]))
  {
    var docs := Database.GetDocs(m.db);
    var keys := DocIds(docs);
    AssignIsIndex(keys, docs);
    assert keys[i] == Some(m.db.order[i]);
    forall j | i < j < |keys|
      ensures keys[j] != keys[i]
    {
      assert keys[j] == Some(m.db.order[j]);
      assert m.db.order[i] != m.db.order[j];
    }
    IndexLastWins(keys, docs, i);
  }

  // ---------------------------------------------------------------------
  // History

  /** `history_push`: appends the object's id; an object without an id
      leaves the history alone. */
  function HistoryPush(m: State, obj: Obj): (r: State)
    ensures obj.Id().None? ==> r == m
    ensures obj.Id().Some? ==> |r.history| == |m.history| + 1 && r.history[..|m.history|] == m.history
                               && r.history[|m.history|] == obj.Id().value
    ensures r == m.(history := r.history)
  {
    match obj.Id()
    case None => m
    case Some(id) => m.(history := m.history + [id])
  }

  /** The object an id in the history stands for: a cached document first,
      then a cached note, otherwise nothing (the id dangles). */
  function Resolve(m: State, id: Id): Option<Obj> {
    if Some(id) in m.allDocIds then
      (if Some(id) in m.docIdToObj then Some(DocObj(m.docIdToObj[Some(id)])) else None)
    else if Some(id) in m.allNoteIds then
      (if Some(id) in m.noteIdToObj then Some(NoteObj(m.noteIdToObj[Some(id)])) else None)
    else None
  }

  /** In a coherent cache an id resolves to the object filed under it,
      documents taking precedence over notes. */
  lemma ResolveCoherent(m: State, id: Id)
    requires DocsCoherent(m) && NotesCoherent(m)
    ensures Some(id) in m.docIdToObj ==> Resolve(m, id) == Some(DocObj(m.docIdToObj[Some(id)]))
    ensures Some(id) !in m.docIdToObj && Some(id) in m.noteIdToObj ==>
              Resolve(m, id) == Some(NoteObj(m.noteIdToObj[Some(id)]))
    ensures Some(id) !in m.docIdToObj && Some(id) !in m.noteIdToObj ==> Resolve(m, id).None?
    ensures Resolve(m, id).Some? ==> Resolve(m, id).value.Id() == Some(id)
  {
  }

  /** `history_pop`: removes the last id and resolves it. */
  function HistoryPop(m: State): (r: (State, Option<Obj>))
    ensures m.history == [] ==> r.0 == m && r.1.None?
    ensures m.history != [] ==> r.0 == m.(history := m.history[..|m.history| - 1])
    ensures m.history != [] ==> r.1 == Resolve(m, m.history[|m.history| - 1])
  {
    if m.history == [] then (m, None)
    else
      var n := |m.history| - 1;
      (m.(history := m.history[..n]), Resolve(m, m.history[n]))
  }

  /** Popping right after a push removes exactly the pushed id and
      resolves it against the cache. */
  lemma PushThenPop(m: State, obj: Obj)
    requires obj.Id().Some?
    ensures HistoryPop(HistoryPush(m, obj)).0 == m
    ensures HistoryPop(HistoryPush(m, obj)).1 == Resolve(m, obj.Id().value)
  {
    assert (m.history + [obj.Id().value])[..|m.history|] == m.history;
  }

  /** `history_head`: the resolution of the last id, history untouched. */
  function HistoryHead(m: State): Option<Obj> {
    if m.history == [] then None else Resolve(m, m.history[|m.history| - 1])
  }

  /** `history_head` reports what `history_pop` would return. */
  lemma HeadAgreesWithPop(m: State)
    ensures HistoryHead(m) == HistoryPop(m).1
  {
  }

  /** `history_delete_obj` with its evident intent: every occurrence of
      the object's id leaves the history. */
  function HistoryDeleteObj(m: State, obj: Obj): (r: State)
    ensures obj.Id().Some? ==> obj.Id().value !in r.history
    ensures forall id :: Some(id) != obj.Id() ==> Count(r.history, id) == Count(m.history, id)
    ensures r == m.(history := r.history)
  {
    match obj.Id()
    case None => m
    case Some(id) => m.(history := Without(m.history, id))
  }

  /** The ids that remain keep their relative order: deleting from a
      history made of two parts deletes from each part separately. */
  lemma HistoryDeleteKeepsOrder(m: State, obj: Obj, front: seq<Id>, back: seq<Id>)
    requires m.history == front + back && obj.Id().Some?
    ensures HistoryDeleteObj(m, obj).history == Without(front, obj.Id().value) + Without(back, obj.Id().value)
  {
    WithoutConcat(front, back, obj.Id().value);
  }

  /** `history_delete_obj` as written reads the undefined name `history`
      and so raises NameError for every input. */
  function HistoryDeleteObjAsWritten(m: State, obj: Obj): (r: Result<State>)
    ensures r == Err(NameError)
  {
    Err(NameError)
  }

  function HistoryReset(m: State): (r: State)
    ensures r.history == [] && r == m.(history := [])
  {
    m.(history := [])
  }

  // ---------------------------------------------------------------------
  // Current object

  /** `set_current_obj`: an unknown id (or no object) is refused and nothing
      changes. A known document becomes current, its notes are loaded, its
      id is pushed and the current note is cleared; a known note becomes
      the current note and its id is pushed. The cached object is returned,
      except that an object cached under no id is not found again. */
  function SetCurrentObj(m: State, obj: Option<Obj>): (r: (State, Option<Obj>))
    ensures obj.None? ==> r == (m, None)
    ensures obj.Some? && obj.value.DocObj? && obj.value.Id() !in m.docIdToObj ==> r == (m, None)
    ensures obj.Some? && obj.value.NoteObj? && obj.value.Id() !in m.noteIdToObj ==> r == (m, None)
    ensures obj.Some? && obj.value.DocObj? && obj.value.Id() in m.docIdToObj ==>
              && r.0.currentDocId == obj.value.Id()
              && r.0.currentNoteId.None?
              && r.0.history == m.history + (if obj.value.Id().Some? then [obj.value.Id().value] else [])
              && r.0.docIdToObj == m.docIdToObj && r.0.allDocIds == m.allDocIds && r.0.db == m.db
              && r.1 == (if obj.value.Id().Some? then Some(DocObj(m.docIdToObj[obj.value.Id()])) else None)
    ensures obj.Some? && obj.value.NoteObj? && obj.value.Id() in m.noteIdToObj ==>
              && r.0 == m.(currentNoteId := obj.value.Id(), history := r.0.history)
              && r.0.history == m.history + (if obj.value.Id().Some? then [obj.value.Id().value] else [])
              && r.1 == (if obj.value.Id().Some? then Some(NoteObj(m.noteIdToObj[obj.value.Id()])) else None)
  {
    match obj
    case None => (m, None)
    case Some(DocObj(d)) =>
      if d.id !in m.docIdToObj then (m, None)
      else
        var selected := ReloadNotes(m.(currentDocId := d.id));
        var pushed := HistoryPush(selected, DocObj(d)).(currentNoteId := None);
        (pushed, match GetCurrentDoc(pushed) case Some(c) => Some(DocObj(c)) case None => None)
    case Some(NoteObj(n)) =>
      if n.id !in m.noteIdToObj then (m, None)
      else
        var pushed := HistoryPush(m.(currentNoteId := n.id), NoteObj(n));
        (pushed, match GetCurrentNote(pushed) case Some(c) => Some(NoteObj(c)) case None => None)
  }

  /** Selecting a document loads exactly the notes stored under it. */
  lemma SetCurrentDocLoadsItsNotes(m: State, d: Doc)
    requires d.id in m.docIdToObj
    ensures d.id.Some? ==> SetCurrentObj(m, Some(DocObj(d))).0.allNoteIds
                           == NoteIds(Database.GetNotes(m.db, m.docIdToObj[d.id].id))
    ensures d.id.None? ==> SetCurrentObj(m, Some(DocObj(d))).0.allNoteIds == m.allNoteIds
  {
  }

  /** `history_back`: pops the current entry and then the one before it,
      and makes the latter current again (which pushes it back). With one
      resolvable entry only, that entry is restored and nothing is
      returned. */
  function HistoryBack(m: State): (r: (State, Option<Obj>))
  {
    var (m1, cur) := HistoryPop(m);
    if cur.None? then (m1, None)
    else
      var (m2, prev) := HistoryPop(m1);
      if prev.None? then (SetCurrentObj(m2, cur).0, None)
      else (SetCurrentObj(m2, prev).0, prev)
  }

  /** For a history ending in two resolvable ids `[..., p, c]`, going back
      returns `p`'s object and leaves `[..., p]`. */
  lemma HistoryBackReturnsPrevious(m: State)
    requires DocsCoherent(m) && NotesCoherent(m)
    requires |m.history| >= 2
    requires Resolve(m, m.history[|m.history| - 1]).Some?
    requires Resolve(m, m.history[|m.history| - 2]).Some?
    ensures HistoryBack(m).1 == Resolve(m, m.history[|m.history| - 2])
    ensures HistoryBack(m).0.history == m.history[..|m.history| - 1]
  {
    var n := |m.history|;
    var p := m.history[n - 2];
    ResolveCoherent(m, p);
    var m1 := HistoryPop(m).0;
    assert m1.history[|m1.history| - 1] == p;
    var m2 := HistoryPop(m1).0;
    assert m2.history + [p] == m.history[..n - 1];
  }

  /** With a single resolvable entry, going back stays where it is: the
      entry is pushed back and nothing is returned. */
  lemma HistoryBackAtStart(m: State)
    requires DocsCoherent(m) && NotesCoherent(m)
    requires |m.history| == 1 && Resolve(m, m.history[0]).Some?
    ensures HistoryBack(m).1.None?
    ensures HistoryBack(m).0.history == m.history
  {
    ResolveCoherent(m, m.history[0]);
    assert [] + [m.history[0]] == m.history;
  }

  // ---------------------------------------------------------------------
  // Deletion

  /** `delete_doc` with `history_delete_obj` as intended: a document the
      cache does not list is refused; otherwise the store deletes it, its
      id leaves the history and the document cache is reloaded. The
      current document id is not cleared. */
  function DeleteDoc(m: State, doc: Option<Doc>): (r: Outcome<State, bool>)
    ensures doc.None? || doc.value.id !in m.allDocIds ==> r == Done(m, false)
    ensures r.Done? && r.value && doc.value.id.Some? ==>
              && doc.value.id.value !in r.state.history
              && doc.value.id !in r.state.docIdToObj
              && doc.value.id !in r.state.allDocIds
    ensures r.Done? && r.value ==> forall id :: Some(id) != doc.value.id ==> Count(r.state.history, id) == Count(m.history, id)
    ensures r.state.currentDocId == m.currentDocId
    ensures doc.Some? && doc.value.id in m.allDocIds ==>
              && r.state.db == Database.DeleteDoc(m.db, doc.value).state
              && (r.Done? <==> Database.DeleteDoc(m.db, doc.value).Done?)
              && (r.Done? ==> r.value)
    ensures r.Done? && r.value ==> DocsCoherent(r.state) && r.state.allDocIds == DocIds(Database.GetDocs(r.state.db))
  {
    if doc.None? || doc.value.id !in m.allDocIds then Done(m, false)
    else
      match Database.DeleteDoc(m.db, doc.value)
      case Crashed(db, f) => Crashed(m.(db := db), f)
      case Done(db, _) =>
        var r := ReloadDocs(HistoryDeleteObj(m.(db := db), DocObj(doc.value)));
        assert forall k :: k in r.allDocIds ==> k.Some? && k.value in db.docs;
        ReloadDocsCoherent(HistoryDeleteObj(m.(db := db), DocObj(doc.value)));
        Done(r, true)
  }

  /** Each key of `order` as the optional id a cached document carries. */
  function Lifted(order: seq<Id>): (r: seq<Option<Id>>)
    ensures |r| == |order| && forall i :: 0 <= i < |order| ==> r[i] == Some(order[i])
  {
    if order == [] then [] else [Some(order[0])] + Lifted(order[1..])
  }

  lemma {:induction false} LiftedWithout(order: seq<Id>, k: Id)
    ensures Lifted(Without(order, k)) == Without(Lifted(order), Some(k))
  {
    if order != [] {
      LiftedWithout(order[1..], k);
      assert Lifted(order)[1..] == Lifted(order[1..]);
    }
  }

  /** A freshly loaded cache of a consistent store lists its keys in
      stream order. */
  lemma FreshIds(s: Database.Store)
    requires Database.Valid(s)
    ensures DocIds(Database.GetDocs(s)) == Lifted(s.order)
  {
    Database.GetDocsInOrder(s);
  }

  /** Deleting a listed document from a freshly loaded cache succeeds
      when its authors are stored, and leaves the cached ids with exactly
      its id removed, the others in their order. */
  lemma DeleteDocDropsFromCache(m: State, d: Doc)
    requires Database.Valid(m.db) && m.allDocIds == DocIds(Database.GetDocs(m.db))
    requires d.id.Some? && d.id in m.allDocIds && Database.Enough(m.db.authors, d.authors)
    ensures DeleteDoc(m, Some(d)) == Done(DeleteDoc(m, Some(d)).state, true)
    ensures DeleteDoc(m, Some(d)).state.allDocIds == Without(m.allDocIds, d.id)
  {
    var db := Database.DeleteDoc(m.db, d).state;
    Database.DeleteDocKeepsValid(m.db, d);
    FreshIds(m.db);
    FreshIds(db);
    LiftedWithout(m.db.order, d.id.value);
  }

  /** `delete_doc` as written: once the store has deleted the document the
      call to `history_delete_obj` raises NameError, so the history keeps
      the deleted id and the cache is not reloaded. */
  function DeleteDocAsWritten(m: State, doc: Option<Doc>): (r: Outcome<State, bool>)
  {
    if doc.None? || doc.value.id !in m.allDocIds then Done(m, false)
    else
      match Database.DeleteDoc(m.db, doc.value)
      case Crashed(db, f) => Crashed(m.(db := db), f)
      case Done(db, _) =>
        match HistoryDeleteObjAsWritten(m.(db := db), DocObj(doc.value))
        case Err(f) => Crashed(m.(db := db), f)
        case Ok(h) => Done(ReloadDocs(h), true)
  }

  /** Deleting a visited document as written leaves its id in the history
      and raises, where the intended version removes the id and succeeds. */
  lemma DeleteDocAsWrittenKeepsDeletedId(m: State, d: Doc)
    requires d.id.Some? && d.id in m.allDocIds && d.id.value in m.history
    requires Database.Enough(m.db.authors, d.authors)
    ensures DeleteDocAsWritten(m, Some(d)) == Crashed(DeleteDocAsWritten(m, Some(d)).state, NameError)
    ensures d.id.value in DeleteDocAsWritten(m, Some(d)).state.history
    ensures DeleteDoc(m, Some(d)).Done? && d.id.value !in DeleteDoc(m, Some(d)).state.history
  {
  }

  /** `delete_note` with the evident argument: the store deletes the note,
      its id leaves the history and both caches are reloaded. */
  function DeleteNote(m: State, note: Note, doc: Doc): (r: State)
    ensures note.id.Some? ==> note.id.value !in r.history
    ensures forall id :: Some(id) != note.id ==> Count(r.history, id) == Count(m.history, id)
    ensures r.db == Database.DeleteNote(m.db, doc.id, note.id).0
    ensures r.currentDocId == m.currentDocId && r.currentNoteId == m.currentNoteId
    ensures DocsCoherent(r) && r.allDocIds == DocIds(Database.GetDocs(r.db))
    ensures GetCurrentDoc(r).Some? ==> r.allNoteIds == NoteIds(Database.GetNotes(r.db, GetCurrentDoc(r).value.id))
    ensures GetCurrentDoc(r).None? ==> r.allNoteIds == m.allNoteIds && r.noteIdToObj == m.noteIdToObj
  {
    var db := Database.DeleteNote(m.db, doc.id, note.id).0;
    var reloaded := ReloadDocs(HistoryDeleteObj(m.(db := db), NoteObj(note)));
    ReloadDocsCoherent(HistoryDeleteObj(m.(db := db), NoteObj(note)));
    ReloadNotes(reloaded)
  }

  /** `delete_note` as written passes the undefined name `note_ob` and
      raises NameError before anything changes. */
  function DeleteNoteAsWritten(m: State, note: Note, doc: Doc): (r: Outcome<State, bool>)
    ensures r == Crashed(m, NameError)
  {
    Crashed(m, NameError)
  }
}
