/**
  The navigation state of the interactive shell: the cached documents and
  the notes of the current document, the current document, the notes one
  level below the current position (`childNotes`) with a browsing cursor,
  the stack of notes descended into (`noteHistory`) and the stack of
  documents left by following a link (`linkHistory`). Prompting and
  printing are not modelled; an answer typed at a prompt is a parameter.
 */
module Litreview {
  import opened Base
  import opened DocumentTypes
  import Database

  /** `childNotes` is `None` after `get_child_notes` found no current
      document (the Python attribute then holds `None`). */
  datatype Shell = Shell(
    db: Database.Store,
    allDocs: seq<Doc>,
    allNotes: seq<Note>,
    currentDoc: Option<Doc>,
    childNotes: Option<seq<Note>>,
    childNoteIndex: nat,
    noteHistory: seq<Note>,
    linkHistory: seq<Doc>)

  /** `str.isnumeric()` followed by `int()`, for ASCII digits. */
  predicate IsNumeric(s: string) {
    |s| > 0 && AllDigits(s)
  }

  // ---------------------------------------------------------------------
  // Current position

  /** `reset`: back to the top level with no document selected; the link
      history and the document cache survive. */
  function Reset(sh: Shell): (r: Shell)
    ensures r.currentDoc.None? && r.noteHistory == [] && r.allNotes == []
    ensures r.childNotes == Some([]) && r.childNoteIndex == 0
    ensures r.linkHistory == sh.linkHistory && r.allDocs == sh.allDocs && r.db == sh.db
  {
    sh.(currentDoc := None, childNotes := Some([]), childNoteIndex := 0, noteHistory := [], allNotes := [])
  }

  /** `reload_notes`: the notes stored under the current document. */
  function ReloadNotes(sh: Shell): (r: Shell)
    ensures sh.currentDoc.None? ==> r == sh
    ensures sh.currentDoc.Some? ==> r == sh.(allNotes := Database.GetNotes(sh.db, sh.currentDoc.value.id))
  {
    match sh.currentDoc
    case None => sh
    case Some(d) => sh.(allNotes := Database.GetNotes(sh.db, d.id))
  }

  /** Position of the first cached document carrying `id`. */
  function FirstIdIndex(docs: seq<Doc>, id: Option<Id>): (r: Option<nat>)
    ensures r.None? <==> forall i :: 0 <= i < |docs| ==> docs[i].id != id
    ensures r.Some? ==> r.value < |docs| && docs[r.value].id == id
    ensures r.Some? ==> forall j :: 0 <= j < r.value ==> docs[j].id != id
  {
    if docs == [] then None
    else if docs[0].id == id then Some(0)
    else
      match FirstIdIndex(docs[1..], id)
      case None => None
      case Some(i) => Some(i + 1)
  }

  /** The first cached document carrying `id` (`matching_docs[0]`). */
  function FirstWithId(docs: seq<Doc>, id: Option<Id>): (r: Option<Doc>)
    ensures r.None? <==> forall d :: d in docs ==> d.id != id
    ensures r.Some? ==> FirstIdIndex(docs, id).Some? && r.value == docs[FirstIdIndex(docs, id).value]
    ensures r.Some? ==> r.value in docs && r.value.id == id
  {
    match FirstIdIndex(docs, id)
    case None => None
    case Some(i) => Some(docs[i])
  }

  /** `set_current_doc`: a cached document becomes current as it is; any
      other object selects the first cached document with the same id; with
      no such document nothing changes. A selection reloads the notes of
      the new current document. Python compares objects by identity here;
      the model compares values, which agrees whenever cached ids are
      distinct. */
  function SetCurrentDoc(sh: Shell, obj: Option<Obj>): (r: Shell)
    ensures obj.None? ==> r == sh
    ensures obj.Some? && obj.value.DocObj? && obj.value.doc in sh.allDocs ==>
              r.currentDoc == Some(obj.value.doc)
    ensures obj.Some? && !(obj.value.DocObj? && obj.value.doc in sh.allDocs) ==>
              r.currentDoc == (if FirstWithId(sh.allDocs, obj.value.Id()).Some? then FirstWithId(sh.allDocs, obj.value.Id())
                               else sh.currentDoc)
    ensures obj.Some? && (forall d :: d in sh.allDocs ==> d.id != obj.value.Id()) ==> r == sh
    ensures obj.Some? && r != sh ==>
              && r.currentDoc.Some? && r.currentDoc.value in sh.allDocs && r.currentDoc.value.id == obj.value.Id()
              && r == sh.(currentDoc := r.currentDoc, allNotes := Database.GetNotes(sh.db, obj.value.Id()))
    ensures r.noteHistory == sh.noteHistory && r.linkHistory == sh.linkHistory && r.allDocs == sh.allDocs
  {
    match obj
    case None => sh
    case Some(o) =>
      if o.DocObj? && o.doc in sh.allDocs then ReloadNotes(sh.(currentDoc := Some(o.doc)))
      else
        match FirstWithId(sh.allDocs, o.Id())
        case Some(d) => ReloadNotes(sh.(currentDoc := Some(d)))
        case None => sh
  }

  /** Selecting the current document again changes nothing: its notes are
      already the ones loaded. */
  lemma SetCurrentDocIdempotent(sh: Shell, obj: Option<Obj>)
    requires SetCurrentDoc(sh, obj).currentDoc.Some?
    requires SetCurrentDoc(sh, obj) != sh
    ensures var r := SetCurrentDoc(sh, obj);
            SetCurrentDoc(r, Some(DocObj(r.currentDoc.value))) == r
  {
  }

  /** `get_current_note`: the last note descended into, if any. */
  function GetCurrentNote(sh: Shell): (r: Option<Note>)
    ensures r.None? <==> sh.noteHistory == []
    ensures r.Some? ==> r.value == sh.noteHistory[|sh.noteHistory| - 1]
  {
    if sh.noteHistory == [] then None else Some(sh.noteHistory[|sh.noteHistory| - 1])
  }

  function CurrentDocId(sh: Shell): Option<Id> {
    match sh.currentDoc
    case None => None
    case Some(d) => d.id
  }

  /** The id whose children make up the current level: the current note,
      or the current document at the top. */
  function LevelId(sh: Shell): Option<Id> {
    match GetCurrentNote(sh)
    case Some(n) => n.id
    case None => CurrentDocId(sh)
  }

  // ---------------------------------------------------------------------
  // Child notes

  /** The cached notes attached to `target`, in cache order. */
  function ChildrenOf(notes: seq<Note>, target: Option<Id>): (r: seq<Note>)
    ensures forall n :: n in r <==> n in notes && Some(n.refId) == target
  {
    if notes == [] then []
    else (if Some(notes[0].refId) == target then [notes[0]] else []) + ChildrenOf(notes[1..], target)
  }

  /** The child notes are exactly the cached notes attached to the target,
      each as often as it is cached. */
  lemma {:induction false} ChildrenOfCounts(notes: seq<Note>, target: Option<Id>)
    ensures forall n :: multiset(ChildrenOf(notes, target))[n] == if Some(n.refId) == target then multiset(notes)[n] else 0
  {
    if notes != [] {
      ChildrenOfCounts(notes[1..], target);
      assert notes == [notes[0]] + notes[1..];
    }
  }

  /** `get_child_notes` with the cache order kept: without a current
      document there is no answer; otherwise the notes attached to
      `target`, with the browsing cursor back at the start. The caller
      stores the answer in `childNotes`. */
  function GetChildNotes(sh: Shell, target: Option<Id>): (r: (Shell, Option<seq<Note>>))
    ensures sh.currentDoc.None? ==> r == (sh, None)
    ensures sh.currentDoc.Some? ==> r.0 == sh.(childNoteIndex := 0)
    ensures sh.currentDoc.Some? ==> r.1 == Some(ChildrenOf(sh.allNotes, target))
  {
    if sh.currentDoc.None? then (sh, None)
    else (sh.(childNoteIndex := 0), Some(ChildrenOf(sh.allNotes, target)))
  }

  /** `get_child_notes` as written sorts the list, and notes define no
      ordering, so two or more children raise TypeError before the cursor
      is reset. */
  function GetChildNotesAsWritten(sh: Shell, target: Option<Id>): (r: Outcome<Shell, Option<seq<Note>>>)
  {
    if sh.currentDoc.None? then Done(sh, None)
    else
      var children := ChildrenOf(sh.allNotes, target);
      if |children| >= 2 then Crashed(sh, TypeError)
      else Done(sh.(childNoteIndex := 0), Some(children))
  }

  /** The sort can only succeed on lists it does not need to compare, and
      a note with two children exhibits the crash; the corrected version
      answers with both children. */
  lemma SortRaisesOnSiblings(sh: Shell, target: Option<Id>)
    requires sh.currentDoc.Some?
    ensures |ChildrenOf(sh.allNotes, target)| >= 2 <==> GetChildNotesAsWritten(sh, target).Crashed?
    ensures GetChildNotesAsWritten(sh, target).Done? ==>
              GetChildNotesAsWritten(sh, target) == Done(GetChildNotes(sh, target).0, GetChildNotes(sh, target).1)
  {
  }

  /** A concrete document with two notes attached to it. */
  lemma TwoSiblingsCrash()
    ensures var n1 := Note("d", "quote", "a", Some("n1"), None);
            var n2 := Note("d", "quote", "b", Some("n2"), None);
            var sh := Shell(Database.Store([], map[], map[], map[]), [], [n1, n2],
                            Some(Doc("docs", "t", [], None, None, Some([]), Some([]), Some("d"))),
                            Some([]), 0, [], []);
            && GetChildNotesAsWritten(sh, Some("d")) == Crashed(sh, TypeError)
            && GetChildNotes(sh, Some("d")).1 == Some([n1, n2])
  {
    var n1 := Note("d", "quote", "a", Some("n1"), None);
    var n2 := Note("d", "quote", "b", Some("n2"), None);
    assert ChildrenOf([n1, n2], Some("d")) == [n1, n2] by {
      assert [n1, n2][1..] == [n2];
    }
  }

  /** The shell is positioned on a level: a document is current and the
      child notes are those of the current note, or of the document at the
      top. */
  ghost predicate AtLevel(sh: Shell) {
    sh.currentDoc.Some? && sh.childNotes == Some(ChildrenOf(sh.allNotes, LevelId(sh)))
  }

  // ---------------------------------------------------------------------
  // Going back

  /** `pop_note`: leaves the current note for its parent level. */
  function PopNote(sh: Shell): (r: Shell)
    ensures sh.noteHistory == [] ==> r == sh
    ensures sh.noteHistory != [] ==>
              && r.noteHistory == sh.noteHistory[..|sh.noteHistory| - 1]
              && r.currentDoc == sh.currentDoc && r.allNotes == sh.allNotes
              && r.linkHistory == sh.linkHistory && r.allDocs == sh.allDocs
    ensures sh.noteHistory != [] && sh.currentDoc.Some? ==> AtLevel(r) && r.childNoteIndex == 0
    ensures sh.noteHistory != [] && sh.currentDoc.None? ==> r.childNotes.None?
  {
    if sh.noteHistory == [] then sh
    else
      var popped := sh.(noteHistory := sh.noteHistory[..|sh.noteHistory| - 1]);
      var (next, children) := GetChildNotes(popped, LevelId(popped));
      next.(childNotes := children)
  }

  /** `pop_link`: returns to the document left by the last followed link,
      at its top level. */
  function PopLink(sh: Shell): (r: Shell)
    ensures sh.linkHistory == [] ==> r == sh
    ensures sh.linkHistory != [] ==>
              && r.linkHistory == sh.linkHistory[..|sh.linkHistory| - 1]
              && r.noteHistory == [] && r.allDocs == sh.allDocs
    ensures sh.linkHistory != [] && sh.linkHistory[|sh.linkHistory| - 1] in sh.allDocs ==>
              r.currentDoc == Some(sh.linkHistory[|sh.linkHistory| - 1]) && AtLevel(r)
    ensures sh.linkHistory != [] && sh.linkHistory[|sh.linkHistory| - 1] !in sh.allDocs
            && FirstWithId(sh.allDocs, sh.linkHistory[|sh.linkHistory| - 1].id).Some? ==>
              r.currentDoc == FirstWithId(sh.allDocs, sh.linkHistory[|sh.linkHistory| - 1].id) && AtLevel(r)
    ensures sh.linkHistory != [] && (forall d :: d in sh.allDocs ==> d.id != sh.linkHistory[|sh.linkHistory| - 1].id) ==>
              r.currentDoc.None? && r.childNotes.None?
  {
    if sh.linkHistory == [] then sh
    else
      var back := sh.linkHistory[|sh.linkHistory| - 1];
      var cleared := Reset(sh).(linkHistory := sh.linkHistory[..|sh.linkHistory| - 1]);
      var selected := SetCurrentDoc(cleared, Some(DocObj(back)));
      var (next, children) := GetChildNotes(selected, CurrentDocId(selected));
      next.(childNotes := children)
  }

  datatype PopArg = NoteArg | DocArg | OtherArg

  /** `do_pop`: `note` and `doc` name the stack to pop; anything else pops
      a note while there is one, then a link. */
  function DoPop(sh: Shell, arg: PopArg): (r: Shell)
    ensures arg == OtherArg && sh.noteHistory != [] ==>
              r.noteHistory == sh.noteHistory[..|sh.noteHistory| - 1] && r.linkHistory == sh.linkHistory
    ensures arg == OtherArg && sh.noteHistory == [] && sh.linkHistory != [] ==>
              r.linkHistory == sh.linkHistory[..|sh.linkHistory| - 1] && r.noteHistory == []
    ensures arg == OtherArg && sh.noteHistory == [] && sh.linkHistory == [] ==> r == sh
    ensures arg == NoteArg ==> r == PopNote(sh)
    ensures arg == DocArg ==> r == PopLink(sh)
  {
    match arg
    case NoteArg => PopNote(sh)
    case DocArg => PopLink(sh)
    case OtherArg =>
      if sh.noteHistory != [] then PopNote(sh)
      else if sh.linkHistory != [] then PopLink(sh)
      else sh
  }

  // ---------------------------------------------------------------------
  // Descending

  /** The loop of `do_select_note`: each index must address the current
      level, which then becomes the children of the note it selects. A bad
      index restores the child notes held on entry (`backup`) and yields no
      note; the cursor keeps whatever the steps before it set. Testing a
      number against a missing list raises TypeError. */
  function Walk(sh: Shell, path: seq<string>, backup: Option<seq<Note>>, reached: Option<Note>): (r: Outcome<Shell, Option<Note>>)
    ensures r.state == sh.(childNotes := r.state.childNotes, childNoteIndex := r.state.childNoteIndex)
    ensures r.Done? && r.value.None? && path != [] ==> r.state.childNotes == backup
    ensures r.Done? && r.value.Some? && path != [] && sh.currentDoc.Some? ==>
              r.state.childNotes == Some(ChildrenOf(sh.allNotes, r.value.value.id))
    decreases |path|
  {
    if path == [] then Done(sh, reached)
    else if !IsNumeric(path[0]) then Done(sh.(childNotes := backup), None)
    else
      match sh.childNotes
      case None => Crashed(sh, TypeError)
      case Some(level) =>
        var k := DigitsValue(path[0]);
        if k >= |level| then Done(sh.(childNotes := backup), None)
        else
          var note := level[k];
          var (next, children) := GetChildNotes(sh, note.id);
          Walk(next.(childNotes := children), path[1..], backup, Some(note))
  }

  /** `do_select_note`: an empty command line reads one index from the
      prompt (`prompted`, `None` at end of input). A path that walks
      through valid indices pushes only the last note reached. */
  function DoSelectNote(sh: Shell, path: seq<string>, prompted: Option<string>): (r: Outcome<Shell, bool>)
    ensures r.Done? && !r.value ==> r.state.noteHistory == sh.noteHistory && r.state.childNotes == sh.childNotes
    ensures r.Done? && r.value ==> |r.state.noteHistory| == |sh.noteHistory| + 1
                                   && r.state.noteHistory[..|sh.noteHistory|] == sh.noteHistory
    ensures r.state.currentDoc == sh.currentDoc && r.state.linkHistory == sh.linkHistory
  {
    var tokens := if path != [] then path else if prompted.Some? then [prompted.value] else [];
    if tokens == [] then Done(sh, false)
    else
      match Walk(sh, tokens, sh.childNotes, None)
      case Crashed(s, f) => Crashed(s, f)
      case Done(s, None) => Done(s, false)
      case Done(s, Some(note)) =>
        assert (s.noteHistory + [note])[..|sh.noteHistory|] == sh.noteHistory;
        Done(s.(noteHistory := s.noteHistory + [note]), true)
  }

  /** The note a path of indices designates, read against the cached notes
      alone: each index selects among the children of the previous
      selection, starting from `level`. */
  function Follow(notes: seq<Note>, level: seq<Note>, path: seq<string>): Option<Note>
    requires |path| > 0
    decreases |path|
  {
    if !IsNumeric(path[0]) || DigitsValue(path[0]) >= |level| then None
    else if |path| == 1 then Some(level[DigitsValue(path[0])])
    else Follow(notes, ChildrenOf(notes, level[DigitsValue(path[0])].id), path[1..])
  }

  lemma {:induction false} WalkFollows(sh: Shell, path: seq<string>, backup: Option<seq<Note>>, reached: Option<Note>)
    requires sh.currentDoc.Some? && sh.childNotes.Some? && |path| > 0
    ensures Walk(sh, path, backup, reached).Done?
    ensures Walk(sh, path, backup, reached).value == Follow(sh.allNotes, sh.childNotes.value, path)
    decreases |path|
  {
    if IsNumeric(path[0]) && DigitsValue(path[0]) < |sh.childNotes.value| && |path| > 1 {
      var note := sh.childNotes.value[DigitsValue(path[0])];
      var (next, children) := GetChildNotes(sh, note.id);
      WalkFollows(next.(childNotes := children), path[1..], backup, Some(note));
    }
  }

  /** With a document selected, selecting a path succeeds exactly when the
      path designates a note, pushes that note and no other, and otherwise
      leaves the note history and the child notes as they were. */
  lemma SelectNoteFollowsPath(sh: Shell, path: seq<string>, prompted: Option<string>)
    requires sh.currentDoc.Some? && sh.childNotes.Some?
    requires path != [] || prompted.Some?
    ensures var tokens := if path != [] then path else [prompted.value];
            var r := DoSelectNote(sh, path, prompted);
            && r.Done?
            && (r.value <==> Follow(sh.allNotes, sh.childNotes.value, tokens).Some?)
            && (r.value ==> r.state.noteHistory == sh.noteHistory + [Follow(sh.allNotes, sh.childNotes.value, tokens).value])
            && (!r.value ==> r.state.noteHistory == sh.noteHistory && r.state.childNotes == sh.childNotes)
  {
    var tokens := if path != [] then path else [prompted.value];
    WalkFollows(sh, tokens, sh.childNotes, None);
  }

  /** Descending keeps the shell positioned on a level, and popping right
      after a successful descent returns to the level it started from. */
  lemma SelectThenPop(sh: Shell, path: seq<string>, prompted: Option<string>)
    requires AtLevel(sh)
    ensures DoSelectNote(sh, path, prompted).Done?
    ensures AtLevel(DoSelectNote(sh, path, prompted).state)
    ensures DoSelectNote(sh, path, prompted).value ==>
              && PopNote(DoSelectNote(sh, path, prompted).state).noteHistory == sh.noteHistory
              && PopNote(DoSelectNote(sh, path, prompted).state).childNotes == sh.childNotes
  {
    var tokens := if path != [] then path else if prompted.Some? then [prompted.value] else [];
    if tokens != [] {
      WalkFollows(sh, tokens, sh.childNotes, None);
      var r := DoSelectNote(sh, path, prompted);
      if r.value {
        var s := PopNote(r.state);
        assert r.state.noteHistory[..|r.state.noteHistory| - 1] == sh.noteHistory;
        assert LevelId(s) == LevelId(sh);
      }
    }
  }

  // ---------------------------------------------------------------------
  // Browsing the current level

  /** `do_get_next_note`: shows the note under the cursor and advances it,
      starting over once it has passed the end. A missing list raises
      TypeError; an empty one shows nothing. */
  function DoGetNextNote(sh: Shell): (r: Outcome<Shell, Option<Note>>)
    ensures sh.childNotes.None? ==> r == Crashed(sh, TypeError)
    ensures sh.childNotes == Some([]) ==> r == Done(sh, None)
    ensures sh.childNotes.Some? && sh.childNotes.value != [] ==>
              && r.Done? && r.value.Some?
              && 1 <= r.state.childNoteIndex <= |sh.childNotes.value|
              && r.value.value == sh.childNotes.value[r.state.childNoteIndex - 1]
              && r.state == sh.(childNoteIndex := r.state.childNoteIndex)
    ensures sh.childNotes.Some? && sh.childNoteIndex < |sh.childNotes.value| ==>
              r.state.childNoteIndex == sh.childNoteIndex + 1
    ensures sh.childNotes.Some? && sh.childNotes.value != [] && sh.childNoteIndex >= |sh.childNotes.value| ==>
              r.state.childNoteIndex == 1
  {
    match sh.childNotes
    case None => Crashed(sh, TypeError)
    case Some(level) =>
      if level == [] then Done(sh, None)
      else
        var i := if sh.childNoteIndex >= |level| then 0 else sh.childNoteIndex;
        Done(sh.(childNoteIndex := i + 1), Some(level[i]))
  }

  /** The notes shown by `k` successive `get_next_note` commands. */
  function ShownBy(sh: Shell, k: nat): seq<Note>
    decreases k
  {
    if k == 0 then []
    else
      match DoGetNextNote(sh)
      case Done(next, Some(note)) => [note] + ShownBy(next, k - 1)
      case _ => []
  }

  /** From cursor `i`, browsing to the end shows the rest of the level in
      order; from the start, it shows the whole level once. */
  lemma {:induction false} BrowseShowsLevel(sh: Shell)
    requires sh.childNotes.Some? && sh.childNoteIndex <= |sh.childNotes.value|
    ensures ShownBy(sh, |sh.childNotes.value| - sh.childNoteIndex) == sh.childNotes.value[sh.childNoteIndex..]
    decreases |sh.childNotes.value| - sh.childNoteIndex
  {
    if sh.childNoteIndex < |sh.childNotes.value| {
      var next := DoGetNextNote(sh).state;
      BrowseShowsLevel(next);
      assert sh.childNotes.value[sh.childNoteIndex..]
          == [sh.childNotes.value[sh.childNoteIndex]] + sh.childNotes.value[sh.childNoteIndex + 1..];
    }
  }

  // ---------------------------------------------------------------------
  // Following links

  /** Position in `docs` of the last document carrying `id`. */
  function LastMatch(docs: seq<Doc>, id: Id): (r: Option<nat>)
    ensures r.None? <==> forall m :: 0 <= m < |docs| ==> docs[m].id != Some(id)
    ensures r.Some? ==> r.value < |docs| && docs[r.value].id == Some(id)
    ensures r.Some? ==> forall m :: r.value < m < |docs| ==> docs[m].id != Some(id)
  {
    if docs == [] then None
    else if docs[|docs| - 1].id == Some(id) then Some(|docs| - 1)
    else LastMatch(docs[..|docs| - 1], id)
  }

  /** The menu of `get_links`: entry `p` (counting the outlinks, then the
      inlinks) leads to the position of the last cached document carrying
      the `p`-th link id; see `LinkIndexEntries`. */
  function LinkIndex(links: seq<Id>, docs: seq<Doc>): map<nat, nat>
    decreases |links|
  {
    if links == [] then map[]
    else
      var p := |links| - 1;
      PartialEntry(LinkIndex(links[..p], docs), p, LastMatch(docs, links[p]))
  }

  /** Every menu entry leads to a cached document carrying its link id, and
      to the last such document; an id carried by no document gets no
      entry, and every other one does. */
  lemma {:induction false} LinkIndexEntries(links: seq<Id>, docs: seq<Doc>)
    ensures var r := LinkIndex(links, docs);
            && (forall p :: p in r ==> p < |links| && r[p] < |docs| && docs[r[p]].id == Some(links[p]))
            && (forall p, m :: p in r && r[p] < m < |docs| ==> docs[m].id != Some(links[p]))
            && (forall p :: 0 <= p < |links| && LastMatch(docs, links[p]).Some? ==> p in r)
    decreases |links|
  {
    if links != [] {
      var p := |links| - 1;
      var prefix := links[..p];
      LinkIndexEntries(prefix, docs);
      var r0 := LinkIndex(prefix, docs);
      var found := LastMatch(docs, links[p]);
      var r := LinkIndex(links, docs);
      assert r == PartialEntry(r0, p, found);
      forall q | q in r
        ensures q < |links| && r[q] < |docs| && docs[r[q]].id == Some(links[q])
        ensures forall m :: r[q] < m < |docs| ==> docs[m].id != Some(links[q])
      {
        if q != p {
          assert q in r0 && r[q] == r0[q] && prefix[q] == links[q];
        }
      }
      forall q | 0 <= q < |links| && LastMatch(docs, links[q]).Some?
        ensures q in r
      {
        if q != p {
          assert prefix[q] == links[q];
        }
      }
    }
  }

  /** Exactly the link ids some cached document carries get an entry. */
  lemma LinkIndexComplete(links: seq<Id>, docs: seq<Doc>, p: nat)
    requires p < |links|
    ensures p in LinkIndex(links, docs) <==> exists m :: 0 <= m < |docs| && docs[m].id == Some(links[p])
  {
    LinkIndexEntries(links, docs);
  }

  /** The nested loops of `get_links` that fill the menu: every cached
      document matching a link id overwrites the entry, so the last one
      wins. */
  method LinkIndexMap(links: seq<Id>, docs: seq<Doc>) returns (index: map<nat, nat>)
    ensures index == LinkIndex(links, docs)
  {
    index := map[];
    var p := 0;
    while p < |links|
      invariant 0 <= p <= |links|
      invariant index == LinkIndex(links[..p], docs)
    {
      var m := 0;
      while m < |docs|
        invariant 0 <= m <= |docs|
        invariant index == PartialEntry(LinkIndex(links[..p], docs), p, LastMatch(docs[..m], links[p]))
      {
        LastMatchStep(docs, m, links[p]);
        if docs[m].id == Some(links[p]) {
          index := index[p := m];
        }
        m := m + 1;
      }
      assert docs[..m] == docs;
      LinkIndexStep(links, docs, p);
      p := p + 1;
    }
    assert links[..p] == links;
  }

  lemma LastMatchStep(docs: seq<Doc>, m: nat, id: Id)
    requires m < |docs|
    ensures LastMatch(docs[..m + 1], id) == if docs[m].id == Some(id) then Some(m) else LastMatch(docs[..m], id)
  {
    assert docs[..m + 1][..m] == docs[..m];
  }

  lemma LinkIndexStep(links: seq<Id>, docs: seq<Doc>, p: nat)
    requires p < |links|
    ensures LinkIndex(links[..p + 1], docs) == PartialEntry(LinkIndex(links[..p], docs), p, LastMatch(docs, links[p]))
  {
    assert links[..p + 1][..p] == links[..p];
  }

  function PartialEntry(index: map<nat, nat>, p: nat, found: Option<nat>): map<nat, nat> {
    if found.Some? then index[p := found.value] else index
  }

  /** The number typed at the prompt, when it is one. */
  function ChoiceNumber(choice: Option<string>): Option<nat> {
    if choice.Some? && IsNumeric(choice.value) then Some(DigitsValue(choice.value)) else None
  }

  /** The document that entry `k` of the menu for `links` opens, when the
      menu has that entry: the last cached document carrying the `k`-th
      link id. */
  function MenuDoc(links: seq<Id>, docs: seq<Doc>, k: nat): (r: Option<Doc>)
    ensures r.Some? <==> k in LinkIndex(links, docs)
    ensures r.Some? ==> k < |links| && r.value in docs && r.value.id == Some(links[k])
    ensures r.Some? ==> LastMatch(docs, links[k]).Some? && r.value == docs[LastMatch(docs, links[k]).value]
  {
    LinkIndexEntries(links, docs);
    var index := LinkIndex(links, docs);
    if k in index then Some(docs[index[k]]) else None
  }

  /** `get_links` with the evident menu guard and child list: a note has no
      link lists (AttributeError) and a missing list cannot be measured
      (TypeError). Choosing an entry of the menu pushes the document left,
      resets the note position and opens the document the entry leads to
      at its top level. */
  function JumpToLink(sh: Shell, obj: Obj, choice: Option<string>): (r: Outcome<Shell, bool>)
    ensures obj.NoteObj? ==> r == Crashed(sh, AttributeError)
    ensures obj.DocObj? && (obj.doc.outlinks.None? || obj.doc.inlinks.None?) ==> r == Crashed(sh, TypeError)
    ensures r.Done? && !r.value ==> r.state == sh
    ensures r.Done? && r.value ==>
              && obj.DocObj? && obj.doc.outlinks.Some? && obj.doc.inlinks.Some?
              && r.state.linkHistory == sh.linkHistory + [obj.doc]
              && r.state.noteHistory == [] && r.state.allDocs == sh.allDocs
              && r.state.currentDoc.Some? && r.state.currentDoc.value in sh.allDocs
              && choice.Some? && IsNumeric(choice.value)
              && (var k := DigitsValue(choice.value);
                  var links := obj.doc.outlinks.value + obj.doc.inlinks.value;
                  k < |links| && r.state.currentDoc.value.id == Some(links[k]))
              && AtLevel(r.state)
    ensures obj.DocObj? && obj.doc.outlinks.Some? && obj.doc.inlinks.Some? ==>
              var links := obj.doc.outlinks.value + obj.doc.inlinks.value;
              && (ChoiceNumber(choice).Some? && MenuDoc(links, sh.allDocs, ChoiceNumber(choice).value).Some? ==>
                    && r.Done? && r.value
                    && r.state.currentDoc == MenuDoc(links, sh.allDocs, ChoiceNumber(choice).value))
              && (ChoiceNumber(choice).None? || MenuDoc(links, sh.allDocs, ChoiceNumber(choice).value).None? ==>
                    r == Done(sh, false))
  {
    match obj
    case NoteObj(_) => Crashed(sh, AttributeError)
    case DocObj(d) =>
      if d.outlinks.None? || d.inlinks.None? then Crashed(sh, TypeError)
      else
        LinkIndexEntries(d.outlinks.value + d.inlinks.value, sh.allDocs);
        var index := LinkIndex(d.outlinks.value + d.inlinks.value, sh.allDocs);
        if choice.None? || !IsNumeric(choice.value) || DigitsValue(choice.value) !in index then Done(sh, false)
        else
          var target := sh.allDocs[index[DigitsValue(choice.value)]];
          var left := Reset(sh.(linkHistory := sh.linkHistory + [d]));
          var selected := SetCurrentDoc(left, Some(DocObj(target)));
          var (next, children) := GetChildNotes(selected, CurrentDocId(selected));
          Done(next.(childNotes := children), true)
  }

  /** Following a link and popping it returns to the document the link was
      followed from, with the link history as before. */
  lemma JumpThenPop(sh: Shell, d: Doc, choice: Option<string>)
    requires d in sh.allDocs
    requires JumpToLink(sh, DocObj(d), choice) == Done(JumpToLink(sh, DocObj(d), choice).state, true)
    ensures PopLink(JumpToLink(sh, DocObj(d), choice).state).currentDoc == Some(d)
    ensures PopLink(JumpToLink(sh, DocObj(d), choice).state).linkHistory == sh.linkHistory
  {
    var s := JumpToLink(sh, DocObj(d), choice).state;
    assert s.linkHistory[|s.linkHistory| - 1] == d;
    assert s.linkHistory[..|s.linkHistory| - 1] == sh.linkHistory;
  }

  /** `get_links` as written: the choice is checked against the size of
      the menu rather than its entries, so with a dangling link an accepted
      number can miss the menu (KeyError, after the link history was pushed
      and the position reset) and a listed one can be refused; the child
      notes listed are those of the document left, looked up among the
      notes of the document opened. */
  function JumpToLinkAsWritten(sh: Shell, obj: Obj, choice: Option<string>): (r: Outcome<Shell, bool>)
  {
    match obj
    case NoteObj(_) => Crashed(sh, AttributeError)
    case DocObj(d) =>
      if d.outlinks.None? || d.inlinks.None? then Crashed(sh, TypeError)
      else
        LinkIndexEntries(d.outlinks.value + d.inlinks.value, sh.allDocs);
        var index := LinkIndex(d.outlinks.value + d.inlinks.value, sh.allDocs);
        if choice.None? || !IsNumeric(choice.value) || DigitsValue(choice.value) >= |index| then Done(sh, false)
        else
          var left := Reset(sh.(linkHistory := sh.linkHistory + [d]));
          if DigitsValue(choice.value) !in index then Crashed(left, KeyError)
          else
            var target := sh.allDocs[index[DigitsValue(choice.value)]];
            var selected := SetCurrentDoc(left, Some(DocObj(target)));
            var (next, children) := GetChildNotes(selected, d.id);
            Done(next.(childNotes := children), true)
  }

  /** A document `a` whose first outlink dangles and whose second leads to
      the only cached document `b`: as written, choosing 0 passes the guard
      and raises KeyError, and choosing 1 is refused. */
  lemma DanglingLinkMisleadsMenu()
    ensures var b := Doc("docs", "b", [], None, None, Some([]), Some([]), Some("b"));
            var a := Doc("docs", "a", [], None, None, Some([]), Some(["gone", "b"]), Some("a"));
            var sh := Shell(Database.Store([], map[], map[], map[]), [b], [], None, Some([]), 0, [], []);
            && JumpToLinkAsWritten(sh, DocObj(a), Some("0")).Crashed?
            && JumpToLinkAsWritten(sh, DocObj(a), Some("0")).fault == KeyError
            && JumpToLinkAsWritten(sh, DocObj(a), Some("1")) == Done(sh, false)
  {
    var b := Doc("docs", "b", [], None, None, Some([]), Some([]), Some("b"));
    var a := Doc("docs", "a", [], None, None, Some([]), Some(["gone", "b"]), Some("a"));
    DanglingMenu(a, b);
  }

  /** On the same documents the corrected menu refuses 0 and opens `b` on
      1. */
  lemma DanglingLinkCorrected()
    ensures var b := Doc("docs", "b", [], None, None, Some([]), Some([]), Some("b"));
            var a := Doc("docs", "a", [], None, None, Some([]), Some(["gone", "b"]), Some("a"));
            var sh := Shell(Database.Store([], map[], map[], map[]), [b], [], None, Some([]), 0, [], []);
            && JumpToLink(sh, DocObj(a), Some("0")) == Done(sh, false)
            && JumpToLink(sh, DocObj(a), Some("1")).Done?
            && JumpToLink(sh, DocObj(a), Some("1")).state.currentDoc == Some(b)
  {
    var b := Doc("docs", "b", [], None, None, Some([]), Some([]), Some("b"));
    var a := Doc("docs", "a", [], None, None, Some([]), Some(["gone", "b"]), Some("a"));
    DanglingMenu(a, b);
  }

  lemma DanglingMenu(a: Doc, b: Doc)
    requires b == Doc("docs", "b", [], None, None, Some([]), Some([]), Some("b"))
    requires a == Doc("docs", "a", [], None, None, Some([]), Some(["gone", "b"]), Some("a"))
    ensures LinkIndex(a.outlinks.value + a.inlinks.value, [b]) == map[1 := 0]
    ensures DigitsValue("0") == 0 && DigitsValue("1") == 1 && IsNumeric("0") && IsNumeric("1")
  {
    var links := a.outlinks.value + a.inlinks.value;
    assert links == ["gone", "b"];
    assert LastMatch([b], "gone").None?;
    assert LastMatch([b], "b") == Some(0);
    assert links[..1] == ["gone"];
    assert links[..1][..0] == [];
    assert DigitsValue("0") == 0 by { assert "0"[..0] == ""; }
    assert DigitsValue("1") == 1 by { assert "1"[..0] == ""; }
  }

  /** As written, the notes listed after a jump are those of the opened
      document attached to the document left, so a note attached to the
      opened document itself is not listed when the two ids differ; the
      corrected version lists it (its child notes are those of the current
      level, see `JumpToLink`). */
  lemma JumpListsWrongChildren(sh: Shell, d: Doc, choice: Option<string>, n: Note)
    requires JumpToLinkAsWritten(sh, DocObj(d), choice).Done? && JumpToLinkAsWritten(sh, DocObj(d), choice).value
    ensures var r := JumpToLinkAsWritten(sh, DocObj(d), choice).state;
            && r.currentDoc.Some? && r.childNotes == Some(ChildrenOf(r.allNotes, d.id))
            && (n in r.allNotes && Some(n.refId) == CurrentDocId(r) && d.id != CurrentDocId(r) ==> n !in r.childNotes.value)
    ensures JumpToLink(sh, DocObj(d), choice).Done? && JumpToLink(sh, DocObj(d), choice).value ==>
              var r := JumpToLink(sh, DocObj(d), choice).state;
              n in r.allNotes && Some(n.refId) == CurrentDocId(r) ==> n in r.childNotes.value
  {
    LinkIndexEntries(d.outlinks.value + d.inlinks.value, sh.allDocs);
  }
}
