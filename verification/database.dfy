/**
  The document store as the application mutates it: a collection of
  documents (kept in stream order), a note sub-collection per document and
  a collection of authors found by (lastname, firstname). Only the data
  transformations are modelled; an operation that raises part way leaves
  the writes it had already made.
 */
module Database {
  import opened Base
  import opened DocumentTypes

  /** `docs` holds each stored document as written, so a link list that
      was never written is `None` (its key is absent); reading applies the
      defaults of `Doc.from_ref` (`Persisted`). `order` is the order in
      which `stream()` yields the documents. The store fixes it by key; the
      model keeps it as data and does not compare keys. */
  datatype Store = Store(
    order: seq<Id>,
    docs: map<Id, Doc>,
    notes: map<Id, seq<Note>>,
    authors: map<AuthorName, Author>)

  predicate NoteIdsDistinct(ns: seq<Note>) {
    && (forall i :: 0 <= i < |ns| ==> ns[i].id.Some?)
    && (forall i, j :: 0 <= i < j < |ns| ==> ns[i].id != ns[j].id)
  }

  /** What the store guarantees of its own contents: each document listed
      once, under its key, and note ids unique within a document. */
  predicate Valid(s: Store) {
    && (forall i, j :: 0 <= i < j < |s.order| ==> s.order[i] != s.order[j])
    && (forall k :: k in s.docs ==> k in s.order)
    && (forall i :: 0 <= i < |s.order| ==> s.order[i] in s.docs)
    && (forall k :: k in s.docs ==> s.docs[k].id == Some(k))
    && (forall k :: k in s.notes ==> NoteIdsDistinct(s.notes[k]))
  }

  // ---------------------------------------------------------------------
  // Reading

  /** The documents named by `ids`, each read back with its key as id. */
  function Stream(docs: map<Id, Doc>, ids: seq<Id>): (r: seq<Doc>)
    ensures |r| <= |ids|
    ensures forall d :: d in r ==> d.id.Some? && d.id.value in docs
  {
    if ids == [] then []
    else (if ids[0] in docs then [Persisted(docs[ids[0]], ids[0])] else []) + Stream(docs, ids[1..])
  }

  /** `get_docs`: every stored document in stream order. */
  function GetDocs(s: Store): seq<Doc> {
    Stream(s.docs, s.order)
  }

  lemma {:induction false} StreamAll(docs: map<Id, Doc>, ids: seq<Id>)
    requires forall k :: k in ids ==> k in docs
    ensures |Stream(docs, ids)| == |ids|
    ensures forall i :: 0 <= i < |ids| ==> Stream(docs, ids)[i] == Persisted(docs[ids[i]], ids[i])
  {
    if ids != [] {
      StreamAll(docs, ids[1..]);
    }
  }

  /** In a valid store `get_docs` yields exactly the stored documents, one
      per key, in stream order, each as `Doc.from_ref` reads it. */
  lemma GetDocsInOrder(s: Store)
    requires Valid(s)
    ensures |GetDocs(s)| == |s.order|
    ensures forall i :: 0 <= i < |s.order| ==> GetDocs(s)[i] == Persisted(s.docs[s.order[i]], s.order[i])
    ensures forall i :: 0 <= i < |s.order| ==> GetDocs(s)[i].id == Some(s.order[i])
  {
    StreamAll(s.docs, s.order);
  }

  /** `get_notes`: the notes stored under a document; a document without a
      note collection has none. */
  function GetNotes(s: Store, docId: Option<Id>): seq<Note> {
    if docId.Some? && docId.value in s.notes then s.notes[docId.value] else []
  }

  /** `d` has the title `title`, ignoring case. */
  predicate TitleMatches(d: Doc, title: string) {
    Lower(d.title) == Lower(title)
  }

  /** Position of the first document in `ds` whose title equals `title`
      ignoring case. */
  function TitleIndex(ds: seq<Doc>, title: string): (r: Option<nat>)
    ensures r.None? <==> forall i :: 0 <= i < |ds| ==> !TitleMatches(ds[i], title)
    ensures r.Some? ==> r.value < |ds| && TitleMatches(ds[r.value], title)
    ensures r.Some? ==> forall j :: 0 <= j < r.value ==> !TitleMatches(ds[j], title)
  {
    if ds == [] then None
    else if TitleMatches(ds[0], title) then Some(0)
    else
      match TitleIndex(ds[1..], title)
      case None => None
      case Some(i) => Some(i + 1)
  }

  /** `_get_doc_by_title`: the first document in stream order whose title
      equals `title` ignoring case. */
  function FindTitle(ds: seq<Doc>, title: string): (r: Option<Doc>)
    ensures r.None? <==> forall d :: d in ds ==> !TitleMatches(d, title)
    ensures r.Some? ==> TitleIndex(ds, title).Some? && r.value == ds[TitleIndex(ds, title).value]
    ensures r.Some? ==> Lower(r.value.title) == Lower(title)
  {
    match TitleIndex(ds, title)
    case None => None
    case Some(i) => Some(ds[i])
  }

  /** `_get_doc_by_title` on the store: a document is found exactly when
      the title is taken, and it is a stored one with that title. */
  function GetDocByTitle(s: Store, title: string): (r: Option<Doc>)
    ensures r.Some? <==> TitleTaken(s, title)
    ensures r.Some? ==> r.value in GetDocs(s) && TitleMatches(r.value, title)
  {
    FindTitle(GetDocs(s), title)
  }

  // ---------------------------------------------------------------------
  // Authors

  /** The author record the store holds after `add(author.to_dict())`. */
  function StoredAuthor(a: Author): Author {
    a.(affiliation := Truthy(a.affiliation), email := Truthy(a.email))
  }

  /** `_get_author`: exact (lastname, firstname) match, no case folding. */
  function GetAuthor(authors: map<AuthorName, Author>, name: AuthorName): (r: Option<Author>)
    ensures r.Some? <==> name in authors
  {
    if name in authors then Some(authors[name]) else None
  }

  /** `_add_author`: adds the author unless one with exactly the same
      (lastname, firstname) exists, in which case nothing changes. */
  function AddAuthor(authors: map<AuthorName, Author>, a: Author): (r: map<AuthorName, Author>)
    ensures r.Keys == authors.Keys + {a.Name()}
    ensures forall n :: n in authors ==> r[n] == authors[n]
    ensures a.Name() !in authors ==> r[a.Name()].docCount == a.docCount && r[a.Name()].Name() == a.Name()
  {
    if GetAuthor(authors, a.Name()).Some? then authors else authors[a.Name() := StoredAuthor(a)]
  }

  /** Author names are compared exactly: names that differ only in case
      are different authors. */
  lemma AuthorKeyIsCaseSensitive(authors: map<AuthorName, Author>)
    requires AuthorName("Smith", "Ann") in authors && AuthorName("smith", "ann") !in authors
    ensures AddAuthor(authors, Author("smith", "ann", 0, None, None, None)).Keys
            == authors.Keys + {AuthorName("smith", "ann")}
    ensures AddAuthor(authors, Author("smith", "ann", 0, None, None, None)) != authors
  {
    assert AuthorName("smith", "ann") in AddAuthor(authors, Author("smith", "ann", 0, None, None, None));
  }

  /** `_inc_author_doc_count`; calling it on a missing author raises
      AttributeError (the snapshot is `None`). */
  function IncDocCount(authors: map<AuthorName, Author>, name: AuthorName): (r: Result<map<AuthorName, Author>>)
    ensures r.Ok? <==> name in authors
    ensures r.Err? ==> r.fault == AttributeError
    ensures r.Ok? ==> r.value.Keys == authors.Keys
    ensures r.Ok? ==> r.value[name].docCount == authors[name].docCount + 1
    ensures r.Ok? ==> r.value[name] == authors[name].(docCount := r.value[name].docCount)
    ensures r.Ok? ==> forall n :: n in authors && n != name ==> r.value[n] == authors[n]
  {
    match GetAuthor(authors, name)
    case None => Err(AttributeError)
    case Some(a) => Ok(authors[name := a.(docCount := a.docCount + 1)])
  }

  /** `_dec_author_doc_count`: an author whose count is 1 is deleted,
      otherwise the count goes down by one. */
  function DecDocCount(authors: map<AuthorName, Author>, name: AuthorName): (r: Result<map<AuthorName, Author>>)
    ensures r.Ok? <==> name in authors
    ensures r.Err? ==> r.fault == AttributeError
    ensures r.Ok? && authors[name].docCount == 1 ==> r.value == authors - {name}
    ensures r.Ok? && authors[name].docCount != 1 ==>
              && r.value.Keys == authors.Keys
              && r.value[name] == authors[name].(docCount := authors[name].docCount - 1)
    ensures r.Ok? ==> forall n :: n in authors && n != name ==> n in r.value && r.value[n] == authors[n]
  {
    match GetAuthor(authors, name)
    case None => Err(AttributeError)
    case Some(a) =>
      if a.docCount == 1 then Ok(authors - {name})
      else Ok(authors[name := a.(docCount := a.docCount - 1)])
  }

  /** Raising a count and lowering it again restores the author, unless
      the count started at 0 (the raised count 1 then deletes it). */
  lemma IncThenDecRestores(authors: map<AuthorName, Author>, name: AuthorName)
    requires name in authors && authors[name].docCount != 0
    ensures DecDocCount(IncDocCount(authors, name).value, name) == Ok(authors)
  {
    var raised := IncDocCount(authors, name).value;
    assert raised[name].docCount != 1;
    assert raised[name := raised[name].(docCount := raised[name].docCount - 1)] == authors;
  }

  /** One author of a document being added: `_add_author` with a new
      record (count 0), then `_inc_author_doc_count`. */
  function Credit(authors: map<AuthorName, Author>, name: AuthorName): (r: map<AuthorName, Author>)
    ensures r.Keys == authors.Keys + {name}
    ensures r[name].docCount == (if name in authors then authors[name].docCount else 0) + 1
    ensures forall n :: n in authors && n != name ==> r[n] == authors[n]
  {
    var added := AddAuthor(authors, Author(name.lastname, name.firstname, 0, None, None, None));
    IncDocCount(added, name).value
  }

  /** The author loop of `add_doc`, in list order. */
  function CreditAll(authors: map<AuthorName, Author>, names: seq<AuthorName>): (r: map<AuthorName, Author>)
    decreases names
    ensures forall n :: n in r <==> n in authors || n in names
    ensures forall n :: n in r && n in names ==>
              r[n].docCount == (if n in authors then authors[n].docCount else 0) + Count(names, n)
    ensures forall n :: n in authors && n !in names ==> r[n] == authors[n]
  {
    if names == [] then authors
    else
      var r := CreditAll(Credit(authors, names[0]), names[1..]);
      CreditAllStep(authors, names, r);
      r
  }

  lemma CreditAllStep(authors: map<AuthorName, Author>, names: seq<AuthorName>, r: map<AuthorName, Author>)
    requires names != []
    requires var next := Credit(authors, names[0]);
             && (forall n :: n in r <==> n in next || n in names[1..])
             && (forall n :: n in r && n in names[1..] ==>
                   r[n].docCount == (if n in next then next[n].docCount else 0) + Count(names[1..], n))
             && (forall n :: n in next && n !in names[1..] ==> r[n] == next[n])
    ensures forall n :: n in r <==> n in authors || n in names
    ensures forall n :: n in r && n in names ==>
              r[n].docCount == (if n in authors then authors[n].docCount else 0) + Count(names, n)
    ensures forall n :: n in authors && n !in names ==> r[n] == authors[n]
  {
    var next := Credit(authors, names[0]);
    assert forall n :: n in names <==> n == names[0] || n in names[1..];
    forall n | n in r && n in names
      ensures r[n].docCount == (if n in authors then authors[n].docCount else 0) + Count(names, n)
    {
      if n !in names[1..] {
        CountPositive(names[1..], n);
      }
    }
  }

  /** Every listed author is stored with a count at least its number of
      listings. */
  predicate Enough(authors: map<AuthorName, Author>, names: seq<AuthorName>) {
    forall n :: n in names ==> n in authors && authors[n].docCount >= Count(names, n)
  }

  /** `after` is `authors` with each listed author's count lowered by its
      number of listings, those reaching zero removed. */
  predicate Debited(authors: map<AuthorName, Author>, names: seq<AuthorName>, after: map<AuthorName, Author>) {
    && (forall n :: n in after ==> n in authors && after[n].docCount == authors[n].docCount - Count(names, n))
    && (forall n :: n in authors ==> (n in after <==> !(n in names && authors[n].docCount == Count(names, n))))
  }

  /** The author loop of `delete_doc`: decrements in list order and stops
      at the first author that is missing, keeping the decrements made. */
  function DebitAll(authors: map<AuthorName, Author>, names: seq<AuthorName>): (r: Outcome<map<AuthorName, Author>, bool>)
    decreases names
    ensures (exists n :: n in names && n !in authors) ==> r.Crashed?
    ensures Enough(authors, names) ==> r.Done? && Debited(authors, names, r.state)
    ensures r.Done? ==> forall n :: n in authors && n !in names ==> n in r.state && r.state[n] == authors[n]
  {
    if names == [] then Done(authors, true)
    else
      match DecDocCount(authors, names[0])
      case Err(f) => Crashed(authors, f)
      case Ok(next) =>
        var r := DebitAll(next, names[1..]);
        DebitAllStep(authors, names, next, r);
        r
  }

  lemma DebitAllStep(authors: map<AuthorName, Author>, names: seq<AuthorName>, next: map<AuthorName, Author>,
                     r: Outcome<map<AuthorName, Author>, bool>)
    requires names != [] && DecDocCount(authors, names[0]) == Ok(next)
    requires (exists n :: n in names[1..] && n !in next) ==> r.Crashed?
    requires Enough(next, names[1..]) ==> r.Done? && Debited(next, names[1..], r.state)
    requires r.Done? ==> forall n :: n in next && n !in names[1..] ==> n in r.state && r.state[n] == next[n]
    ensures (exists n :: n in names && n !in authors) ==> r.Crashed?
    ensures Enough(authors, names) ==> r.Done? && Debited(authors, names, r.state)
    ensures r.Done? ==> forall n :: n in authors && n !in names ==> n in r.state && r.state[n] == authors[n]
  {
    var a := names[0];
    var rest := names[1..];
    assert forall n :: n in names <==> n == a || n in rest;
    assert forall n :: Count(names, n) == (if a == n then 1 else 0) + Count(rest, n);
    if Enough(authors, names) {
      CountPositive(rest, a);
      assert Enough(next, rest);
      var after := r.state;
      forall n | n in authors
        ensures n in after <==> !(n in names && authors[n].docCount == Count(names, n))
      {
        if n == a && authors[a].docCount != 1 {
          assert n in next;
        }
      }
    }
  }

  // ---------------------------------------------------------------------
  // Documents

  /** A stored document already has `title`, ignoring case. */
  predicate TitleTaken(s: Store, title: string) {
    exists d :: d in GetDocs(s) && TitleMatches(d, title)
  }

  /** `add_doc`: refused when a stored title matches ignoring case;
      otherwise every listed author is credited once per occurrence and the
      document is stored under the id the store allocates (`newId`). The
      store streams documents in an order fixed by their ids, so the new
      key lands at a position `at` the store decides. */
  function AddDoc(s: Store, doc: Doc, newId: Id, at: nat): (r: Store)
    requires newId !in s.docs && at <= |s.order|
    ensures TitleTaken(s, doc.title) ==> r == s
    ensures !TitleTaken(s, doc.title) ==>
              && r.docs == s.docs[newId := Stored(doc, newId)]
              && r.order == Insert(s.order, at, newId)
              && r.notes == s.notes
              && r.authors == CreditAll(s.authors, doc.authors)
  {
    if GetDocByTitle(s, doc.title).Some? then s
    else
      Store(Insert(s.order, at, newId), s.docs[newId := Stored(doc, newId)], s.notes, CreditAll(s.authors, doc.authors))
  }

  /** Adding a document under a new title credits its authors: the listed
      authors become stored, each one's count rises by its number of
      listings, and every other author is kept as it was. */
  lemma AddDocCreditsAuthors(s: Store, doc: Doc, newId: Id, at: nat)
    requires newId !in s.docs && at <= |s.order| && !TitleTaken(s, doc.title)
    ensures var r := AddDoc(s, doc, newId, at);
            && (forall n :: n in r.authors <==> n in s.authors || n in doc.authors)
            && (forall n :: n in r.authors && n in doc.authors ==>
                  r.authors[n].docCount == (if n in s.authors then s.authors[n].docCount else 0) + Count(doc.authors, n))
            && (forall n :: n in s.authors && n !in doc.authors ==> n in r.authors && r.authors[n] == s.authors[n])
  {
  }

  lemma AddDocKeepsValid(s: Store, doc: Doc, newId: Id, at: nat)
    requires Valid(s) && newId !in s.docs && at <= |s.order|
    ensures Valid(AddDoc(s, doc, newId, at))
  {
    if !TitleTaken(s, doc.title) {
      InsertKeepsValid(s, newId, Stored(doc, newId), at, CreditAll(s.authors, doc.authors));
    }
  }

  /** Storing a document under a new key, at any stream position, keeps a
      consistent store consistent, whatever the authors become. */
  lemma InsertKeepsValid(s: Store, newId: Id, d: Doc, at: nat, authors: map<AuthorName, Author>)
    requires Valid(s) && newId !in s.docs && d.id == Some(newId) && at <= |s.order|
    ensures Valid(Store(Insert(s.order, at, newId), s.docs[newId := d], s.notes, authors))
  {
    assert newId !in s.order;
    InsertKeepsDistinct(s.order, at, newId);
  }

  /** Deleting a document right after adding it restores the store's
      documents, stream order and notes, and every author's presence and
      count, provided every stored author has a positive count. */
  lemma AddThenDeleteDoc(s: Store, doc: Doc, newId: Id, at: nat)
    requires newId !in s.docs && newId !in s.order && newId !in s.notes && at <= |s.order|
    requires !TitleTaken(s, doc.title)
    requires forall n :: n in s.authors ==> s.authors[n].docCount > 0
    ensures DeleteDoc(AddDoc(s, doc, newId, at), Persisted(doc, newId)).Done?
    ensures var r := DeleteDoc(AddDoc(s, doc, newId, at), Persisted(doc, newId)).state;
            r.docs == s.docs && r.order == s.order && r.notes == s.notes
    ensures var r := DeleteDoc(AddDoc(s, doc, newId, at), Persisted(doc, newId)).state;
            && r.authors.Keys == s.authors.Keys
            && forall n :: n in s.authors ==> r.authors[n].docCount == s.authors[n].docCount
  {
    CreditThenDebit(s.authors, doc.authors);
    DeleteAdded(s, doc, newId, at);
  }

  /** Deleting a just-added document leaves the store as it was, apart
      from the author counts its deletion debits. */
  lemma DeleteAdded(s: Store, doc: Doc, newId: Id, at: nat)
    requires newId !in s.docs && newId !in s.order && newId !in s.notes && at <= |s.order|
    requires !TitleTaken(s, doc.title)
    requires DebitAll(CreditAll(s.authors, doc.authors), doc.authors).Done?
    ensures DeleteDoc(AddDoc(s, doc, newId, at), Persisted(doc, newId))
         == Done(Store(s.order, s.docs, s.notes, DebitAll(CreditAll(s.authors, doc.authors), doc.authors).state), true)
  {
    var added := AddDoc(s, doc, newId, at);
    WithoutInserted(s.order, at, newId);
    DeleteDocUnfold(added, Persisted(doc, newId), newId);
    assert added.docs - {newId} == s.docs;
    assert added.notes - {newId} == s.notes;
  }

  /** Deleting a document whose authors can all be debited. */
  lemma DeleteDocUnfold(t: Store, doc: Doc, k: Id)
    requires doc.id == Some(k) && DebitAll(t.authors, doc.authors).Done?
    ensures DeleteDoc(t, doc)
         == Done(Store(Without(t.order, k), t.docs - {k}, t.notes - {k}, DebitAll(t.authors, doc.authors).state), true)
  {
  }

  /** The author loop of `delete_doc` undoes the one of `add_doc`: the same
      authors are stored with the same counts, provided every count was positive. */
  lemma CreditThenDebit(authors: map<AuthorName, Author>, names: seq<AuthorName>)
    requires forall n :: n in authors ==> authors[n].docCount > 0
    ensures DebitAll(CreditAll(authors, names), names).Done?
    ensures var r := DebitAll(CreditAll(authors, names), names).state;
            && r.Keys == authors.Keys
            && forall n :: n in authors ==> r[n].docCount == authors[n].docCount
  {
    var credited := CreditAll(authors, names);
    forall n | n in names
      ensures n in credited && credited[n].docCount >= Count(names, n)
    {
    }
    assert Enough(credited, names);
    var r := DebitAll(credited, names).state;
    assert Debited(credited, names, r);
    forall n | n in authors
      ensures n in r && r[n].docCount == authors[n].docCount
    {
      if n in names {
        assert credited[n].docCount == authors[n].docCount + Count(names, n);
      } else {
        assert credited[n] == authors[n];
      }
    }
  }

  /** `delete_doc`: deletes the document's notes, decrements each listed
      author, then deletes the document. A listed author that is no longer
      stored raises AttributeError after the notes are gone. A document
      without an id addresses a newId key, so only the authors change. */
  function DeleteDoc(s: Store, doc: Doc): (r: Outcome<Store, bool>)
    ensures r.Done? ==> r.value
    ensures (exists n :: n in doc.authors && n !in s.authors) ==> r.Crashed?
    ensures Enough(s.authors, doc.authors) ==> r.Done? && Debited(s.authors, doc.authors, r.state.authors)
    ensures doc.id.Some? ==> doc.id.value !in r.state.notes
    ensures r.Done? && doc.id.Some? ==>
              && r.state.docs == s.docs - {doc.id.value}
              && r.state.order == Without(s.order, doc.id.value)
    ensures r.Done? && doc.id.None? ==> r.state.docs == s.docs && r.state.order == s.order
    ensures r.Crashed? ==> r.state.docs == s.docs && r.state.order == s.order
    ensures forall k :: k in s.notes && Some(k) != doc.id ==> k in r.state.notes && r.state.notes[k] == s.notes[k]
  {
    var notes := if doc.id.Some? then s.notes - {doc.id.value} else s.notes;
    var s1 := s.(notes := notes);
    match DebitAll(s1.authors, doc.authors)
    case Crashed(partial, f) => Crashed(s1.(authors := partial), f)
    case Done(authors, _) =>
      var s2 := s1.(authors := authors);
      if doc.id.Some? then Done(s2.(docs := s2.docs - {doc.id.value}, order := Without(s2.order, doc.id.value)), true)
      else Done(s2, true)
  }

  lemma DeleteDocKeepsValid(s: Store, doc: Doc)
    requires Valid(s)
    ensures Valid(DeleteDoc(s, doc).state)
  {
    var r := DeleteDoc(s, doc).state;
    if doc.id.Some? && DeleteDoc(s, doc).Done? {
      var k := doc.id.value;
      WithoutKeepsDistinct(s.order, k);
      forall x
        ensures x in r.docs <==> x in r.order
      {
        if x != k {
          assert Count(r.order, x) == Count(s.order, x);
          CountPositive(r.order, x);
          CountPositive(s.order, x);
        }
      }
    }
  }

  lemma {:induction false} WithoutKeepsDistinct(s: seq<Id>, x: Id)
    requires forall i, j :: 0 <= i < j < |s| ==> s[i] != s[j]
    ensures forall i, j :: 0 <= i < j < |Without(s, x)| ==> Without(s, x)[i] != Without(s, x)[j]
  {
    if s != [] {
      WithoutKeepsDistinct(s[1..], x);
      var w := Without(s[1..], x);
      if s[0] != x {
        assert s[0] !in s[1..];
        CountPositive(s[1..], s[0]);
        CountPositive(w, s[0]);
      }
    }
  }

  // ---------------------------------------------------------------------
  // Links

  function Outlinks(d: Doc): seq<Id> {
    d.outlinks.GetOr([])
  }

  function Inlinks(d: Doc): seq<Id> {
    d.inlinks.GetOr([])
  }

  /** `add_link(out, in)`: appends `in` to the outlinks of `out`, then `out`
      to the inlinks of `in`, a missing list counting as empty. A document
      that is not stored yields a `None` list and so AttributeError, after
      whatever was already written. */
  function AddLink(s: Store, out: Id, into: Id): (r: Outcome<Store, bool>)
    ensures r.Done? <==> out in s.docs && into in s.docs
    ensures r.Crashed? ==> r.fault == AttributeError
    ensures r.state.order == s.order && r.state.notes == s.notes && r.state.authors == s.authors
    ensures r.state.docs.Keys == s.docs.Keys
    ensures forall k :: k in s.docs && k != out && k != into ==> r.state.docs[k] == s.docs[k]
    ensures r.Done? ==> Outlinks(r.state.docs[out]) == Outlinks(s.docs[out]) + [into]
    ensures r.Done? && out != into ==> Inlinks(r.state.docs[into]) == Inlinks(s.docs[into]) + [out]
    ensures r.Done? && out == into ==> Inlinks(r.state.docs[into]) == Inlinks(s.docs[into]) + [out]
    ensures r.Done? ==> r.state.docs[out] == s.docs[out].(outlinks := r.state.docs[out].outlinks,
                                                          inlinks := r.state.docs[out].inlinks)
    ensures r.Done? ==> r.state.docs[into] == s.docs[into].(outlinks := r.state.docs[into].outlinks,
                                                            inlinks := r.state.docs[into].inlinks)
    ensures r.Done? && out != into ==> r.state.docs[out].inlinks == s.docs[out].inlinks
                                       && r.state.docs[into].outlinks == s.docs[into].outlinks
  {
    if out !in s.docs then Crashed(s, AttributeError)
    else
      var d := s.docs[out];
      var s1 := s.(docs := s.docs[out := d.(outlinks := Some(Outlinks(d) + [into]))]);
      if into !in s1.docs then Crashed(s1, AttributeError)
      else
        var e := s1.docs[into];
        Done(s1.(docs := s1.docs[into := e.(inlinks := Some(Inlinks(e) + [out]))]), true)
  }

  /** `delete_link(out, in)` as written: removes the first `in` from the
      outlinks of `out` and returns True. The inlinks update that follows
      the `return` is never reached. A missing outlinks key returns False;
      an `in` that is not among the outlinks raises ValueError. */
  function DeleteLink(s: Store, out: Id, into: Id): (r: Outcome<Store, bool>)
    ensures out !in s.docs ==> r == Crashed(s, AttributeError)
    ensures out in s.docs && s.docs[out].outlinks.None? ==> r == Done(s, false)
    ensures out in s.docs && s.docs[out].outlinks.Some? && into !in Outlinks(s.docs[out]) ==> r == Crashed(s, ValueError)
    ensures r.Done? ==> out in s.docs && r.state.docs.Keys == s.docs.Keys
    ensures r.Done? && r.value ==>
              && Count(Outlinks(r.state.docs[out]), into) == Count(Outlinks(s.docs[out]), into) - 1
              && (forall y :: y != into ==> Count(Outlinks(r.state.docs[out]), y) == Count(Outlinks(s.docs[out]), y))
              && r.state.docs == s.docs[out := r.state.docs[out]]
              && r.state.docs[out] == s.docs[out].(outlinks := r.state.docs[out].outlinks)
    ensures r.Done? ==> r.state.order == s.order && r.state.notes == s.notes && r.state.authors == s.authors
    ensures r.Done? && r.value && into in s.docs && into != out ==> r.state.docs[into] == s.docs[into]
  {
    if out !in s.docs then Crashed(s, AttributeError)
    else
      var d := s.docs[out];
      match d.outlinks
      case None => Done(s, false)
      case Some(links) =>
        if into !in links then Crashed(s, ValueError)
        else Done(s.(docs := s.docs[out := d.(outlinks := Some(RemoveFirst(links, into)))]), true)
  }

  /** A document added without an outlinks list is stored without the
      `outlinks` key, so `delete_link` from it returns False and changes
      nothing. */
  lemma DeleteLinkFromUnlinkedDoc(s: Store, doc: Doc, newId: Id, at: nat, into: Id)
    requires newId !in s.docs && at <= |s.order| && !TitleTaken(s, doc.title) && doc.outlinks.None?
    ensures DeleteLink(AddDoc(s, doc, newId, at), newId, into) == Done(AddDoc(s, doc, newId, at), false)
  {
  }

  /** `delete_link` with both of its updates run, as its comments intend:
      also removes the first `out` from the inlinks of `in`. */
  function DeleteLinkSymmetric(s: Store, out: Id, into: Id): (r: Outcome<Store, bool>)
    ensures r.Done? && r.value ==> into in s.docs && out in s.docs
    ensures r.state.docs.Keys == s.docs.Keys
    ensures r.state.order == s.order && r.state.notes == s.notes && r.state.authors == s.authors
    ensures forall k :: k in s.docs && k != out && k != into ==> r.state.docs[k] == s.docs[k]
    ensures r.Done? && r.value ==>
              && Count(Outlinks(r.state.docs[out]), into) == Count(Outlinks(s.docs[out]), into) - 1
              && Count(Inlinks(r.state.docs[into]), out) == Count(Inlinks(s.docs[into]), out) - 1
              && (forall y :: y != into ==> Count(Outlinks(r.state.docs[out]), y) == Count(Outlinks(s.docs[out]), y))
              && (forall y :: y != out ==> Count(Inlinks(r.state.docs[into]), y) == Count(Inlinks(s.docs[into]), y))
              && r.state.docs[out] == s.docs[out].(outlinks := r.state.docs[out].outlinks,
                                                   inlinks := r.state.docs[out].inlinks)
              && r.state.docs[into] == s.docs[into].(outlinks := r.state.docs[into].outlinks,
                                                     inlinks := r.state.docs[into].inlinks)
    ensures r.Done? && r.value && out != into ==>
              r.state.docs[out].inlinks == s.docs[out].inlinks && r.state.docs[into].outlinks == s.docs[into].outlinks
  {
    match DeleteLink(s, out, into)
    case Crashed(s1, f) => Crashed(s1, f)
    case Done(s1, removed) =>
      if !removed then Done(s1, false)
      else if into !in s1.docs then Crashed(s1, AttributeError)
      else
        var e := s1.docs[into];
        match e.inlinks
        case None => Done(s1, false)
        case Some(links) =>
          if out !in links then Crashed(s1, ValueError)
          else Done(s1.(docs := s1.docs[into := e.(inlinks := Some(RemoveFirst(links, out)))]), true)
  }

  /** The link lists mirror each other: every stored document lists another
      stored document as an outlink as often as the latter lists the former
      as an inlink. */
  predicate LinksSymmetric(s: Store) {
    forall a, b :: a in s.docs && b in s.docs ==> Count(Outlinks(s.docs[a]), b) == Count(Inlinks(s.docs[b]), a)
  }

  /** `add_link` keeps the link lists mirrored. */
  lemma AddLinkKeepsSymmetric(s: Store, out: Id, into: Id)
    requires LinksSymmetric(s)
    ensures LinksSymmetric(AddLink(s, out, into).state) || AddLink(s, out, into).Crashed?
  {
    var r := AddLink(s, out, into);
    if r.Done? {
      var t := r.state;
      forall a, b | a in t.docs && b in t.docs
        ensures Count(Outlinks(t.docs[a]), b) == Count(Inlinks(t.docs[b]), a)
      {
        AddLinkPair(s, out, into, a, b);
      }
    }
  }

  /** One pair of documents after `add_link`: each side gains exactly the
      occurrence the other side gains. */
  lemma AddLinkPair(s: Store, out: Id, into: Id, a: Id, b: Id)
    requires out in s.docs && into in s.docs && a in s.docs && b in s.docs
    ensures var t := AddLink(s, out, into).state.docs;
            Count(Outlinks(t[a]), b) == Count(Outlinks(s.docs[a]), b) + (if a == out && b == into then 1 else 0)
            && Count(Inlinks(t[b]), a) == Count(Inlinks(s.docs[b]), a) + (if a == out && b == into then 1 else 0)
  {
    var t := AddLink(s, out, into).state.docs;
    if a == out {
      CountAppend(Outlinks(s.docs[out]), [into], b);
    } else if a == into {
      assert Outlinks(t[a]) == Outlinks(s.docs[a]);
    } else {
      assert t[a] == s.docs[a];
    }
    if b == into {
      CountAppend(Inlinks(s.docs[into]), [out], a);
    } else if b == out {
      assert Inlinks(t[b]) == Inlinks(s.docs[b]);
    } else {
      assert t[b] == s.docs[b];
    }
  }

  /** With both updates, removing a link keeps the lists mirrored. */
  lemma DeleteLinkSymmetricKeepsSymmetric(s: Store, out: Id, into: Id)
    requires LinksSymmetric(s)
    requires out in s.docs && into in s.docs && into in Outlinks(s.docs[out])
    ensures DeleteLinkSymmetric(s, out, into).Done?
    ensures LinksSymmetric(DeleteLinkSymmetric(s, out, into).state)
  {
    var d := s.docs[out];
    CountPositive(Outlinks(d), into);
    assert Count(Inlinks(s.docs[into]), out) >= 1;
    CountPositive(Inlinks(s.docs[into]), out);
    var outs := RemoveFirst(d.outlinks.value, into);
    var docs1 := s.docs[out := d.(outlinks := Some(outs))];
    var e := docs1[into];
    assert e.inlinks == s.docs[into].inlinks;
    var ins := RemoveFirst(e.inlinks.value, out);
    var docs2 := docs1[into := e.(inlinks := Some(ins))];
    assert DeleteLink(s, out, into) == Done(s.(docs := docs1), true);
    assert DeleteLinkSymmetric(s, out, into) == Done(s.(docs := docs2), true);
    forall a, b | a in docs2 && b in docs2
      ensures Count(Outlinks(docs2[a]), b) == Count(Inlinks(docs2[b]), a)
    {
      assert Outlinks(docs2[a]) == if a == out then outs else Outlinks(s.docs[a]);
      assert Inlinks(docs2[b]) == if b == into then ins else Inlinks(s.docs[b]);
    }
  }

  /** As written, `delete_link` breaks the mirror: the inlinks of the
      target still list the source after the outlink is gone. */
  lemma DeleteLinkBreaksSymmetry()
    ensures var s := Store(["a", "b"],
                           map["a" := Doc("papers", "A", [], None, None, Some([]), Some(["b"]), Some("a")),
                               "b" := Doc("papers", "B", [], None, None, Some(["a"]), Some([]), Some("b"))],
                           map[], map[]);
            && LinksSymmetric(s)
            && DeleteLink(s, "a", "b").Done?
            && !LinksSymmetric(DeleteLink(s, "a", "b").state)
  {
    var s := Store(["a", "b"],
                   map["a" := Doc("papers", "A", [], None, None, Some([]), Some(["b"]), Some("a")),
                       "b" := Doc("papers", "B", [], None, None, Some(["a"]), Some([]), Some("b"))],
                   map[], map[]);
    assert Count(["b"], "b") == 1;
    assert Count(["a"], "a") == 1;
    assert Count(["b"], "a") == 0;
    assert Count(["a"], "b") == 0;
    var t := DeleteLink(s, "a", "b").state;
    assert Outlinks(t.docs["a"]) == [];
    assert Count(Inlinks(t.docs["b"]), "a") == 1;
  }

  // ---------------------------------------------------------------------
  // Notes

  /** `add_note`: stores the note under the document with the id the store
      allocates (`newId`), at the position `at` that id gives it in the
      note collection's stream. A document without an id addresses a key
      that nothing reads back. */
  function AddNote(s: Store, docId: Option<Id>, note: Note, newId: Id, at: nat): (r: Store)
    requires at <= |GetNotes(s, docId)|
    ensures docId.Some? ==> GetNotes(r, docId) == Insert(GetNotes(s, docId), at, note.(id := Some(newId)))
    ensures forall k :: k in s.notes && Some(k) != docId ==> k in r.notes && r.notes[k] == s.notes[k]
    ensures r.docs == s.docs && r.order == s.order && r.authors == s.authors
  {
    if docId.None? then s
    else s.(notes := s.notes[docId.value := Insert(GetNotes(s, docId), at, note.(id := Some(newId)))])
  }

  lemma AddNoteKeepsValid(s: Store, docId: Option<Id>, note: Note, newId: Id, at: nat)
    requires Valid(s) && at <= |GetNotes(s, docId)|
    requires forall n :: n in GetNotes(s, docId) ==> n.id != Some(newId)
    ensures Valid(AddNote(s, docId, note, newId, at))
  {
    if docId.Some? {
      var before := GetNotes(s, docId);
      var ns := Insert(before, at, note.(id := Some(newId)));
      forall i, j | 0 <= i < j < |ns|
        ensures ns[i].id != ns[j].id
      {
        var i' := if i < at then i else i - 1;
        var j' := if j < at then j else j - 1;
        if i != at && j != at {
          assert ns[i] == before[i'] && ns[j] == before[j'] && i' < j';
        } else if i == at {
          assert ns[j] == before[j'];
        } else {
          assert ns[i] == before[i'];
        }
      }
    }
  }

  /** Deleting a note right after adding it under a fresh key restores the
      document's notes, provided no stored note refers to that key. */
  lemma AddThenDeleteNote(s: Store, docId: Id, note: Note, newId: Id, at: nat)
    requires at <= |GetNotes(s, Some(docId))|
    requires forall n :: n in GetNotes(s, Some(docId)) ==> n.id != Some(newId) && n.refId != newId
    ensures var added := AddNote(s, Some(docId), note, newId, at);
            && DeleteNote(added, Some(docId), Some(newId)).1
            && GetNotes(DeleteNote(added, Some(docId), Some(newId)).0, Some(docId)) == GetNotes(s, Some(docId))
  {
    var ns := GetNotes(s, Some(docId));
    RemoveNoteInserted(ns, at, note.(id := Some(newId)), newId, docId);
    assert Repoint(ns, newId, docId) == ns;
  }

  /** Removing a note just inserted under an id no other note has takes
      out exactly that note. */
  lemma RemoveNoteInserted(ns: seq<Note>, at: nat, stored: Note, newId: Id, docId: Id)
    requires at <= |ns| && stored.id == Some(newId)
    requires forall n :: n in ns ==> n.id != Some(newId)
    ensures RemoveNote(Insert(ns, at, stored), newId, docId) == Some(Repoint(ns, newId, docId))
  {
    var all := Insert(ns, at, stored);
    assert forall j :: 0 <= j < |all| && j != at ==> all[j] in ns;
    assert NoteIndex(all, newId) == Some(at);
    RemoveInserted(ns, at, stored);
  }

  /** Index of the first note with the given id. */
  function NoteIndex(ns: seq<Note>, id: Id): (r: Option<nat>)
    ensures r.None? <==> forall i :: 0 <= i < |ns| ==> ns[i].id != Some(id)
    ensures r.Some? ==> r.value < |ns| && ns[r.value].id == Some(id)
                        && forall j :: 0 <= j < r.value ==> ns[j].id != Some(id)
  {
    if ns == [] then None
    else if ns[0].id == Some(id) then Some(0)
    else
      var r := NoteIndex(ns[1..], id);
      if r.Some? then Some(r.value + 1) else None
  }

  /** Re-attaches the children of `from` to `to`. */
  function Repoint(ns: seq<Note>, from: Id, to: Id): (r: seq<Note>)
    ensures |r| == |ns|
    ensures forall i :: 0 <= i < |ns| ==> r[i] == (if ns[i].refId == from then ns[i].(refId := to) else ns[i])
  {
    seq(|ns|, i requires 0 <= i < |ns| => if ns[i].refId == from then ns[i].(refId := to) else ns[i])
  }

  /** The note list after deleting the first note with id `noteId` and
      re-attaching its children to `docId`; `None` when there is no such
      note. */
  function RemoveNote(ns: seq<Note>, noteId: Id, docId: Id): (r: Option<seq<Note>>)
    ensures r.None? <==> forall n :: n in ns ==> n.id != Some(noteId)
    ensures r.Some? ==> |r.value| == |ns| - 1
  {
    match NoteIndex(ns, noteId)
    case None => None
    case Some(i) => Some(Repoint(ns[..i] + ns[i + 1..], noteId, docId))
  }

  /** `delete_note`: returns False and changes nothing when the document
      has no note with that id; otherwise deletes the first such note and
      re-attaches every note that referred to it to the document. */
  function DeleteNote(s: Store, docId: Option<Id>, noteId: Option<Id>): (r: (Store, bool))
    ensures !r.1 <==> (docId.None? || noteId.None? || forall n :: n in GetNotes(s, docId) ==> n.id != noteId)
    ensures !r.1 ==> r.0 == s
    ensures r.1 ==> |GetNotes(r.0, docId)| == |GetNotes(s, docId)| - 1
    ensures forall k :: k in s.notes && Some(k) != docId ==> k in r.0.notes && r.0.notes[k] == s.notes[k]
    ensures r.0.docs == s.docs && r.0.order == s.order && r.0.authors == s.authors
  {
    if docId.None? || noteId.None? then (s, false)
    else
      match RemoveNote(GetNotes(s, docId), noteId.value, docId.value)
      case None => (s, false)
      case Some(rest) => (s.(notes := s.notes[docId.value := rest]), true)
  }

  /** After a successful `delete_note` no note refers to the deleted one:
      its children now refer to the document, and every other note that
      was not deleted is kept as it was. */
  lemma DeleteNoteRepoints(s: Store, docId: Option<Id>, noteId: Option<Id>)
    requires DeleteNote(s, docId, noteId).1
    ensures docId != noteId ==> forall n :: n in GetNotes(DeleteNote(s, docId, noteId).0, docId) ==> Some(n.refId) != noteId
    ensures forall n :: n in GetNotes(s, docId) && n.id != noteId && Some(n.refId) != noteId ==>
              n in GetNotes(DeleteNote(s, docId, noteId).0, docId)
    ensures forall n :: n in GetNotes(s, docId) && n.id != noteId && Some(n.refId) == noteId ==>
              n.(refId := docId.value) in GetNotes(DeleteNote(s, docId, noteId).0, docId)
  {
    var ns := GetNotes(s, docId);
    assert GetNotes(DeleteNote(s, docId, noteId).0, docId) == RemoveNote(ns, noteId.value, docId.value).value;
    RemoveNoteRepoints(ns, noteId.value, docId.value);
  }

  /** The list-level half of `DeleteNoteRepoints`. */
  lemma RemoveNoteRepoints(ns: seq<Note>, noteId: Id, docId: Id)
    requires RemoveNote(ns, noteId, docId).Some?
    ensures docId != noteId ==> forall n :: n in RemoveNote(ns, noteId, docId).value ==> n.refId != noteId
    ensures forall n :: n in ns && n.id != Some(noteId) ==>
              (if n.refId == noteId then n.(refId := docId) else n) in RemoveNote(ns, noteId, docId).value
  {
    var i := NoteIndex(ns, noteId).value;
    var rest := ns[..i] + ns[i + 1..];
    var repointed := Repoint(rest, noteId, docId);
    forall n | n in ns && n.id != Some(noteId)
      ensures (if n.refId == noteId then n.(refId := docId) else n) in repointed
    {
      var j :| 0 <= j < |ns| && ns[j] == n;
      var k := if j < i then j else j - 1;
      assert rest[k] == n;
      assert repointed[k] == (if n.refId == noteId then n.(refId := docId) else n);
    }
  }

  /** With unique note ids the deleted note is gone afterwards. */
  lemma DeleteNoteRemovesIt(s: Store, docId: Option<Id>, noteId: Option<Id>)
    requires Valid(s)
    requires DeleteNote(s, docId, noteId).1
    ensures forall n :: n in GetNotes(DeleteNote(s, docId, noteId).0, docId) ==> n.id != noteId
  {
    var ns := GetNotes(s, docId);
    assert NoteIdsDistinct(ns);
    assert GetNotes(DeleteNote(s, docId, noteId).0, docId) == RemoveNote(ns, noteId.value, docId.value).value;
    RemoveNoteRemovesIt(ns, noteId.value, docId.value);
  }

  /** The list-level half of `DeleteNoteRemovesIt`. */
  lemma RemoveNoteRemovesIt(ns: seq<Note>, noteId: Id, docId: Id)
    requires NoteIdsDistinct(ns)
    requires RemoveNote(ns, noteId, docId).Some?
    ensures forall n :: n in RemoveNote(ns, noteId, docId).value ==> n.id != Some(noteId)
  {
    var i := NoteIndex(ns, noteId).value;
    var rest := ns[..i] + ns[i + 1..];
    var repointed := Repoint(rest, noteId, docId);
    forall n | n in repointed
      ensures n.id != Some(noteId)
    {
      var k :| 0 <= k < |repointed| && repointed[k] == n;
      var j := if k < i then k else k + 1;
      assert rest[k] == ns[j] && n.id == ns[j].id;
    }
  }
}
