/**
  The entity value objects of the literature-review tool (document, author,
  note) and their dictionary form as written to and read from the document
  store (`to_dict` / `from_ref`).
 */
module DocumentTypes {
  import opened Base

  /** An author reference embedded in a document: the two keys the shell
      writes for each author. */
  datatype AuthorName = AuthorName(lastname: string, firstname: string)

  /** A tracked bibliographic document. `inlinks`/`outlinks` are `None`
      where the Python attribute is `None` (the key is then left out of the
      stored dictionary). */
  datatype Doc = Doc(
    doctype: string,
    title: string,
    authors: seq<AuthorName>,
    year: Option<int>,
    doi: Option<string>,
    inlinks: Option<seq<Id>>,
    outlinks: Option<seq<Id>>,
    id: Option<Id>)

  datatype Author = Author(
    lastname: string,
    firstname: string,
    docCount: int,
    affiliation: Option<string>,
    email: Option<string>,
    id: Option<Id>)
  {
    /** The store's identity key for authors: exact (lastname, firstname). */
    function Name(): AuthorName {
      AuthorName(lastname, firstname)
    }
  }

  /** A note attached to a document or to another note (`refId`). */
  datatype Note = Note(refId: Id, notetype: string, body: string, id: Option<Id>, page: Option<string>)

  /** Either kind of object the navigation code handles. */
  datatype Obj = DocObj(doc: Doc) | NoteObj(note: Note) {
    function Id(): Option<Id> {
      match this
      case DocObj(d) => d.id
      case NoteObj(n) => n.id
    }
  }

  /** The closed vocabulary of notetypes accepted by the note constructor. */
  const ValidNotetypes: seq<string> :=
    ["notes", "selections", "ideas", "todos", "measures", "designs",
     "procedures", "results", "summaries", "challenges", "RQs", "theories"]

  /** The document kinds the shell offers. The constructor does not check
      them (its own default, "docs", is not one of them). */
  const ValidDoctypes: seq<string> := ["papers", "notebooks"]

  // ---------------------------------------------------------------------
  // Construction

  /** A year argument as handed to the constructor: already an integer, or
      text typed at the prompt. */
  datatype YearArg = YearInt(i: int) | YearText(text: string)

  /** Python's `int(year)`. */
  function YearValue(y: YearArg): (r: Result<int>)
    ensures y.YearInt? ==> r == Ok(y.i)
    ensures y.YearText? ==> (r.Ok? <==> ParseInt(y.text).Some?)
  {
    match y
    case YearInt(i) => Ok(i)
    case YearText(t) =>
      match ParseInt(t)
      case Some(i) => Ok(i)
      case None => Err(ValueError)
  }

  /** A year typed with whitespace around it is read as the number, as
      `int(" 2020\n")` is 2020. */
  lemma PaddedYearAccepted(a: string, digits: string, b: string)
    requires AllSpace(a) && AllSpace(b) && |digits| > 0 && AllDigits(digits)
    ensures YearValue(YearText(a + digits + b)) == Ok(DigitsValue(digits) as int)
  {
    assert !IsSpace(digits[0]) && !IsSpace(digits[|digits| - 1]);
    PaddingIgnored(a, digits, b);
  }

  /** A year typed with an underscore between digits is read as the digits
      without it, as `int("2_020")` is 2020. */
  lemma GroupedYearAccepted(x: string, y: string)
    requires |x| > 0 && AllDigits(x) && |y| > 0 && AllDigits(y)
    ensures YearValue(YearText(x + "_" + y)) == Ok(DigitsValue(x + y) as int)
  {
    UnderscoreIgnored(x, y);
    assert AllDigits(x + y);
  }

  /** `Doc.__init__`: the year is converted to an integer (raising
      ValueError on text that is not one) and the DOI is lower-cased. */
  function NewDoc(doctype: string, title: string, authors: seq<AuthorName>, year: Option<YearArg>,
                  doi: Option<string>, inlinks: Option<seq<Id>>, outlinks: Option<seq<Id>>,
                  id: Option<Id>): (r: Result<Doc>)
    ensures r.Ok? <==> (year.None? || YearValue(year.value).Ok?)
    ensures r.Ok? ==> r.value.doi.None? == doi.None?
    ensures r.Ok? && doi.Some? ==> r.value.doi.value == Lower(doi.value)
    ensures r.Ok? && year.Some? ==> r.value.year == Some(YearValue(year.value).value)
    ensures r.Ok? && year.None? ==> r.value.year.None?
    ensures r.Ok? ==> r.value.doctype == doctype && r.value.title == title && r.value.authors == authors
                      && r.value.inlinks == inlinks && r.value.outlinks == outlinks && r.value.id == id
  {
    var y :- match year
             case None => Ok(None)
             case Some(arg) =>
               match YearValue(arg)
               case Ok(i) => Ok(Some(i))
               case Err(f) => Err(f);
    var d := match doi case None => None case Some(text) => Some(Lower(text));
    Ok(Doc(doctype, title, authors, y, d, inlinks, outlinks, id))
  }

  /** The DOI a constructed document stores is already lower case, so
      normalising it again would change nothing. */
  lemma NewDocDoiNormalised(doctype: string, title: string, authors: seq<AuthorName>, year: Option<YearArg>,
                            doi: string, inlinks: Option<seq<Id>>, outlinks: Option<seq<Id>>, id: Option<Id>)
    requires NewDoc(doctype, title, authors, year, Some(doi), inlinks, outlinks, id).Ok?
    ensures var d := NewDoc(doctype, title, authors, year, Some(doi), inlinks, outlinks, id).value;
            d.doi.Some? && Lower(d.doi.value) == d.doi.value
  {
    LowerIdempotent(doi);
  }

  /** `Note.__init__`: raises ValueError unless the notetype is one of the
      twelve valid ones, otherwise stores every field as given. */
  function NewNote(refId: Id, notetype: string, body: string, id: Option<Id>, page: Option<string>): (r: Result<Note>)
    ensures r.Err? <==> notetype !in ValidNotetypes
    ensures r.Err? ==> r.fault == ValueError
    ensures r.Ok? ==> r.value.refId == refId && r.value.notetype == notetype && r.value.body == body
                      && r.value.id == id && r.value.page == page
  {
    if notetype in ValidNotetypes then Ok(Note(refId, notetype, body, id, page)) else Err(ValueError)
  }

  // ---------------------------------------------------------------------
  // Dictionary form

  /** The keys the stored dictionaries use, one per field name (`doctype`,
      `title`, `authors`, `year`, `doi`, `inlinks`, `outlinks`, `id`,
      `lastname`, `firstname`, `doc_count`, `affiliation`, `email`,
      `ref_id`, `notetype`, `body`, `page`). */
  datatype Key =
    | DoctypeKey | TitleKey | AuthorsKey | YearKey | DoiKey | InlinksKey | OutlinksKey | IdKey
    | LastnameKey | FirstnameKey | DocCountKey | AffiliationKey | EmailKey
    | RefIdKey | NotetypeKey | BodyKey | PageKey

  /** The values that appear in a stored dictionary. */
  datatype Value = Null | Str(s: string) | Int(i: int) | List(items: seq<Value>) | Dict(fields: map<Key, Value>)

  /** A store reference: its id and the dictionary `to_dict()` returns. */
  datatype Snapshot = Snapshot(id: Id, data: map<Key, Value>)

  function StrList(xs: seq<string>): (r: seq<Value>)
    ensures |r| == |xs|
    ensures forall i :: 0 <= i < |xs| ==> r[i] == Str(xs[i])
  {
    if xs == [] then [] else [Str(xs[0])] + StrList(xs[1..])
  }

  function EncodeAuthor(a: AuthorName): Value {
    Dict(map[LastnameKey := Str(a.lastname), FirstnameKey := Str(a.firstname)])
  }

  function EncodeAuthors(authors: seq<AuthorName>): (r: seq<Value>)
    ensures |r| == |authors|
  {
    if authors == [] then [] else [EncodeAuthor(authors[0])] + EncodeAuthors(authors[1..])
  }

  function DecodeAuthor(v: Value): Result<AuthorName> {
    if v.Dict? && LastnameKey in v.fields && FirstnameKey in v.fields
       && v.fields[LastnameKey].Str? && v.fields[FirstnameKey].Str?
    then Ok(AuthorName(v.fields[LastnameKey].s, v.fields[FirstnameKey].s))
    else Err(Malformed)
  }

  function DecodeAuthors(vs: seq<Value>): (r: Result<seq<AuthorName>>)
    ensures r.Ok? ==> |r.value| == |vs|
  {
    if vs == [] then Ok([])
    else
      var head :- DecodeAuthor(vs[0]);
      var tail :- DecodeAuthors(vs[1..]);
      Ok([head] + tail)
  }

  lemma {:induction false} AuthorsRoundTrip(authors: seq<AuthorName>)
    ensures DecodeAuthors(EncodeAuthors(authors)) == Ok(authors)
  {
    if authors != [] {
      var vs := EncodeAuthors(authors);
      assert vs[1..] == EncodeAuthors(authors[1..]);
      AuthorsRoundTrip(authors[1..]);
      assert [authors[0]] + authors[1..] == authors;
    }
  }

  function DecodeStrList(vs: seq<Value>): (r: Result<seq<string>>)
    ensures r.Ok? ==> |r.value| == |vs|
  {
    if vs == [] then Ok([])
    else if vs[0].Str? then
      var tail :- DecodeStrList(vs[1..]);
      Ok([vs[0].s] + tail)
    else Err(Malformed)
  }

  lemma {:induction false} StrListRoundTrip(xs: seq<string>)
    ensures DecodeStrList(StrList(xs)) == Ok(xs)
  {
    if xs != [] {
      assert StrList(xs)[1..] == StrList(xs[1..]);
      StrListRoundTrip(xs[1..]);
      assert [xs[0]] + xs[1..] == xs;
    }
  }

  /** A stored optional field read back by plain attribute assignment:
      a stored null becomes `None`. */
  function OptStr(v: Value): Result<Option<string>> {
    match v
    case Null => Ok(None)
    case Str(s) => Ok(Some(s))
    case _ => Err(Malformed)
  }

  function OptInt(v: Value): Result<Option<int>> {
    match v
    case Null => Ok(None)
    case Int(i) => Ok(Some(i))
    case _ => Err(Malformed)
  }

  function OptIds(v: Value): Result<Option<seq<Id>>> {
    match v
    case Null => Ok(None)
    case List(items) =>
      var ids :- DecodeStrList(items);
      Ok(Some(ids))
    case _ => Err(Malformed)
  }

  /** `Doc.to_dict`: the three mandatory keys always, each optional field
      only when it is not `None`. */
  function DocToDict(d: Doc): (r: map<Key, Value>)
    ensures DoctypeKey in r && TitleKey in r && AuthorsKey in r
    ensures YearKey in r <==> d.year.Some?
    ensures DoiKey in r <==> d.doi.Some?
    ensures InlinksKey in r <==> d.inlinks.Some?
    ensures OutlinksKey in r <==> d.outlinks.Some?
    ensures IdKey in r <==> d.id.Some?
    ensures r.Keys <= {DoctypeKey, TitleKey, AuthorsKey, YearKey, DoiKey, InlinksKey, OutlinksKey, IdKey}
    ensures r[DoctypeKey] == Str(d.doctype) && r[TitleKey] == Str(d.title)
    ensures r[AuthorsKey] == List(EncodeAuthors(d.authors))
    ensures d.year.Some? ==> r[YearKey] == Int(d.year.value)
    ensures d.doi.Some? ==> r[DoiKey] == Str(d.doi.value)
    ensures d.inlinks.Some? ==> r[InlinksKey] == List(StrList(d.inlinks.value))
    ensures d.outlinks.Some? ==> r[OutlinksKey] == List(StrList(d.outlinks.value))
    ensures d.id.Some? ==> r[IdKey] == Str(d.id.value)
  {
    map k | k in DocKeys && DocField(d, k).Some? :: DocField(d, k).value
  }

  const DocKeys: set<Key> := {DoctypeKey, TitleKey, AuthorsKey, YearKey, DoiKey, InlinksKey, OutlinksKey, IdKey}

  /** The entry `Doc.to_dict` writes under `k`, if any. */
  function DocField(d: Doc, k: Key): Option<Value> {
    match k
    case DoctypeKey => Some(Str(d.doctype))
    case TitleKey => Some(Str(d.title))
    case AuthorsKey => Some(List(EncodeAuthors(d.authors)))
    case YearKey => (match d.year case Some(y) => Some(Int(y)) case None => None)
    case DoiKey => (match d.doi case Some(x) => Some(Str(x)) case None => None)
    case InlinksKey => (match d.inlinks case Some(ids) => Some(List(StrList(ids))) case None => None)
    case OutlinksKey => (match d.outlinks case Some(ids) => Some(List(StrList(ids))) case None => None)
    case IdKey => (match d.id case Some(x) => Some(Str(x)) case None => None)
    case _ => None
  }

  /** `Doc.from_ref`: builds the document from the mandatory keys (raising
      KeyError when one is missing) with the id of the reference, then
      assigns each optional field that is present, without normalising it. */
  function DocFromRef(ref: Snapshot): (r: Result<Doc>)
    ensures !(DoctypeKey in ref.data && TitleKey in ref.data && AuthorsKey in ref.data) ==> r == Err(KeyError)
    ensures r.Ok? ==> r.value.id == Some(ref.id)
    ensures r.Ok? ==> (InlinksKey !in ref.data ==> r.value.inlinks == Some([]))
                      && (OutlinksKey !in ref.data ==> r.value.outlinks == Some([]))
                      && (YearKey !in ref.data ==> r.value.year.None?)
                      && (DoiKey !in ref.data ==> r.value.doi.None?)
  {
    var data := ref.data;
    if !(DoctypeKey in data && TitleKey in data && AuthorsKey in data) then Err(KeyError)
    else if !(data[DoctypeKey].Str? && data[TitleKey].Str? && data[AuthorsKey].List?) then Err(Malformed)
    else
      var authors :- DecodeAuthors(data[AuthorsKey].items);
      var year :- if YearKey in data then OptInt(data[YearKey]) else Ok(None);
      var doi :- if DoiKey in data then OptStr(data[DoiKey]) else Ok(None);
      var inlinks :- if InlinksKey in data then OptIds(data[InlinksKey]) else Ok(Some([]));
      var outlinks :- if OutlinksKey in data then OptIds(data[OutlinksKey]) else Ok(Some([]));
      Ok(Doc(data[DoctypeKey].s, data[TitleKey].s, authors, year, doi, inlinks, outlinks, Some(ref.id)))
  }

  /** What the store holds after writing `to_dict(d)` under the key `key`,
      in document form: the same fields, with the key as its id. A link list
      that is `None` stays `None`, because its key is not written. */
  function Stored(d: Doc, key: Id): Doc {
    d.(id := Some(key))
  }

  /** What `Doc.from_ref` reads back from the document stored under `key`:
      the key as its id and a missing link list replaced by the
      constructor's empty default. */
  function Persisted(d: Doc, key: Id): Doc {
    d.(id := Some(key), inlinks := Some(d.inlinks.GetOr([])), outlinks := Some(d.outlinks.GetOr([])))
  }

  /** Reading back the dictionary of a document recovers it: every field
      as written, the id taken from the reference. */
  lemma DocRoundTrip(d: Doc, key: Id)
    ensures DocFromRef(Snapshot(key, DocToDict(d))) == Ok(Persisted(d, key))
  {
    var data := DocToDict(d);
    AuthorsRoundTrip(d.authors);
    var inlinks: Result<Option<seq<Id>>> := if InlinksKey in data then OptIds(data[InlinksKey]) else Ok(Some([]));
    if d.inlinks.Some? {
      StrListRoundTrip(d.inlinks.value);
    }
    assert inlinks == Ok(Some(d.inlinks.GetOr([])));
    var outlinks: Result<Option<seq<Id>>> := if OutlinksKey in data then OptIds(data[OutlinksKey]) else Ok(Some([]));
    if d.outlinks.Some? {
      StrListRoundTrip(d.outlinks.value);
    }
    assert outlinks == Ok(Some(d.outlinks.GetOr([])));
  }

  /** The round trip is exact for a document that already carries the
      reference's id and has both link lists. */
  lemma DocRoundTripExact(d: Doc)
    requires d.id.Some? && d.inlinks.Some? && d.outlinks.Some?
    ensures DocFromRef(Snapshot(d.id.value, DocToDict(d))) == Ok(d)
  {
    DocRoundTrip(d, d.id.value);
  }

  /** `Author.to_dict`: names and count always; affiliation and email only
      when truthy, so an empty string is dropped like `None`. */
  function AuthorToDict(a: Author): (r: map<Key, Value>)
    ensures LastnameKey in r && FirstnameKey in r && DocCountKey in r
    ensures r[DocCountKey] == Int(a.docCount)
    ensures AffiliationKey in r <==> a.affiliation.Some? && a.affiliation.value != ""
    ensures EmailKey in r <==> a.email.Some? && a.email.value != ""
    ensures IdKey in r <==> a.id.Some?
  {
    var base := map[LastnameKey := Str(a.lastname), FirstnameKey := Str(a.firstname), DocCountKey := Int(a.docCount)];
    var withAffiliation := if Truthy(a.affiliation).Some? then base[AffiliationKey := Str(a.affiliation.value)] else base;
    var withEmail := if Truthy(a.email).Some? then withAffiliation[EmailKey := Str(a.email.value)] else withAffiliation;
    if a.id.Some? then withEmail[IdKey := Str(a.id.value)] else withEmail
  }

  /** Python truthiness of an optional string. */
  function Truthy(s: Option<string>): Option<string> {
    if s.Some? && s.value != "" then s else None
  }

  /** `Author.from_ref`: KeyError unless names and count are present. */
  function AuthorFromRef(ref: Snapshot): (r: Result<Author>)
    ensures !(LastnameKey in ref.data && FirstnameKey in ref.data && DocCountKey in ref.data) ==> r == Err(KeyError)
    ensures r.Ok? ==> r.value.id == Some(ref.id)
  {
    var data := ref.data;
    if !(LastnameKey in data && FirstnameKey in data && DocCountKey in data) then Err(KeyError)
    else if !(data[LastnameKey].Str? && data[FirstnameKey].Str? && data[DocCountKey].Int?) then Err(Malformed)
    else
      var affiliation :- if AffiliationKey in data then OptStr(data[AffiliationKey]) else Ok(None);
      var email :- if EmailKey in data then OptStr(data[EmailKey]) else Ok(None);
      Ok(Author(data[LastnameKey].s, data[FirstnameKey].s, data[DocCountKey].i, affiliation, email, Some(ref.id)))
  }

  /** Reading back an author's dictionary recovers it, except that an empty
      affiliation or email comes back as `None`. */
  lemma AuthorRoundTrip(a: Author, key: Id)
    ensures AuthorFromRef(Snapshot(key, AuthorToDict(a)))
            == Ok(a.(affiliation := Truthy(a.affiliation), email := Truthy(a.email), id := Some(key)))
  {
  }

  /** `Note.to_dict`: the page key is present exactly when page is not `None`. */
  function NoteToDict(n: Note): (r: map<Key, Value>)
    ensures RefIdKey in r && NotetypeKey in r && BodyKey in r
    ensures PageKey in r <==> n.page.Some?
    ensures IdKey in r <==> n.id.Some?
    ensures r.Keys <= {RefIdKey, NotetypeKey, BodyKey, IdKey, PageKey}
  {
    var base := map[RefIdKey := Str(n.refId), NotetypeKey := Str(n.notetype), BodyKey := Str(n.body)];
    var withId := if n.id.Some? then base[IdKey := Str(n.id.value)] else base;
    if n.page.Some? then withId[PageKey := Str(n.page.value)] else withId
  }

  /** `Note.from_ref`: goes through the constructor, so a stored note with
      an unknown notetype raises ValueError on reading. */
  function NoteFromRef(ref: Snapshot): (r: Result<Note>)
    ensures !(RefIdKey in ref.data && NotetypeKey in ref.data && BodyKey in ref.data) ==> r == Err(KeyError)
    ensures r.Ok? ==> r.value.id == Some(ref.id) && r.value.notetype in ValidNotetypes
    ensures r.Ok? ==> (r.value.page.Some? <==> PageKey in ref.data && ref.data[PageKey].Str?)
  {
    var data := ref.data;
    if !(RefIdKey in data && NotetypeKey in data && BodyKey in data) then Err(KeyError)
    else if !(data[RefIdKey].Str? && data[NotetypeKey].Str? && data[BodyKey].Str?) then Err(Malformed)
    else
      var note :- NewNote(data[RefIdKey].s, data[NotetypeKey].s, data[BodyKey].s, Some(ref.id), None);
      var page :- if PageKey in data then OptStr(data[PageKey]) else Ok(None);
      Ok(note.(page := page))
  }

  /** Reading back the dictionary of a valid note recovers it, with the id
      of the reference. */
  lemma NoteRoundTrip(n: Note, key: Id)
    requires n.notetype in ValidNotetypes
    ensures NoteFromRef(Snapshot(key, NoteToDict(n))) == Ok(n.(id := Some(key)))
  {
  }

  /** A note with a notetype outside the vocabulary cannot be read back. */
  lemma NoteRoundTripRejectsInvalid(n: Note, key: Id)
    requires n.notetype !in ValidNotetypes
    ensures NoteFromRef(Snapshot(key, NoteToDict(n))) == Err(ValueError)
  {
  }
}
