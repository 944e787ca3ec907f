/** The reader's decisions as functions of its configuration and of the store's
    contents: which filter singles out a document, how the date window narrows the
    listing query, which identity each listed result yields, and what each
    single-document operation answers. The class in module Reader computes the same
    step by step. */
module ReaderSpec {
  import opened Outcomes
  import opened Bson
  import opened ObjectIds
  import opened Store
  import opened Sdk
  import opened Metadata
  import opened JavaNumbers
  import opened MongoConstants

  /** What `init` keeps of its parameters (the connection aside). */
  datatype ReaderConfig = ReaderConfig(
    gridFS: bool, idField: string, useObjectId: bool, collectionStr: string,
    query: Query, startTime: int, endTime: int)

  /** The identity field `init` settles on: an empty setting (`StringUtils.isEmpty`,
      so a blank one is kept) means the native `_id`. */
  function ResolveIdField(idField: string): (r: string)
    ensures r != ""
    ensures idField == "" ==> r == ID
    ensures idField != "" ==> r == idField
  {
    if idField == "" then ID else idField
  }

  /** A configuration `init` can leave behind: an identity field is always set, and
      `useObjectId` records whether it is `_id`. */
  predicate ValidConfig(cfg: ReaderConfig) {
    cfg.idField != "" && cfg.useObjectId == (cfg.idField == ID)
  }

  /** The state after `init`. */
  function InitConfig(p: CustomParameters): (cfg: ReaderConfig)
    ensures ValidConfig(cfg)
    ensures cfg.useObjectId <==> p.idField == "" || p.idField == ID
    ensures p.idField != "" ==> cfg.idField == p.idField
  {
    var idField := ResolveIdField(p.idField);
    ReaderConfig(p.useGridFS, idField, idField == ID, p.collection, p.query,
                 p.startTimeOfDateFilter, p.endTimeOfDateFilter)
  }

  /** `new ObjectId(text)`, throwing on text that is not 24 hex digits. */
  function NewObjectId(text: string): (r: Result<ObjectId, Error>)
    ensures r.Success? <==> IsValid(text)
    ensures r.Failure? ==> r.error == InvalidObjectId(text)
  {
    match Parse(text)
    case None => Failure(InvalidObjectId(text))
    case Some(id) => Success(id)
  }

  /** The filter that singles out document `docId`: equality on `_id` with the id parsed
      as an ObjectId, else equality of the identity field (under `metadata.` for GridFS
      files) with the id as a string. */
  function IdentityFilter(gridFS: bool, idField: string, docId: string): (r: Result<Query, Error>)
    ensures r.Failure? <==> idField == ID && !IsValid(docId)
    ensures r.Failure? ==> r.error == InvalidObjectId(docId)
  {
    if idField == ID then
      match NewObjectId(docId)
      case Failure(e) => Failure(e)
      case Success(id) => Success(map[ID := Equals(BObjectId(id))])
    else if gridFS then Success(map[METADATA_DOT + idField := Equals(BString(docId))])
    else Success(map[idField := Equals(BString(docId))])
  }

  /** On GridFS files the identity filter selects the file whose id the text parses to,
      or the files whose metadata holds the text under the identity field. */
  lemma IdentityFilterOnFiles(idField: string, docId: string, f: GridFSFile)
    requires IdentityFilter(true, idField, docId).Success?
    ensures FileMatches(IdentityFilter(true, idField, docId).value, f) <==>
      if idField == ID then Parse(docId) == Some(f.id)
      else MetadataField(f, idField) == Some(BString(docId))
  {
    var q := IdentityFilter(true, idField, docId).value;
    if idField != ID {
      var path := METADATA_DOT + idField;
      assert path[0] == 'm';
      assert path != ID && path != "filename" && path != "length";
      assert IsMetadataPath(path) && path[|METADATA_DOT|..] == idField;
      assert q == map[path := Equals(BString(docId))];
      assert FileMatches(q, f) <==> Holds(q[path], FileField(f, path));
    } else {
      var id := Parse(docId).value;
      assert q == map[ID := Equals(BObjectId(id))];
      assert FileMatches(q, f) <==> Holds(q[ID], FileField(f, ID));
    }
  }

  /** On plain records the identity filter selects the records whose `_id` is the parsed
      ObjectId, or whose identity field holds the text. */
  lemma IdentityFilterOnRecords(idField: string, docId: string, r: Record)
    requires IdentityFilter(false, idField, docId).Success?
    ensures RecordMatches(IdentityFilter(false, idField, docId).value, r) <==>
      if idField == ID then Parse(docId).Some? && RecordField(r, ID) == Some(BObjectId(Parse(docId).value))
      else RecordField(r, idField) == Some(BString(docId))
  {
    var q := IdentityFilter(false, idField, docId).value;
    assert idField in q;
    assert RecordMatches(q, r) <==> Holds(q[idField], RecordField(r, idField));
  }

  /** The query path the date window constrains. */
  const LAST_MODIFIED_PATH := METADATA_DOT + LAST_MODIFIED

  /** The `$gte`/`$lte` condition `setQueryDateFields` builds: a bound only for a
      positive time, and no condition at all when neither is positive. */
  function DateWindow(startTime: int, endTime: int): (r: Option<Condition>)
    ensures r.None? <==> startTime <= 0 && endTime <= 0
    ensures r.Some? ==>
      r.value.Range? && (r.value.gte.Some? <==> startTime > 0) && (r.value.lte.Some? <==> endTime > 0)
  {
    var gte := if startTime > 0 then Some(startTime) else None;
    var lte := if endTime > 0 then Some(endTime) else None;
    if gte.None? && lte.None? then None else Some(Range(gte, lte))
  }

  /** The listing query after `setQueryDateFields`: unchanged without a window,
      otherwise with `metadata.last_modified` set (replacing any condition the query
      had on it) and every other condition kept. */
  function WithDateFields(q: Query, startTime: int, endTime: int): (r: Query)
    ensures startTime <= 0 && endTime <= 0 ==> r == q
    ensures startTime > 0 || endTime > 0 ==> r.Keys == q.Keys + {LAST_MODIFIED_PATH}
    ensures forall path :: path in q && path != LAST_MODIFIED_PATH ==> r[path] == q[path]
  {
    match DateWindow(startTime, endTime)
    case None => q
    case Some(c) => q[LAST_MODIFIED_PATH := c]
  }

  /** Whether a file's recorded modification date lies in the window; a bound that is
      not positive is absent. */
  predicate InDateWindow(f: GridFSFile, startTime: int, endTime: int) {
    match MetadataField(f, LAST_MODIFIED)
    case Some(BDateTime(ms)) => (startTime <= 0 || startTime <= ms) && (endTime <= 0 || ms <= endTime)
    case _ => false
  }

  /** With a window, a file meets the narrowed query exactly when it meets the rest of
      the caller's query and its modification date lies in the window. */
  lemma DateFieldsNarrowListing(q: Query, startTime: int, endTime: int, f: GridFSFile)
    requires startTime > 0 || endTime > 0
    ensures FileMatches(WithDateFields(q, startTime, endTime), f) <==>
      FileMatches(q - {LAST_MODIFIED_PATH}, f) && InDateWindow(f, startTime, endTime)
  {
    var r := WithDateFields(q, startTime, endTime);
    var path := LAST_MODIFIED_PATH;
    assert path[0] == 'm';
    assert path != ID && path != "filename" && path != "length";
    assert IsMetadataPath(path) && path[|METADATA_DOT|..] == LAST_MODIFIED;
    assert FileField(f, path) == MetadataField(f, LAST_MODIFIED);
    assert Holds(r[path], FileField(f, path)) <==> InDateWindow(f, startTime, endTime);
    if FileMatches(q - {path}, f) && InDateWindow(f, startTime, endTime) {
      forall p | p in r ensures Holds(r[p], FileField(f, p)) {
        if p != path {
          assert p in q - {path};
        }
      }
    }
  }

  /** One result of the listing query. */
  datatype Entry = FileEntry(file: GridFSFile) | RecordEntry(record: Record)

  /** A listed GridFS file's identity: the text of its metadata's identity field, or
      its ObjectId in hex when the identity field is `_id`; none when the file has no
      metadata, or its metadata lacks the identity field. */
  function FileIdentity(idField: string, f: GridFSFile, dateText: DateRenderer): (r: Option<string>)
    ensures r.None? <==> f.metadata.None? || (idField != ID && idField !in f.metadata.value)
    ensures idField == ID && r.Some? ==> r.value == ToHexString(f.id)
    ensures idField != ID && f.metadata.Some? && idField in f.metadata.value ==>
      r == Some(ValueOf(f.metadata.value[idField], dateText))
  {
    if idField != ID && f.metadata.Some? && idField in f.metadata.value then
      Some(ValueOf(f.metadata.value[idField], dateText))
    else if idField == ID && f.metadata.Some? then Some(ToHexString(f.id))
    else None
  }

  /** A listed record's identity: the text of the identity field when it is not `_id`
      and the record has it, else the text of `_id` read as an ObjectId (`"null"` when
      the record has none); an `_id` of another type throws. */
  function RecordIdentity(idField: string, r: Record, dateText: DateRenderer): (res: Result<string, Error>)
    ensures res.Failure? <==> (idField == ID || idField !in r) && ID in r && !r[ID].BObjectId? && !r[ID].BNull?
    ensures res.Failure? ==> res.error == NotAnObjectId
    ensures idField != ID && idField in r ==> res == Success(ValueOf(r[idField], dateText))
    ensures (idField == ID || idField !in r) && ID in r && r[ID].BObjectId? ==> res == Success(ToHexString(r[ID].id))
    ensures (idField == ID || idField !in r) && (ID !in r || r[ID].BNull?) ==> res == Success("null")
  {
    if idField != ID && idField in r then Success(ValueOf(r[idField], dateText))
    else
      match Get(r, ID)
      case BObjectId(id) => Success(ToHexString(id))
      case BNull => Success("null")
      case _ => Failure(NotAnObjectId)
  }

  /** The identity the listing loop resolves for one result: a record always has one
      (or throws); a file may have none. */
  function EntryIdentity(idField: string, e: Entry, dateText: DateRenderer): (r: Result<Option<string>, Error>)
    ensures e.RecordEntry? ==> r != Success(None)
    ensures e.FileEntry? ==> r.Success?
  {
    match e
    case FileEntry(f) => Success(FileIdentity(idField, f, dateText))
    case RecordEntry(rec) =>
      match RecordIdentity(idField, rec, dateText)
      case Failure(err) => Failure(err)
      case Success(t) => Success(Some(t))
  }

  /** The listing query's results, in natural order: the bucket's files meeting the
      query narrowed by the date window, or the collection's records meeting the query. */
  function Listing(cfg: ReaderConfig, s: Store): (r: seq<Entry>)
    ensures cfg.gridFS ==> forall i :: 0 <= i < |r| ==> r[i].FileEntry?
    ensures !cfg.gridFS ==> forall i :: 0 <= i < |r| ==> r[i].RecordEntry?
  {
    if cfg.gridFS then
      var files := FindFiles(Bucket(s, cfg.collectionStr), WithDateFields(cfg.query, cfg.startTime, cfg.endTime));
      seq(|files|, i requires 0 <= i < |files| => FileEntry(files[i]))
    else
      var records := FindRecords(Collection(s, cfg.collectionStr), cfg.query);
      seq(|records|, i requires 0 <= i < |records| => RecordEntry(records[i]))
  }

  /** The listing holds exactly the bucket's files meeting the date-narrowed query, or
      exactly the collection's records meeting the caller's query. */
  lemma ListingMembers(cfg: ReaderConfig, s: Store, e: Entry)
    ensures e in Listing(cfg, s) <==>
      if cfg.gridFS then
        e.FileEntry? && e.file in Bucket(s, cfg.collectionStr)
        && FileMatches(WithDateFields(cfg.query, cfg.startTime, cfg.endTime), e.file)
      else
        e.RecordEntry? && e.record in Collection(s, cfg.collectionStr) && RecordMatches(cfg.query, e.record)
  {
    var r := Listing(cfg, s);
    if cfg.gridFS {
      var files := FindFiles(Bucket(s, cfg.collectionStr), WithDateFields(cfg.query, cfg.startTime, cfg.endTime));
      assert forall i :: 0 <= i < |files| ==> r[i] == FileEntry(files[i]);
      if e.FileEntry? && e.file in files {
        var i :| 0 <= i < |files| && files[i] == e.file;
        assert r[i] == e;
      }
    } else {
      var records := FindRecords(Collection(s, cfg.collectionStr), cfg.query);
      assert forall i :: 0 <= i < |records| ==> r[i] == RecordEntry(records[i]);
      if e.RecordEntry? && e.record in records {
        var i :| 0 <= i < |records| && records[i] == e.record;
        assert r[i] == e;
      }
    }
  }

  /** In GridFS mode with a date window, a file is listed exactly when it is in the bucket,
      meets the rest of the caller's query, and was last modified inside the window;
      without a window, exactly when it is in the bucket and meets the caller's query. */
  lemma ListingDateWindow(cfg: ReaderConfig, s: Store, f: GridFSFile)
    requires cfg.gridFS
    ensures cfg.startTime > 0 || cfg.endTime > 0 ==>
      (FileEntry(f) in Listing(cfg, s) <==>
         f in Bucket(s, cfg.collectionStr) && FileMatches(cfg.query - {LAST_MODIFIED_PATH}, f)
         && InDateWindow(f, cfg.startTime, cfg.endTime))
    ensures cfg.startTime <= 0 && cfg.endTime <= 0 ==>
      (FileEntry(f) in Listing(cfg, s) <==> f in Bucket(s, cfg.collectionStr) && FileMatches(cfg.query, f))
  {
    ListingMembers(cfg, s, FileEntry(f));
    if cfg.startTime > 0 || cfg.endTime > 0 {
      DateFieldsNarrowListing(cfg.query, cfg.startTime, cfg.endTime, f);
    }
  }

  /** A reserved text attribute of a plain record: `""` when absent, its `toString()`
      when present, and a failure (a null dereference) when it holds null. */
  function TextField(r: Record, key: string, dateText: DateRenderer): (res: Result<string, Error>)
    ensures key !in r ==> res == Success("")
    ensures res.Failure? <==> key in r && r[key].BNull?
    ensures key in r && !r[key].BNull? ==> res == Success(ValueOf(r[key], dateText))
  {
    if key !in r then Success("")
    else
      match ToText(r[key], dateText)
      case None => Failure(MalformedAttributes)
      case Some(t) => Success(t)
  }

  /** The reserved length attribute of a plain record: 0 when absent, otherwise
      `Long.parseLong` of its text, which throws on null and on non-numeric text. */
  function LengthField(r: Record, dateText: DateRenderer): (res: Result<int, Error>)
    ensures SIMFLOFY_LENGTH_FIELD !in r ==> res == Success(0)
    ensures SIMFLOFY_LENGTH_FIELD in r ==>
      (res.Failure? <==> r[SIMFLOFY_LENGTH_FIELD].BNull? || ParseLong(ValueOf(r[SIMFLOFY_LENGTH_FIELD], dateText)).None?)
    ensures SIMFLOFY_LENGTH_FIELD in r && res.Success? ==>
      Some(res.value) == ParseLong(ValueOf(r[SIMFLOFY_LENGTH_FIELD], dateText))
    ensures res.Success? ==> InInt64(res.value)
    ensures res.Failure? ==> res.error == MalformedAttributes
  {
    match TextField(r, SIMFLOFY_LENGTH_FIELD, dateText)
    case Failure(e) => Failure(e)
    case Success(t) =>
      if SIMFLOFY_LENGTH_FIELD !in r then Success(0)
      else
        match ParseLong(t)
        case None => Failure(MalformedAttributes)
        case Some(n) => Success(n)
  }

  /** The document `getDocument` builds from a plain record: only the reserved name,
      content type and length attributes are read, defaulting to `""`, `""` and 0. */
  function PlainDocument(r: Record, docId: string, dateText: DateRenderer): (res: Result<Document, Error>)
    ensures SIMFLOFY_FILENAME_FIELD !in r && SIMFLOFY_CONTENT_TYPE_FIELD !in r && SIMFLOFY_LENGTH_FIELD !in r
      ==> res == Success(NewDocument(docId, "", "", 0))
    ensures res.Success? ==> res.value.id == docId
    ensures res.Success? ==>
      && res.value.name == (if SIMFLOFY_FILENAME_FIELD in r then ValueOf(r[SIMFLOFY_FILENAME_FIELD], dateText) else "")
      && res.value.mimeType == (if SIMFLOFY_CONTENT_TYPE_FIELD in r then ValueOf(r[SIMFLOFY_CONTENT_TYPE_FIELD], dateText) else "")
      && (SIMFLOFY_LENGTH_FIELD !in r ==> res.value.size == 0)
      && (SIMFLOFY_LENGTH_FIELD in r ==> Some(res.value.size) == ParseLong(ValueOf(r[SIMFLOFY_LENGTH_FIELD], dateText)))
    ensures res.Failure? <==>
      || (SIMFLOFY_FILENAME_FIELD in r && r[SIMFLOFY_FILENAME_FIELD].BNull?)
      || (SIMFLOFY_CONTENT_TYPE_FIELD in r && r[SIMFLOFY_CONTENT_TYPE_FIELD].BNull?)
      || (SIMFLOFY_LENGTH_FIELD in r && (r[SIMFLOFY_LENGTH_FIELD].BNull? || ParseLong(ValueOf(r[SIMFLOFY_LENGTH_FIELD], dateText)).None?))
    ensures res.Failure? ==> res.error == MalformedAttributes
  {
    match (TextField(r, SIMFLOFY_FILENAME_FIELD, dateText), TextField(r, SIMFLOFY_CONTENT_TYPE_FIELD, dateText),
           LengthField(r, dateText))
    case (Success(name), Success(mime), Success(size)) => Success(NewDocument(docId, name, mime, size))
    case _ => Failure(MalformedAttributes)
  }

  /** Fields other than the three reserved attributes never affect the plain document. */
  lemma PlainDocumentReadsOnlyReservedAttributes(r: Record, key: string, v: BsonValue, docId: string, dateText: DateRenderer)
    requires key != SIMFLOFY_FILENAME_FIELD && key != SIMFLOFY_CONTENT_TYPE_FIELD && key != SIMFLOFY_LENGTH_FIELD
    ensures PlainDocument(r[key := v], docId, dateText) == PlainDocument(r, docId, dateText)
  {
    var r' := r[key := v];
    assert TextField(r', SIMFLOFY_FILENAME_FIELD, dateText) == TextField(r, SIMFLOFY_FILENAME_FIELD, dateText);
    assert TextField(r', SIMFLOFY_CONTENT_TYPE_FIELD, dateText) == TextField(r, SIMFLOFY_CONTENT_TYPE_FIELD, dateText);
    assert TextField(r', SIMFLOFY_LENGTH_FIELD, dateText) == TextField(r, SIMFLOFY_LENGTH_FIELD, dateText);
  }

  /** The document `getDocument` builds from a GridFS match: only a match with metadata
      counts; the name and size are the file's, the MIME type the text of the
      metadata's content type (`"null"` when it has none). */
  function GridFSDocument(first: Option<GridFSFile>, docId: string, dateText: DateRenderer): (r: Option<Document>)
    ensures r.Some? <==> first.Some? && first.value.metadata.Some?
    ensures r.Some? ==> r.value.id == docId && r.value.size == |first.value.content|
    ensures r.Some? ==>
      && r.value.name == first.value.filename
      && r.value.mimeType == ValueOf(Get(first.value.metadata.value, SIMFLOFY_CONTENT_TYPE_FIELD), dateText)
    ensures r.Some? && SIMFLOFY_CONTENT_TYPE_FIELD !in first.value.metadata.value ==> r.value.mimeType == "null"
  {
    match first
    case Some(f) =>
      (match f.metadata
       case Some(md) => Some(NewDocument(docId, f.filename, ValueOf(Get(md, SIMFLOFY_CONTENT_TYPE_FIELD), dateText), |f.content|))
       case None => None)
    case None => None
  }

  /** `getDocument(docId)` against collection or bucket `collection`: the document, or
      `None` (null) when nothing matches. */
  function Fetch(cfg: ReaderConfig, s: Store, collection: string, docId: string, dateText: DateRenderer)
    : (r: Result<Option<Document>, Error>)
    ensures r.Failure? ==> r.error == InvalidObjectId(docId) || r.error == MalformedAttributes
    ensures cfg.gridFS && r.Failure? ==> r.error == InvalidObjectId(docId)
    ensures r.Success? && r.value.Some? ==> r.value.value.id == docId
    ensures cfg.idField == ID && !IsValid(docId) ==> r == Failure(InvalidObjectId(docId))
    ensures IdentityFilter(cfg.gridFS, cfg.idField, docId).Success? ==>
      var filter := IdentityFilter(cfg.gridFS, cfg.idField, docId).value;
      if cfg.gridFS then
        match FindFirstFile(Bucket(s, collection), filter)
        case None => r == Success(None)
        case Some(f) => r == Success(GridFSDocument(Some(f), docId, dateText))
      else
        match FindFirstRecord(Collection(s, collection), filter)
        case None => r == Success(None)
        case Some(rec) =>
          && (r.Success? <==> PlainDocument(rec, docId, dateText).Success?)
          && (r.Success? ==> r.value == Some(PlainDocument(rec, docId, dateText).value))
  {
    match IdentityFilter(cfg.gridFS, cfg.idField, docId)
    case Failure(e) => Failure(e)
    case Success(filter) =>
      if cfg.gridFS then Success(GridFSDocument(FindFirstFile(Bucket(s, collection), filter), docId, dateText))
      else
        match FindFirstRecord(Collection(s, collection), filter)
        case None => Success(None)
        case Some(r) =>
          match PlainDocument(r, docId, dateText)
          case Failure(e) => Failure(e)
          case Success(d) => Success(Some(d))
  }

  /** What a fetch adds to the result set: its answer, null included; nothing when it throws. */
  function Fetched(r: Result<Option<Document>, Error>): (res: set<Option<Document>>) {
    if r.Success? then {r.value} else {}
  }

  /** Adds the documents gathered so far to the outcome of the remaining results. */
  function Union(docs: set<Option<Document>>, rest: Result<set<Option<Document>>, Error>)
    : (r: Result<set<Option<Document>>, Error>)
  {
    match rest
    case Success(more) => Success(docs + more)
    case Failure(e) => Failure(e)
  }

  lemma UnionEmpty(rest: Result<set<Option<Document>>, Error>)
    ensures Union({}, rest) == rest
  {
    if rest.Success? {
      assert {} + rest.value == rest.value;
    }
  }

  lemma UnionJoin(docs: set<Option<Document>>, here: set<Option<Document>>, rest: Result<set<Option<Document>>, Error>)
    ensures Union(docs, Union(here, rest)) == Union(docs + here, rest)
  {
    if rest.Success? {
      assert docs + (here + rest.value) == docs + here + rest.value;
    }
  }

  /** The listing loop over `entries`: each result's identity is resolved; a missing one
      stops the loop, a throwing one ends the whole listing, and otherwise the fetched
      document joins the set unless the fetch throws. */
  function Collect(cfg: ReaderConfig, s: Store, collection: string, dateText: DateRenderer, entries: seq<Entry>)
    : (r: Result<set<Option<Document>>, Error>)
    decreases |entries|
  {
    if entries == [] then Success({})
    else
      match EntryIdentity(cfg.idField, entries[0], dateText)
      case Failure(e) => Failure(e)
      case Success(None) => Success({})
      case Success(Some(docId)) =>
        Union(Fetched(Fetch(cfg, s, collection, docId, dateText)), Collect(cfg, s, collection, dateText, entries[1..]))
  }

  /** One step of the listing loop, at result `i`. */
  lemma CollectFrom(cfg: ReaderConfig, s: Store, collection: string, dateText: DateRenderer, entries: seq<Entry>, i: nat)
    requires i < |entries|
    ensures var id := EntryIdentity(cfg.idField, entries[i], dateText);
      Collect(cfg, s, collection, dateText, entries[i..]) ==
        if id.Failure? then Failure(id.error)
        else if id.value.None? then Success({})
        else Union(Fetched(Fetch(cfg, s, collection, id.value.value, dateText)), Collect(cfg, s, collection, dateText, entries[i + 1..]))
  {
    assert entries[i..][0] == entries[i] && entries[i..][1..] == entries[i + 1..];
  }

  /** `getDocuments`: the listing loop over the listing query's results. */
  function ListDocuments(cfg: ReaderConfig, s: Store, collection: string, dateText: DateRenderer)
    : (r: Result<set<Option<Document>>, Error>)
  {
    Collect(cfg, s, collection, dateText, Listing(cfg, s))
  }

  /** A result without identity ends the loop: whatever follows it is never fetched. */
  lemma {:induction false} CollectStopsAtMissingIdentity(
    cfg: ReaderConfig, s: Store, collection: string, dateText: DateRenderer,
    xs: seq<Entry>, e: Entry, ys: seq<Entry>)
    requires EntryIdentity(cfg.idField, e, dateText) == Success(None)
    ensures Collect(cfg, s, collection, dateText, xs + [e] + ys) == Collect(cfg, s, collection, dateText, xs + [e])
  {
    if xs == [] {
      assert (xs + [e] + ys)[0] == e && (xs + [e])[0] == e;
    } else {
      assert (xs + [e] + ys)[0] == xs[0] && (xs + [e])[0] == xs[0];
      assert (xs + [e] + ys)[1..] == xs[1..] + [e] + ys;
      assert (xs + [e])[1..] == xs[1..] + [e];
      CollectStopsAtMissingIdentity(cfg, s, collection, dateText, xs[1..], e, ys);
    }
  }

  /** A result whose fetch throws is skipped: the outcome is as if it were not listed. */
  lemma {:induction false} CollectSkipsFailedFetch(
    cfg: ReaderConfig, s: Store, collection: string, dateText: DateRenderer,
    xs: seq<Entry>, e: Entry, ys: seq<Entry>)
    requires EntryIdentity(cfg.idField, e, dateText).Success?
    requires EntryIdentity(cfg.idField, e, dateText).value.Some?
    requires Fetch(cfg, s, collection, EntryIdentity(cfg.idField, e, dateText).value.value, dateText).Failure?
    ensures Collect(cfg, s, collection, dateText, xs + [e] + ys) == Collect(cfg, s, collection, dateText, xs + ys)
  {
    if xs == [] {
      assert (xs + [e] + ys)[0] == e;
      assert (xs + [e] + ys)[1..] == ys && xs + ys == ys;
      match Collect(cfg, s, collection, dateText, ys)
      case Success(more) => assert {} + more == more;
      case Failure(_) =>
    } else {
      assert (xs + [e] + ys)[0] == xs[0] && (xs + ys)[0] == xs[0];
      assert (xs + [e] + ys)[1..] == xs[1..] + [e] + ys;
      assert (xs + ys)[1..] == xs[1..] + ys;
      CollectSkipsFailedFetch(cfg, s, collection, dateText, xs[1..], e, ys);
    }
  }

  /** Every result before position `i` has an identity, so the loop reaches `i`. */
  predicate Reaches(idField: string, dateText: DateRenderer, entries: seq<Entry>, i: int)
    requires 0 <= i <= |entries|
  {
    forall j :: 0 <= j < i ==>
      EntryIdentity(idField, entries[j], dateText).Success? && EntryIdentity(idField, entries[j], dateText).value.Some?
  }

  /** The loop reaches result `i`, resolves an identity for it, and fetching that
      identity answers `d`. */
  predicate FetchedAt(cfg: ReaderConfig, s: Store, collection: string, dateText: DateRenderer,
                      entries: seq<Entry>, i: int, d: Option<Document>)
  {
    && 0 <= i < |entries|
    && Reaches(cfg.idField, dateText, entries, i)
    && var id := EntryIdentity(cfg.idField, entries[i], dateText);
       id.Success? && id.value.Some? && Fetch(cfg, s, collection, id.value.value, dateText) == Success(d)
  }

  lemma ReachesShift(idField: string, dateText: DateRenderer, entries: seq<Entry>, i: nat)
    requires 0 < |entries| && i < |entries|
    requires EntryIdentity(idField, entries[0], dateText).Success?
    requires EntryIdentity(idField, entries[0], dateText).value.Some?
    ensures Reaches(idField, dateText, entries, i + 1) <==> Reaches(idField, dateText, entries[1..], i)
  {
    var rest := entries[1..];
    if Reaches(idField, dateText, rest, i) {
      forall j | 0 <= j < i + 1
        ensures EntryIdentity(idField, entries[j], dateText).Success? && EntryIdentity(idField, entries[j], dateText).value.Some?
      {
        if j > 0 {
          assert entries[j] == rest[j - 1];
        }
      }
    }
    if Reaches(idField, dateText, entries, i + 1) {
      forall j | 0 <= j < i
        ensures EntryIdentity(idField, rest[j], dateText).Success? && EntryIdentity(idField, rest[j], dateText).value.Some?
      {
        assert rest[j] == entries[j + 1];
      }
    }
  }

  /** The documents a listing gathers are exactly the answers of the fetches the loop
      performs before it stops: each appears once, null included, whatever the number of
      results that fetched it, and a fetch that throws contributes nothing. */
  lemma {:induction false} CollectMembers(
    cfg: ReaderConfig, s: Store, collection: string, dateText: DateRenderer,
    entries: seq<Entry>, d: Option<Document>)
    requires Collect(cfg, s, collection, dateText, entries).Success?
    ensures d in Collect(cfg, s, collection, dateText, entries).value <==>
      exists i :: FetchedAt(cfg, s, collection, dateText, entries, i, d)
  {
    if entries != [] {
      var id := EntryIdentity(cfg.idField, entries[0], dateText);
      if id == Success(None) {
        forall i | 0 <= i < |entries|
          ensures !FetchedAt(cfg, s, collection, dateText, entries, i, d)
        {
          if i > 0 {
            assert !Reaches(cfg.idField, dateText, entries, i) by {
              assert !EntryIdentity(cfg.idField, entries[0], dateText).value.Some?;
            }
          }
        }
      } else {
        var rest := entries[1..];
        var docId := id.value.value;
        var here := Fetched(Fetch(cfg, s, collection, docId, dateText));
        assert Collect(cfg, s, collection, dateText, entries) == Union(here, Collect(cfg, s, collection, dateText, rest));
        CollectMembers(cfg, s, collection, dateText, rest, d);
        forall i | 0 <= i < |rest|
          ensures FetchedAt(cfg, s, collection, dateText, entries, i + 1, d) <==> FetchedAt(cfg, s, collection, dateText, rest, i, d)
        {
          assert entries[i + 1] == rest[i];
          ReachesShift(cfg.idField, dateText, entries, i);
        }
        if d in Collect(cfg, s, collection, dateText, entries).value {
          if d in here {
            assert FetchedAt(cfg, s, collection, dateText, entries, 0, d);
          } else {
            var i :| FetchedAt(cfg, s, collection, dateText, rest, i, d);
            assert FetchedAt(cfg, s, collection, dateText, entries, i + 1, d);
          }
        }
        if exists i :: FetchedAt(cfg, s, collection, dateText, entries, i, d) {
          var i :| FetchedAt(cfg, s, collection, dateText, entries, i, d);
          if i > 0 {
            assert FetchedAt(cfg, s, collection, dateText, rest, i - 1, d);
          }
        }
      }
    }
  }

  /** In `_id` mode every listed GridFS file with metadata fetches back as itself: its
      hex id parses back to its id, and ids are unique in the bucket. */
  lemma EnumeratedFileFetchesItself(cfg: ReaderConfig, s: Store, dateText: DateRenderer, f: GridFSFile)
    requires cfg.gridFS && cfg.idField == ID
    requires UniqueFileIds(Bucket(s, cfg.collectionStr))
    requires f in Bucket(s, cfg.collectionStr) && f.metadata.Some?
    ensures FileIdentity(cfg.idField, f, dateText) == Some(ToHexString(f.id))
    ensures Fetch(cfg, s, cfg.collectionStr, ToHexString(f.id), dateText) ==
      Success(Some(NewDocument(ToHexString(f.id), f.filename,
        ValueOf(Get(f.metadata.value, SIMFLOFY_CONTENT_TYPE_FIELD), dateText), |f.content|)))
  {
    var files := Bucket(s, cfg.collectionStr);
    var docId := ToHexString(f.id);
    ParseToHexString(f.id);
    var filter := IdentityFilter(true, ID, docId).value;
    var k :| 0 <= k < |files| && files[k] == f;
    IdentityFilterOnFiles(ID, docId, f);
    var i := FirstIndex(files, g => FileMatches(filter, g));
    assert i.Some?;
    IdentityFilterOnFiles(ID, docId, files[i.value]);
    assert files[i.value].id == f.id;
    assert i.value == k;
  }

  /** In `_id` mode every listed plain record with an ObjectId fetches back as itself. */
  lemma EnumeratedRecordFetchesItself(cfg: ReaderConfig, s: Store, dateText: DateRenderer, r: Record, id: ObjectId)
    requires !cfg.gridFS && cfg.idField == ID
    requires UniqueRecordIds(Collection(s, cfg.collectionStr))
    requires r in Collection(s, cfg.collectionStr) && ID in r && r[ID] == BObjectId(id)
    ensures RecordIdentity(cfg.idField, r, dateText) == Success(ToHexString(id))
    ensures Fetch(cfg, s, cfg.collectionStr, ToHexString(id), dateText) ==
      match PlainDocument(r, ToHexString(id), dateText)
      case Success(d) => Success(Some(d))
      case Failure(e) => Failure(e)
  {
    var records := Collection(s, cfg.collectionStr);
    var docId := ToHexString(id);
    ParseToHexString(id);
    var filter := IdentityFilter(false, ID, docId).value;
    var k :| 0 <= k < |records| && records[k] == r;
    IdentityFilterOnRecords(ID, docId, r);
    var i := FirstIndex(records, g => RecordMatches(filter, g));
    assert i.Some?;
    IdentityFilterOnRecords(ID, docId, records[i.value]);
    assert records[i.value][ID] == r[ID];
    assert i.value == k;
  }

  /** `getDocumentMetadata`'s flattening: every key of the record, each mapped to a
      string-variant value holding the text of the stored value. */
  function Flatten(r: Record, dateText: DateRenderer): (m: map<string, MetadataType>)
    ensures m.Keys == r.Keys
  {
    map k | k in r :: OfString(ValueOf(r[k], dateText))
  }

  /** Coercing a flattened value back to text gives the stored value's text: the
      flattening keeps the text and only the text. */
  lemma FlattenKeepsText(r: Record, dateText: DateRenderer, k: string)
    requires k in r
    ensures ValidMetadataType(Flatten(r, dateText)[k])
    ensures ExtractMetadataStringValue(Flatten(r, dateText)[k]) == Some(ValueOf(r[k], dateText))
  {
    var v := Flatten(r, dateText)[k];
    assert FirstSet(v) == Some(StringKind);
  }

  /** `getDocumentMetadata(docId)`: the flattened record (for GridFS, its metadata), or
      an empty map when nothing matches. */
  function ReadMetadata(cfg: ReaderConfig, s: Store, collection: string, docId: string, dateText: DateRenderer)
    : (r: Result<map<string, MetadataType>, Error>)
    ensures r.Failure? <==> cfg.idField == ID && !IsValid(docId)
    ensures IdentityFilter(cfg.gridFS, cfg.idField, docId).Success? ==>
      var filter := IdentityFilter(cfg.gridFS, cfg.idField, docId).value;
      if cfg.gridFS then
        match FindFirstFile(Bucket(s, collection), filter)
        case None => r == Success(map[])
        case Some(f) => r == Success(if f.metadata.Some? then Flatten(f.metadata.value, dateText) else map[])
      else
        match FindFirstRecord(Collection(s, collection), filter)
        case None => r == Success(map[])
        case Some(rec) => r == Success(Flatten(rec, dateText))
  {
    match IdentityFilter(cfg.gridFS, cfg.idField, docId)
    case Failure(e) => Failure(e)
    case Success(filter) =>
      if cfg.gridFS then
        match FindFirstFile(Bucket(s, collection), filter)
        case Some(first) =>
          (match first.metadata
           case Some(md) => Success(Flatten(md, dateText))
           case None => Success(map[]))
        case None => Success(map[])
      else
        match FindFirstRecord(Collection(s, collection), filter)
        case Some(first) => Success(Flatten(first, dateText))
        case None => Success(map[])
  }

  /** `getDocumentBinary(docId)`: an empty stream typed `application/octet-stream`,
      replaced only in GridFS mode by a match's content and the text of its metadata's
      content type (the default type when it has no metadata). */
  function Binary(cfg: ReaderConfig, s: Store, collection: string, docId: string, dateText: DateRenderer)
    : (r: Result<BinaryDetails, Error>)
    ensures r.Failure? <==> cfg.gridFS && cfg.idField == ID && !IsValid(docId)
    ensures r.Success? ==> r.value.docId == docId
    ensures !cfg.gridFS ==> r == Success(BinaryDetails(docId, [], OCTET_STREAM))
    ensures cfg.gridFS && IdentityFilter(true, cfg.idField, docId).Success? ==>
      match FindFirstFile(Bucket(s, collection), IdentityFilter(true, cfg.idField, docId).value)
      case None => r == Success(BinaryDetails(docId, [], OCTET_STREAM))
      case Some(f) =>
        && r.Success?
        && r.value.content == f.content
        && r.value.mimeType ==
             if f.metadata.Some? then ValueOf(Get(f.metadata.value, SIMFLOFY_CONTENT_TYPE_FIELD), dateText)
             else OCTET_STREAM
  {
    var initial := BinaryDetails(docId, [], OCTET_STREAM);
    if !cfg.gridFS then Success(initial)
    else
      match IdentityFilter(true, cfg.idField, docId)
      case Failure(e) => Failure(e)
      case Success(filter) =>
        match FindFirstFile(Bucket(s, collection), filter)
        case None => Success(initial)
        case Some(first) =>
          var mimetype := match first.metadata
            case Some(md) => ValueOf(Get(md, SIMFLOFY_CONTENT_TYPE_FIELD), dateText)
            case None => OCTET_STREAM;
          Success(BinaryDetails(docId, first.content, mimetype))
  }

  /** The file id `deleteDocument` resolves in GridFS mode: the parsed docId when the
      identity field is `_id`, else the id of the first match with metadata, printed and
      parsed again; none otherwise. (The configuration keeps `useObjectId` and `_id`
      together, so the first parse has already succeeded in the filter, and a printed id
      always parses.) */
  function DeleteTarget(cfg: ReaderConfig, files: seq<GridFSFile>, filter: Query, docId: string): (r: Option<ObjectId>) {
    if cfg.useObjectId then Parse(docId)
    else
      match FindFirstFile(files, filter)
      case Some(first) => if first.metadata.Some? then Parse(ToHexString(first.id)) else None
      case None => None
  }

  /** `deleteDocument(docId)`: the store afterwards. GridFS mode deletes the resolved
      file (throwing when the bucket has no such file); plain mode issues one `deleteOne`
      with the identity filter. */
  function DeleteEffect(cfg: ReaderConfig, s: Store, collection: string, docId: string): (r: Result<Store, Error>)
    requires ValidConfig(cfg)
    ensures r.Failure? ==> r.error == InvalidObjectId(docId) || (cfg.gridFS && r.error == FileNotFound)
    ensures cfg.idField == ID && !IsValid(docId) ==> r == Failure(InvalidObjectId(docId))
  {
    match IdentityFilter(cfg.gridFS, cfg.idField, docId)
    case Failure(e) => Failure(e)
    case Success(filter) =>
      if cfg.gridFS then
        var files := Bucket(s, collection);
        match DeleteTarget(cfg, files, filter, docId)
        case None => Success(s)
        case Some(fileId) =>
          match DeleteFile(files, fileId)
          case Failure(e) => Failure(e)
          case Success(rest) => Success(s.(buckets := s.buckets[collection := rest]))
      else
        Success(s.(collections := s.collections[collection := DeleteOne(Collection(s, collection), filter)]))
  }

  /** GridFS delete in `_id` mode removes the file with the parsed id and nothing else,
      and throws exactly when the bucket has no such file. */
  lemma DeleteByObjectId(cfg: ReaderConfig, s: Store, collection: string, docId: string, id: ObjectId)
    requires ValidConfig(cfg) && cfg.gridFS && cfg.idField == ID
    requires Parse(docId) == Some(id)
    requires UniqueFileIds(Bucket(s, collection))
    ensures DeleteEffect(cfg, s, collection, docId).Failure? <==> forall g :: g in Bucket(s, collection) ==> g.id != id
    ensures DeleteEffect(cfg, s, collection, docId).Failure? ==> DeleteEffect(cfg, s, collection, docId).error == FileNotFound
    ensures DeleteEffect(cfg, s, collection, docId).Success? ==>
      var s' := DeleteEffect(cfg, s, collection, docId).value;
      && s'.collections == s.collections
      && (forall name :: name != collection ==> Bucket(s', name) == Bucket(s, name))
      && (forall g :: g in Bucket(s', collection) <==> g in Bucket(s, collection) && g.id != id)
  {
    var files := Bucket(s, collection);
    var i := FirstIndex(files, (f: GridFSFile) => f.id == id);
    if i.Some? {
      RemoveFileById(files, i.value);
    } else {
      forall g | g in files ensures g.id != id {
        var j :| 0 <= j < |files| && files[j] == g;
      }
    }
  }

  /** GridFS delete by a custom identity field removes exactly the first file whose
      metadata holds the docId under that field, and nothing when no file does; it never
      throws (a match always has metadata, and its printed id parses back). */
  lemma DeleteByField(cfg: ReaderConfig, s: Store, collection: string, docId: string)
    requires ValidConfig(cfg) && cfg.gridFS && cfg.idField != ID
    requires UniqueFileIds(Bucket(s, collection))
    ensures DeleteEffect(cfg, s, collection, docId).Success?
    ensures
      var s' := DeleteEffect(cfg, s, collection, docId).value;
      match FindFirstFile(Bucket(s, collection), IdentityFilter(true, cfg.idField, docId).value)
      case None => s' == s
      case Some(first) =>
        && MetadataField(first, cfg.idField) == Some(BString(docId))
        && s'.collections == s.collections
        && (forall name :: name != collection ==> Bucket(s', name) == Bucket(s, name))
        && (forall g :: g in Bucket(s', collection) <==> g in Bucket(s, collection) && g.id != first.id)
  {
    var files := Bucket(s, collection);
    var filter := IdentityFilter(true, cfg.idField, docId).value;
    var i := FirstIndex(files, g => FileMatches(filter, g));
    if i.Some? {
      var first := files[i.value];
      IdentityFilterOnFiles(cfg.idField, docId, first);
      ParseToHexString(first.id);
      var j := FirstIndex(files, (f: GridFSFile) => f.id == first.id);
      assert j.Some?;
      assert j.value == i.value;
      RemoveFileById(files, i.value);
    }
  }

  /** Plain delete removes exactly one record when one matches the identity filter, and
      none otherwise; the buckets are untouched. */
  lemma DeleteRecord(cfg: ReaderConfig, s: Store, collection: string, docId: string)
    requires ValidConfig(cfg) && !cfg.gridFS
    requires IdentityFilter(false, cfg.idField, docId).Success?
    ensures DeleteEffect(cfg, s, collection, docId).Success?
    ensures
      var s' := DeleteEffect(cfg, s, collection, docId).value;
      var filter := IdentityFilter(false, cfg.idField, docId).value;
      && s'.buckets == s.buckets
      && (forall name :: name != collection ==> Collection(s', name) == Collection(s, name))
      && |Collection(s', collection)| ==
           |Collection(s, collection)| - (if exists r :: r in Collection(s, collection) && RecordMatches(filter, r) then 1 else 0)
    ensures
      var s' := DeleteEffect(cfg, s, collection, docId).value;
      var filter := IdentityFilter(false, cfg.idField, docId).value;
      var records := Collection(s, collection);
      && ((forall j :: 0 <= j < |records| ==> !RecordMatches(filter, records[j])) ==> Collection(s', collection) == records)
      && forall i ::
           (0 <= i < |records| && RecordMatches(filter, records[i]) && forall j :: 0 <= j < i ==> !RecordMatches(filter, records[j]))
           ==> Collection(s', collection) == records[..i] + records[i + 1..]
  {
    var records := Collection(s, collection);
    var filter := IdentityFilter(false, cfg.idField, docId).value;
    var i := FirstIndex(records, r => RecordMatches(filter, r));
    if i.None? {
      forall r | r in records ensures !RecordMatches(filter, r) {
        var j :| 0 <= j < |records| && records[j] == r;
      }
    }
  }
}
