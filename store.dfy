/** An in-memory stand-in for the MongoDB database the connector drives: named
    collections of records and named GridFS buckets of files, with the handful of
    driver calls the connector makes (`find`, `find(...).first()`, `deleteOne`,
    `insertOne`, `GridFSBucket.delete`, `uploadFromStream`). */
module Store {
  import opened Outcomes
  import opened Hex
  import opened Bson
  import opened ObjectIds
  import opened MongoConstants

  /** A GridFS file: its native id, name, bytes and optional sidecar metadata. */
  datatype GridFSFile = GridFSFile(id: ObjectId, filename: string, content: seq<byte>, metadata: Option<Record>)

  /** One field condition of a query: equality, or a `$gte`/`$lte` date range. */
  datatype Condition =
    | Equals(value: BsonValue)
    | Range(gte: Option<int>, lte: Option<int>)

  /** A query: a conjunction of conditions, one per field path. */
  type Query = map<string, Condition>

  predicate IsMetadataPath(path: string) {
    |METADATA_DOT| <= |path| && path[..|METADATA_DOT|] == METADATA_DOT
  }

  /** A key of the file's sidecar metadata, if the file has metadata holding it. */
  function MetadataField(f: GridFSFile, key: string): (r: Option<BsonValue>) {
    match f.metadata
    case Some(md) => if key in md then Some(md[key]) else None
    case None => None
  }

  /** What a query path denotes on a GridFS file: the system fields `_id`,
      `filename`, `length`, or `metadata.<key>` inside the sidecar metadata. */
  function FileField(f: GridFSFile, path: string): (r: Option<BsonValue>) {
    if path == ID then Some(BObjectId(f.id))
    else if path == "filename" then Some(BString(f.filename))
    else if path == "length" then Some(BInteger(|f.content|))
    else if IsMetadataPath(path) then MetadataField(f, path[|METADATA_DOT|..])
    else None
  }

  /** What a query path denotes on a plain record: the top-level field. */
  function RecordField(r: Record, path: string): (res: Option<BsonValue>) {
    if path in r then Some(r[path]) else None
  }

  /** Whether a field (absent when `None`) satisfies a condition. Equality with null
      also matches an absent field; a range only matches date values. */
  predicate Holds(c: Condition, v: Option<BsonValue>) {
    match c
    case Equals(expected) => v == Some(expected) || (expected == BNull && v == None)
    case Range(gte, lte) =>
      v.Some? && v.value.BDateTime?
      && (gte.None? || gte.value <= v.value.millis)
      && (lte.None? || v.value.millis <= lte.value)
  }

  predicate FileMatches(q: Query, f: GridFSFile) {
    forall path :: path in q ==> Holds(q[path], FileField(f, path))
  }

  predicate RecordMatches(q: Query, r: Record) {
    forall path :: path in q ==> Holds(q[path], RecordField(r, path))
  }

  /** The position of the first element satisfying `p`. */
  function FirstIndex<T>(xs: seq<T>, p: T -> bool): (r: Option<nat>)
    ensures r.Some? ==> r.value < |xs| && p(xs[r.value])
    ensures r.Some? ==> forall j :: 0 <= j < r.value ==> !p(xs[j])
    ensures r.None? ==> forall j :: 0 <= j < |xs| ==> !p(xs[j])
  {
    if |xs| == 0 then None
    else if p(xs[0]) then Some(0)
    else
      match FirstIndex(xs[1..], p)
      case None => None
      case Some(i) => Some(i + 1)
  }

  /** The elements satisfying `p`, in their original order. */
  function Filter<T>(xs: seq<T>, p: T -> bool): (r: seq<T>)
    ensures forall x :: x in r ==> x in xs && p(x)
    ensures forall x :: x in xs && p(x) ==> x in r
    ensures |r| <= |xs|
  {
    if |xs| == 0 then []
    else if p(xs[0]) then [xs[0]] + Filter(xs[1..], p)
    else Filter(xs[1..], p)
  }

  function RemoveAt<T>(xs: seq<T>, i: nat): (r: seq<T>)
    requires i < |xs|
    ensures |r| == |xs| - 1
    ensures forall x :: x in r ==> x in xs
  {
    xs[..i] + xs[i + 1..]
  }

  /** `find(q).first()` on a bucket. */
  function FindFirstFile(files: seq<GridFSFile>, q: Query): (r: Option<GridFSFile>)
    ensures r.Some? ==> r.value in files && FileMatches(q, r.value)
    ensures r.None? <==> forall j :: 0 <= j < |files| ==> !FileMatches(q, files[j])
  {
    match FirstIndex(files, f => FileMatches(q, f))
    case None => None
    case Some(i) => Some(files[i])
  }

  /** `find(q).first()` on a collection. */
  function FindFirstRecord(records: seq<Record>, q: Query): (r: Option<Record>)
    ensures r.Some? ==> r.value in records && RecordMatches(q, r.value)
    ensures r.None? <==> forall j :: 0 <= j < |records| ==> !RecordMatches(q, records[j])
  {
    match FirstIndex(records, r => RecordMatches(q, r))
    case None => None
    case Some(i) => Some(records[i])
  }

  /** `find(q)` on a bucket, in natural order. */
  function FindFiles(files: seq<GridFSFile>, q: Query): (r: seq<GridFSFile>) {
    Filter(files, f => FileMatches(q, f))
  }

  /** `find(q)` on a collection, in natural order. */
  function FindRecords(records: seq<Record>, q: Query): (r: seq<Record>) {
    Filter(records, r => RecordMatches(q, r))
  }

  /** `deleteOne(q)`: removes the first matching record, if any. */
  function DeleteOne(records: seq<Record>, q: Query): (r: seq<Record>)
    ensures (forall j :: 0 <= j < |records| ==> !RecordMatches(q, records[j])) ==> r == records
    ensures forall i ::
      (0 <= i < |records| && RecordMatches(q, records[i]) && forall j :: 0 <= j < i ==> !RecordMatches(q, records[j]))
      ==> r == records[..i] + records[i + 1..]
  {
    match FirstIndex(records, r => RecordMatches(q, r))
    case None => records
    case Some(i) => RemoveAt(records, i)
  }

  /** `GridFSBucket.delete(id)`: removes the file with that id; the driver throws
      when there is none. */
  function DeleteFile(files: seq<GridFSFile>, id: ObjectId): (r: Result<seq<GridFSFile>, Error>) {
    match FirstIndex(files, (f: GridFSFile) => f.id == id)
    case None => Failure(FileNotFound)
    case Some(i) => Success(RemoveAt(files, i))
  }

  /** The record `insertOne` stores: the driver adds a generated `_id` when the
      record has none. */
  function WithGeneratedId(doc: Record, newId: ObjectId): (r: Record) {
    if ID in doc then doc else doc[ID := BObjectId(newId)]
  }

  /** `insertOne(doc)`: appends the record, unless its `_id` is already taken. */
  function InsertOne(records: seq<Record>, doc: Record, newId: ObjectId): (r: Result<seq<Record>, Error>) {
    var stored := WithGeneratedId(doc, newId);
    if exists i :: 0 <= i < |records| && RecordField(records[i], ID) == Some(stored[ID]) then Failure(DuplicateKey)
    else Success(records + [stored])
  }

  /** `uploadFromStream(filename, source, metadata)`: appends a file with the generated
      id, unless a file of the bucket already has that id. */
  function UploadFile(files: seq<GridFSFile>, filename: string, content: seq<byte>, metadata: Record, newId: ObjectId)
    : (r: Result<seq<GridFSFile>, Error>)
  {
    if exists i :: 0 <= i < |files| && files[i].id == newId then Failure(DuplicateKey)
    else Success(files + [GridFSFile(newId, filename, content, Some(metadata))])
  }

  /** `find(q)` keeps the sequence's order: appending an element appends it to the
      result exactly when it matches. */
  lemma {:induction false} FilterSnoc<T>(xs: seq<T>, x: T, p: T -> bool)
    ensures Filter(xs + [x], p) == Filter(xs, p) + (if p(x) then [x] else [])
  {
    if xs == [] {
      assert xs + [x] == [x] && [x][1..] == [];
    } else {
      assert (xs + [x])[0] == xs[0] && (xs + [x])[1..] == xs[1..] + [x];
      FilterSnoc(xs[1..], x, p);
    }
  }

  /** `find(q).first()` on a bucket gives the earliest matching file. */
  lemma FindFirstFileIsEarliest(files: seq<GridFSFile>, q: Query)
    requires FindFirstFile(files, q).Some?
    ensures exists i ::
      0 <= i < |files| && files[i] == FindFirstFile(files, q).value && forall j :: 0 <= j < i ==> !FileMatches(q, files[j])
  {
    var i := FirstIndex(files, f => FileMatches(q, f)).value;
    assert files[i] == FindFirstFile(files, q).value;
  }

  /** `find(q).first()` on a collection gives the earliest matching record. */
  lemma FindFirstRecordIsEarliest(records: seq<Record>, q: Query)
    requires FindFirstRecord(records, q).Some?
    ensures exists i ::
      0 <= i < |records| && records[i] == FindFirstRecord(records, q).value
      && forall j :: 0 <= j < i ==> !RecordMatches(q, records[j])
  {
    var i := FirstIndex(records, r => RecordMatches(q, r)).value;
    assert records[i] == FindFirstRecord(records, q).value;
  }

  /** Every file of a bucket has its own id. */
  predicate UniqueFileIds(files: seq<GridFSFile>) {
    forall i, j :: 0 <= i < j < |files| ==> files[i].id != files[j].id
  }

  /** Every record of a collection has an `_id`, and no two share one. */
  predicate UniqueRecordIds(records: seq<Record>) {
    && (forall i :: 0 <= i < |records| ==> ID in records[i])
    && (forall i, j :: 0 <= i < j < |records| ==> records[i][ID] != records[j][ID])
  }

  /** When only an appended file meets a query, `find(q).first()` finds it. */
  lemma FirstFileIsAppended(files: seq<GridFSFile>, f: GridFSFile, q: Query)
    requires forall j :: 0 <= j < |files| ==> !FileMatches(q, files[j])
    requires FileMatches(q, f)
    ensures FindFirstFile(files + [f], q) == Some(f)
  {
    var all := files + [f];
    var i := FirstIndex(all, g => FileMatches(q, g));
    assert all[|files|] == f;
    assert forall j :: 0 <= j < |files| ==> all[j] == files[j];
  }

  /** When only an appended record meets a query, `find(q).first()` finds it. */
  lemma FirstRecordIsAppended(records: seq<Record>, r: Record, q: Query)
    requires forall j :: 0 <= j < |records| ==> !RecordMatches(q, records[j])
    requires RecordMatches(q, r)
    ensures FindFirstRecord(records + [r], q) == Some(r)
  {
    var all := records + [r];
    var i := FirstIndex(all, g => RecordMatches(q, g));
    assert all[|records|] == r;
    assert forall j :: 0 <= j < |records| ==> all[j] == records[j];
  }

  /** Removing one file of a bucket whose ids are unique leaves exactly the files
      with another id, still with unique ids. */
  lemma RemoveFileById(files: seq<GridFSFile>, i: nat)
    requires UniqueFileIds(files) && i < |files|
    ensures UniqueFileIds(RemoveAt(files, i))
    ensures forall g :: g in RemoveAt(files, i) <==> g in files && g.id != files[i].id
  {
    var rest := RemoveAt(files, i);
    assert forall j :: 0 <= j < |rest| ==> rest[j] == files[if j < i then j else j + 1];
    forall g | g in files && g.id != files[i].id
      ensures g in rest
    {
      var j :| 0 <= j < |files| && files[j] == g;
      assert j != i;
      assert rest[if j < i then j else j - 1] == g;
    }
  }

  /** A successful `insertOne` keeps a collection's ids present and unique. */
  lemma InsertOneKeepsIdsUnique(records: seq<Record>, doc: Record, newId: ObjectId)
    requires UniqueRecordIds(records)
    requires InsertOne(records, doc, newId).Success?
    ensures UniqueRecordIds(InsertOne(records, doc, newId).value)
  {
    var stored := WithGeneratedId(doc, newId);
    var records' := records + [stored];
    forall i, j | 0 <= i < j < |records'| ensures records'[i][ID] != records'[j][ID] {
      if j == |records| {
        assert RecordField(records[i], ID) == Some(records[i][ID]);
      }
    }
  }

  /** Appending a file whose id no file of the bucket has keeps the ids unique. */
  lemma AppendFreshFile(files: seq<GridFSFile>, f: GridFSFile)
    requires UniqueFileIds(files)
    requires forall i :: 0 <= i < |files| ==> files[i].id != f.id
    ensures UniqueFileIds(files + [f])
  {
    var files' := files + [f];
    forall i, j | 0 <= i < j < |files'| ensures files'[i].id != files'[j].id {
      if j == |files| {
        assert files'[i] == files[i];
      }
    }
  }

  /** The database's contents at one moment. */
  datatype Store = Store(collections: map<string, seq<Record>>, buckets: map<string, seq<GridFSFile>>)

  /** `database.getCollection(name)`: a collection that does not exist yet is empty. */
  function Collection(s: Store, name: string): (r: seq<Record>) {
    if name in s.collections then s.collections[name] else []
  }

  /** `GridFSBuckets.create(database, name)`. */
  function Bucket(s: Store, name: string): (r: seq<GridFSFile>) {
    if name in s.buckets then s.buckets[name] else []
  }

  predicate WellFormed(s: Store) {
    && (forall name :: name in s.collections ==> UniqueRecordIds(s.collections[name]))
    && (forall name :: name in s.buckets ==> UniqueFileIds(s.buckets[name]))
  }

  /** The database the connector talks to; drivers calls read and replace its contents. */
  class Database {
    var collections: map<string, seq<Record>>
    var buckets: map<string, seq<GridFSFile>>

    constructor (initial: Store)
      ensures Snapshot() == initial
    {
      collections := initial.collections;
      buckets := initial.buckets;
    }

    function Snapshot(): (r: Store)
      reads this
    {
      Store(collections, buckets)
    }

    /** `insertOne(doc)` on the named collection: the collection becomes the outcome of
        `InsertOne`, and nothing changes when it throws. */
    method Insert(collection: string, doc: Record, newId: ObjectId) returns (r: Result<seq<Record>, Error>)
      modifies this
      ensures r == InsertOne(Collection(old(Snapshot()), collection), doc, newId)
      ensures r.Success? ==> Snapshot() == old(Snapshot()).(collections := old(collections)[collection := r.value])
      ensures r.Failure? ==> Snapshot() == old(Snapshot())
    {
      r := InsertOne(Collection(Snapshot(), collection), doc, newId);
      if r.Success? {
        collections := collections[collection := r.value];
      }
    }

    /** `uploadFromStream` into the named bucket: the bucket becomes the outcome of
        `UploadFile`, and nothing changes when it throws. */
    method Upload(bucket: string, filename: string, content: seq<byte>, metadata: Record, newId: ObjectId)
      returns (r: Result<seq<GridFSFile>, Error>)
      modifies this
      ensures r == UploadFile(Bucket(old(Snapshot()), bucket), filename, content, metadata, newId)
      ensures r.Success? ==> Snapshot() == old(Snapshot()).(buckets := old(buckets)[bucket := r.value])
      ensures r.Failure? ==> Snapshot() == old(Snapshot())
    {
      r := UploadFile(Bucket(Snapshot(), bucket), filename, content, metadata, newId);
      if r.Success? {
        buckets := buckets[bucket := r.value];
      }
    }
  }
}
