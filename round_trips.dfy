/** What the reader gives back of what the writer stored: the writer's reserved fields
    are exactly the attributes the reader's fetch, metadata, binary and date-window
    logic look for, so a written document reads back with its name, type and size. */
module RoundTrips {
  import opened Outcomes
  import opened Hex
  import opened JavaNumbers
  import opened Bson
  import opened ObjectIds
  import opened Store
  import opened Sdk
  import opened Metadata
  import opened MongoConstants
  import opened ReaderSpec
  import opened WriterSpec

  /** A built record, fetched as a plain record, yields the written document's name,
      MIME type and size, whatever other fields it holds; the size survives its trip
      through text when it fits a Java `long`. */
  lemma BuiltRecordReadsBack(
    metadata: map<string, MetadataType>, doc: Document, createdNow: int, modifiedNow: int,
    docId: string, dateText: DateRenderer, key: string, v: BsonValue)
    requires ValidMetadataMap(metadata) && InInt64(doc.size)
    requires key !in ReservedFields
    ensures var r := BuildRecord(metadata, doc, createdNow, modifiedNow);
      && PlainDocument(r, docId, dateText) == Success(NewDocument(docId, doc.name, doc.mimeType, doc.size))
      && PlainDocument(r[key := v], docId, dateText) == Success(NewDocument(docId, doc.name, doc.mimeType, doc.size))
  {
    var r := BuildRecord(metadata, doc, createdNow, modifiedNow);
    BuildRecordFields(metadata, doc, createdNow, modifiedNow);
    ParseLongDecimalText(doc.size);
    assert TextField(r, SIMFLOFY_FILENAME_FIELD, dateText) == Success(doc.name);
    assert TextField(r, SIMFLOFY_CONTENT_TYPE_FIELD, dateText) == Success(doc.mimeType);
    assert TextField(r, SIMFLOFY_LENGTH_FIELD, dateText) == Success(DecimalText(doc.size));
    assert LengthField(r, dateText) == Success(doc.size);
    PlainDocumentReadsOnlyReservedAttributes(r, key, v, docId, dateText);
  }

  /** A file uploaded with a built record as metadata yields the written document's
      name and MIME type, and the size of the bytes stored. */
  lemma UploadedFileReadsBack(
    metadata: map<string, MetadataType>, doc: Document, createdNow: int, modifiedNow: int,
    id: ObjectId, content: seq<byte>, docId: string, dateText: DateRenderer)
    requires ValidMetadataMap(metadata)
    ensures var f := GridFSFile(id, doc.name, content, Some(BuildRecord(metadata, doc, createdNow, modifiedNow)));
      GridFSDocument(Some(f), docId, dateText) == Some(NewDocument(docId, doc.name, doc.mimeType, |content|))
  {
    BuildRecordFields(metadata, doc, createdNow, modifiedNow);
  }

  /** A caller metadata value of one variant, written and then read as metadata, comes
      back as a string value whose text reads back, knowing the variant, as the value
      written. A value with no variant set is stored as null and comes back as the
      text `"null"`. */
  lemma WrittenMetadataReadsBack(
    metadata: map<string, MetadataType>, doc: Document, createdNow: int, modifiedNow: int,
    dateText: DateRenderer, key: string)
    requires ValidMetadataMap(metadata)
    requires key in metadata && key !in ReservedFields
    ensures var flat := Flatten(BuildRecord(metadata, doc, createdNow, modifiedNow), dateText);
      && key in flat
      && (metadata[key] == Unset ==> flat[key] == OfString("null"))
      && (forall k :: IsSet(metadata[key], k) && metadata[key] == Only(metadata[key], k) ==>
            flat[key] == OfString(ExtractMetadataStringValue(metadata[key]).value)
            && ReadBack(k, flat[key].stringValue.value) == Some(metadata[key]))
  {
    var r := BuildRecord(metadata, doc, createdNow, modifiedNow);
    var v := metadata[key];
    BuildRecordKeepsCallerKey(metadata, doc, createdNow, modifiedNow, key);
    forall k | IsSet(v, k) && v == Only(v, k)
      ensures Flatten(r, dateText)[key] == OfString(ExtractMetadataStringValue(v).value)
      ensures ReadBack(k, Flatten(r, dateText)[key].stringValue.value) == Some(v)
    {
      ExtractMetadataStringValueRoundTrip(v, k);
    }
  }

  /** A file uploaded with a built record as metadata lies in a listing's date window
      exactly when the document's modification date, in milliseconds, does. */
  lemma UploadedFileDateWindow(
    metadata: map<string, MetadataType>, doc: Document, createdNow: int, modifiedNow: int,
    id: ObjectId, content: seq<byte>, startTime: int, endTime: int)
    requires ValidMetadataMap(metadata)
    ensures var f := GridFSFile(id, doc.name, content, Some(BuildRecord(metadata, doc, createdNow, modifiedNow)));
      var ms := DateMillis(doc.modifiedDate);
      InDateWindow(f, startTime, endTime) <==> (startTime <= 0 || startTime <= ms) && (endTime <= 0 || ms <= endTime)
  {
    BuildRecordFields(metadata, doc, createdNow, modifiedNow);
  }

  /** A file uploaded with a built record lists under the document's source id when the
      identity field is `source_repository_id`, and under its own hex id in `_id` mode. */
  lemma UploadedFileIdentity(
    metadata: map<string, MetadataType>, doc: Document, createdNow: int, modifiedNow: int,
    id: ObjectId, content: seq<byte>, dateText: DateRenderer)
    requires ValidMetadataMap(metadata)
    ensures var f := GridFSFile(id, doc.name, content, Some(BuildRecord(metadata, doc, createdNow, modifiedNow)));
      && FileIdentity(SIMFLOFY_SOURCE_REPOSITORY_ID_FIELD, f, dateText) == Some(doc.id)
      && FileIdentity(ID, f, dateText) == Some(ToHexString(id))
  {
    BuildRecordFields(metadata, doc, createdNow, modifiedNow);
  }

  /** The `_id` filter of an appended record's hex id finds that record when no earlier
      record has the same `_id`. */
  lemma AppendedRecordFoundById(records: seq<Record>, stored: Record, id: ObjectId)
    requires ID in stored && stored[ID] == BObjectId(id)
    requires forall j :: 0 <= j < |records| ==> RecordField(records[j], ID) != Some(BObjectId(id))
    ensures IdentityFilter(false, ID, ToHexString(id)).Success?
    ensures FindFirstRecord(records + [stored], IdentityFilter(false, ID, ToHexString(id)).value) == Some(stored)
  {
    var docId := ToHexString(id);
    ParseToHexString(id);
    var filter := IdentityFilter(false, ID, docId).value;
    forall j | 0 <= j < |records| ensures !RecordMatches(filter, records[j]) {
      IdentityFilterOnRecords(ID, docId, records[j]);
    }
    IdentityFilterOnRecords(ID, docId, stored);
    FirstRecordIsAppended(records, stored, filter);
  }

  /** The `_id` filter of an appended file's hex id finds that file when no earlier file
      has the same id. */
  lemma AppendedFileFoundById(files: seq<GridFSFile>, file: GridFSFile)
    requires forall j :: 0 <= j < |files| ==> files[j].id != file.id
    ensures IdentityFilter(true, ID, ToHexString(file.id)).Success?
    ensures FindFirstFile(files + [file], IdentityFilter(true, ID, ToHexString(file.id)).value) == Some(file)
  {
    var docId := ToHexString(file.id);
    ParseToHexString(file.id);
    var filter := IdentityFilter(true, ID, docId).value;
    forall j | 0 <= j < |files| ensures !FileMatches(filter, files[j]) {
      IdentityFilterOnFiles(ID, docId, files[j]);
    }
    IdentityFilterOnFiles(ID, docId, file);
    FirstFileIsAppended(files, file, filter);
  }

  /** A record without `_id`, inserted under a generated id, is what a plain `_id`-mode
      fetch and metadata read of that id's hex find. */
  lemma InsertedRecordFoundById(
    cfg: ReaderConfig, s: Store, collection: string, record: Record, newId: ObjectId, dateText: DateRenderer)
    requires ID !in record
    requires !cfg.gridFS && cfg.idField == ID
    requires InsertEffect(s, collection, record, newId).Success?
    requires PlainDocument(record[ID := BObjectId(newId)], ToHexString(newId), dateText).Success?
    ensures var s' := InsertEffect(s, collection, record, newId).value;
      var stored := record[ID := BObjectId(newId)];
      && Fetch(cfg, s', collection, ToHexString(newId), dateText)
           == Success(Some(PlainDocument(stored, ToHexString(newId), dateText).value))
      && ReadMetadata(cfg, s', collection, ToHexString(newId), dateText) == Success(Flatten(stored, dateText))
      && Flatten(stored, dateText).Keys == record.Keys + {ID}
  {
    var s' := InsertEffect(s, collection, record, newId).value;
    var stored := record[ID := BObjectId(newId)];
    var records := Collection(s, collection);
    assert WithGeneratedId(record, newId) == stored;
    assert Collection(s', collection) == records + [stored];
    AppendedRecordFoundById(records, stored, newId);
    PlainReadsOfFoundRecord(cfg, s', collection, ToHexString(newId), dateText, stored);
  }

  /** A plain-mode fetch and metadata read of a docId whose filter finds a record with
      readable attributes answer with that record's document and flattened fields. */
  lemma PlainReadsOfFoundRecord(cfg: ReaderConfig, s: Store, collection: string, docId: string, dateText: DateRenderer, found: Record)
    requires !cfg.gridFS && IdentityFilter(false, cfg.idField, docId).Success?
    requires FindFirstRecord(Collection(s, collection), IdentityFilter(false, cfg.idField, docId).value) == Some(found)
    requires PlainDocument(found, docId, dateText).Success?
    ensures Fetch(cfg, s, collection, docId, dateText) == Success(Some(PlainDocument(found, docId, dateText).value))
    ensures ReadMetadata(cfg, s, collection, docId, dateText) == Success(Flatten(found, dateText))
  {
  }

  /** In plain `_id` mode, once a write without a caller `_id` has succeeded, fetching
      the hex of the generated id returns the written document's name, MIME type and
      size, and its metadata holds every caller key, every reserved key and `_id`. */
  lemma PlainWriteThenFetch(
    p: CustomParameters, s: Store, doc: Document, metadata: map<string, MetadataType>,
    chunks: seq<seq<byte>>, createdNow: int, modifiedNow: int, newId: ObjectId,
    cfg: ReaderConfig, dateText: DateRenderer)
    requires ValidMetadataMap(metadata) && InInt64(doc.size)
    requires !p.useGridFS && ID !in metadata
    requires !cfg.gridFS && cfg.idField == ID
    requires WriteEffect(p, s, doc, metadata, chunks, createdNow, modifiedNow, newId).Success?
    ensures var s' := WriteEffect(p, s, doc, metadata, chunks, createdNow, modifiedNow, newId).value;
      && Fetch(cfg, s', p.collection, ToHexString(newId), dateText)
           == Success(Some(NewDocument(ToHexString(newId), doc.name, doc.mimeType, doc.size)))
      && ReadMetadata(cfg, s', p.collection, ToHexString(newId), dateText).Success?
      && ReadMetadata(cfg, s', p.collection, ToHexString(newId), dateText).value.Keys
           == metadata.Keys + ReservedFields + {ID}
  {
    var record := BuildRecord(metadata, doc, createdNow, modifiedNow);
    BuildRecordKeys(metadata, doc, createdNow, modifiedNow);
    BuiltRecordHasNoId(metadata, doc, createdNow, modifiedNow);
    BuiltRecordReadsBack(metadata, doc, createdNow, modifiedNow, ToHexString(newId), dateText, ID, BObjectId(newId));
    InsertedRecordFoundById(cfg, s, p.collection, record, newId, dateText);
  }

  /** In GridFS `_id` mode, once an upload of at least one chunk has succeeded, the hex
      of the new file id fetches the written document's name and MIME type with the
      size of the concatenated chunks, its binary is those bytes with that MIME type,
      and its metadata holds every caller key and every reserved key. */
  lemma UploadThenFetch(
    p: CustomParameters, s: Store, doc: Document, metadata: map<string, MetadataType>,
    chunks: seq<seq<byte>>, createdNow: int, modifiedNow: int, newId: ObjectId,
    cfg: ReaderConfig, dateText: DateRenderer)
    requires ValidMetadataMap(metadata)
    requires p.useGridFS && chunks != []
    requires cfg.gridFS && cfg.idField == ID
    requires WriteEffect(p, s, doc, metadata, chunks, createdNow, modifiedNow, newId).Success?
    ensures var s' := WriteEffect(p, s, doc, metadata, chunks, createdNow, modifiedNow, newId).value;
      var docId := ToHexString(newId);
      && Fetch(cfg, s', p.collection, docId, dateText)
           == Success(Some(NewDocument(docId, doc.name, doc.mimeType, |Concat(chunks)|)))
      && Binary(cfg, s', p.collection, docId, dateText) == Success(BinaryDetails(docId, Concat(chunks), doc.mimeType))
      && ReadMetadata(cfg, s', p.collection, docId, dateText).Success?
      && ReadMetadata(cfg, s', p.collection, docId, dateText).value.Keys == metadata.Keys + ReservedFields
  {
    var s' := WriteEffect(p, s, doc, metadata, chunks, createdNow, modifiedNow, newId).value;
    var record := BuildRecord(metadata, doc, createdNow, modifiedNow);
    BuildRecordFields(metadata, doc, createdNow, modifiedNow);
    ConvertConcatenates(chunks);
    var files := Bucket(s, p.collection);
    var file := GridFSFile(newId, doc.name, Concat(chunks), Some(record));
    assert Bucket(s', p.collection) == files + [file];
    AppendedFileFoundById(files, file);
    UploadedFileReadsBack(metadata, doc, createdNow, modifiedNow, newId, Concat(chunks), ToHexString(newId), dateText);
  }
}
