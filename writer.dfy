/** The repository writer: stores a document and its metadata either as a plain
    record or as a GridFS file. Each method is proved to compute what module
    WriterSpec defines. */
module Writer {
  import opened Outcomes
  import opened Hex
  import opened Bson
  import opened ObjectIds
  import opened Store
  import opened Sdk
  import opened Metadata
  import opened MongoConstants
  import opened WriterSpec

  class MongoDBWriter {
    /** The database the client of the last write connected to. */
    var database: Database?
    /** The name of the collection handle of the last write. */
    var mongoCollection: string
    /** The record under construction (reused by every write). */
    var insertDoc: Record
    /** The name of the GridFS bucket handle of the last write. */
    var gridFSBucket: string

    constructor ()
      ensures database == null && insertDoc == map[]
    {
      database := null;
      mongoCollection := "";
      insertDoc := map[];
      gridFSBucket := "";
    }

    /** The loop both write paths run: a fresh record, then one entry per caller key
        holding the coerced value. */
    method FillFromMetadata(metadata: map<string, MetadataType>)
      requires ValidMetadataMap(metadata)
      modifies this`insertDoc
      ensures insertDoc == CoercedRecord(metadata)
    {
      insertDoc := map[];
      var entries := metadata.Keys;
      while entries != {}
        invariant entries <= metadata.Keys
        invariant insertDoc.Keys == metadata.Keys - entries
        invariant forall k :: k in insertDoc ==> insertDoc[k] == CoercedValue(metadata[k])
        decreases entries
      {
        var key :| key in entries;
        insertDoc := insertDoc[key := CoercedValue(metadata[key])];
        entries := entries - {key};
      }
    }

    /** `addSimMeta(insertDoc, doc)`, given the readings of its two clock calls. */
    method AddSimMeta(doc: Document, createdNow: int, modifiedNow: int)
      modifies this`insertDoc
      ensures insertDoc == WithSimMeta(old(insertDoc), doc, createdNow, modifiedNow)
    {
      insertDoc := insertDoc[SIMFLOFY_CREATED_BY := BString(SIMFLOFY)];
      insertDoc := insertDoc[SIMFLOFY_CREATED := BDateTime(createdNow)];
      insertDoc := insertDoc[SIMFLOFY_PATH_FIELD := BString(doc.parentPath)];
      insertDoc := insertDoc[SIMFLOFY_DOWNLOADABLE_FIELD := BBoolean(false)];
      insertDoc := insertDoc[SIMFLOFY_FILENAME_FIELD := BString(doc.name)];
      insertDoc := insertDoc[LAST_MODIFIED := BDateTime(DateMillis(doc.modifiedDate))];
      insertDoc := insertDoc[CREATED := BDateTime(DateMillis(doc.createdDate))];
      insertDoc := insertDoc[SIMFLOFY_TYPENAME := BString(DOCUMENT)];
      insertDoc := insertDoc[SIMFLOFY_LAST_MODIFIED := BDateTime(modifiedNow)];
      insertDoc := insertDoc[SIMFLOFY_LAST_MODIFIED_BY := BString(SIMFLOFY)];
      insertDoc := insertDoc[SIMFLOFY_CONTENT_TYPE_FIELD := BString(doc.mimeType)];
      insertDoc := insertDoc[SIMFLOFY_LENGTH_FIELD := BInteger(doc.size)];
      insertDoc := insertDoc[SIMFLOFY_SOURCE_REPOSITORY_ID_FIELD := BString(doc.id)];
      SimMetaUnrolled(old(insertDoc), doc, createdNow, modifiedNow);
    }

    /** `insertDocument(doc, metadata)`: builds the record and inserts it into the
        collection handle; `newId` is the `_id` the driver would generate. The driver's
        codec adds that `_id` to the record object itself before sending it, so the
        field holds the record with its `_id` afterwards, whether the insert succeeds
        or is refused. */
    method InsertDocument(doc: Document, metadata: map<string, MetadataType>, createdNow: int, modifiedNow: int, newId: ObjectId)
      returns (r: Result<Document, Error>)
      requires database != null && ValidMetadataMap(metadata)
      modifies this`insertDoc, database
      ensures insertDoc == WithGeneratedId(BuildRecord(metadata, doc, createdNow, modifiedNow), newId)
      ensures match InsertEffect(old(database.Snapshot()), mongoCollection, BuildRecord(metadata, doc, createdNow, modifiedNow), newId)
        case Success(s) => r == Success(doc) && database.Snapshot() == s
        case Failure(e) => r == Failure(e) && database.Snapshot() == old(database.Snapshot())
    {
      FillFromMetadata(metadata);
      AddSimMeta(doc, createdNow, modifiedNow);
      insertDoc := WithGeneratedId(insertDoc, newId);
      var result := database.Insert(mongoCollection, insertDoc, newId);
      if result.Failure? {
        return Failure(result.error);
      }
      return Success(doc);
    }

    /** `writeContent(doc, metadata, binaries)`: builds the record and uploads the
        converted chunks to the bucket handle as a file named after the document, the
        record as its metadata; `newId` is the file id the driver would generate. */
    method WriteContent(
      doc: Document, metadata: map<string, MetadataType>, binaries: seq<seq<byte>>,
      createdNow: int, modifiedNow: int, newId: ObjectId)
      returns (r: Result<Document, Error>)
      requires database != null && ValidMetadataMap(metadata)
      modifies this`insertDoc, database
      ensures insertDoc == BuildRecord(metadata, doc, createdNow, modifiedNow)
      ensures match UploadEffect(old(database.Snapshot()), gridFSBucket, doc.name, Convert(binaries), insertDoc, newId)
        case Success(s) => r == Success(doc) && database.Snapshot() == s
        case Failure(e) => r == Failure(e) && database.Snapshot() == old(database.Snapshot())
    {
      FillFromMetadata(metadata);
      AddSimMeta(doc, createdNow, modifiedNow);
      var source := Convert(binaries);
      if source.None? {
        return Failure(NullSource);
      }
      var result := database.Upload(gridFSBucket, doc.name, source.value, insertDoc, newId);
      if result.Failure? {
        return Failure(result.error);
      }
      return Success(doc);
    }

    /** `writeDocument`: connects, then routes by the GridFS setting to the plain insert
        or the GridFS upload into the configured collection. */
    method WriteDocument(
      doc: Document, metadata: map<string, MetadataType>, binaries: seq<seq<byte>>, params: CustomParameters,
      connection: Database, createdNow: int, modifiedNow: int, newId: ObjectId)
      returns (r: Result<Document, Error>)
      requires ValidMetadataMap(metadata)
      modifies this, connection
      ensures database == connection
      ensures !params.useGridFS ==> mongoCollection == params.collection && gridFSBucket == old(gridFSBucket)
      ensures params.useGridFS ==> gridFSBucket == params.collection && mongoCollection == params.collection + FILES_SUFFIX
      ensures !params.useGridFS ==> insertDoc == WithGeneratedId(BuildRecord(metadata, doc, createdNow, modifiedNow), newId)
      ensures params.useGridFS ==> insertDoc == BuildRecord(metadata, doc, createdNow, modifiedNow)
      ensures match WriteEffect(params, old(connection.Snapshot()), doc, metadata, binaries, createdNow, modifiedNow, newId)
        case Success(s) => r == Success(doc) && connection.Snapshot() == s
        case Failure(e) => r == Failure(e) && connection.Snapshot() == old(connection.Snapshot())
    {
      database := connection;
      if !params.useGridFS {
        mongoCollection := params.collection;
        r := InsertDocument(doc, metadata, createdNow, modifiedNow, newId);
      } else {
        gridFSBucket := params.collection;
        mongoCollection := params.collection + FILES_SUFFIX;
        r := WriteContent(doc, metadata, binaries, createdNow, modifiedNow, newId);
      }
    }
  }
}
