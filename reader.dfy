/** The repository reader: configured once by `init`, then answering listing,
    single-document, metadata, binary and delete requests against the database. Each
    method is proved to compute what module ReaderSpec defines. */
module Reader {
  import opened Outcomes
  import opened Bson
  import opened ObjectIds
  import opened Store
  import opened Sdk
  import opened Metadata
  import opened JavaNumbers
  import opened MongoConstants
  import opened ReaderSpec

  /** A query document (`org.bson.Document`) that `setQueryDateFields` edits in place. */
  class QueryDocument {
    var fields: Query

    constructor (fields: Query)
      ensures this.fields == fields
    {
      this.fields := fields;
    }
  }

  class MongoDBReader {
    var database: Database?
    var gridFS: bool
    var idField: string
    var query: Query
    var collectionStr: string
    var useObjectId: bool
    var startTime: int
    var endTime: int
    /** How this JVM prints a `java.util.Date` (it depends on the default time zone). */
    const dateText: DateRenderer

    /** The singleton before `init`. */
    constructor (dateText: DateRenderer)
      ensures this.dateText == dateText && database == null
    {
      this.dateText := dateText;
      database := null;
      gridFS := false;
      idField := "";
      query := map[];
      collectionStr := "";
      useObjectId := false;
      startTime := 0;
      endTime := 0;
    }

    /** `init` has run: there is a connection, an identity field, and `useObjectId`
        says whether that field is `_id`. */
    predicate Valid()
      reads this
    {
      database != null && ValidConfig(Config())
    }

    function Config(): (r: ReaderConfig)
      reads this
    {
      ReaderConfig(gridFS, idField, useObjectId, collectionStr, query, startTime, endTime)
    }

    /** `init(parameters)`; `connection` is the database the parameters' URI and
        database name lead to. */
    method Init(parameters: CustomParameters, connection: Database)
      modifies this
      ensures Valid()
      ensures database == connection && Config() == InitConfig(parameters)
    {
      gridFS := parameters.useGridFS;
      collectionStr := parameters.collection;
      var idField := parameters.idField;
      query := parameters.query;
      database := connection;
      this.idField := if idField == "" then ID else idField;
      useObjectId := this.idField == ID;
      startTime := parameters.startTimeOfDateFilter;
      endTime := parameters.endTimeOfDateFilter;
    }

    /** `setQueryDateFields`: adds the `$gte`/`$lte` window on `metadata.last_modified`
        to the query document when either bound is positive. */
    method SetQueryDateFields(startTime: int, endTime: int, queryObject: QueryDocument)
      modifies queryObject
      ensures queryObject.fields == WithDateFields(old(queryObject.fields), startTime, endTime)
    {
      var gte: Option<int> := None;
      var lte: Option<int> := None;
      if startTime > 0 {
        gte := Some(startTime);
      }
      if endTime > 0 {
        lte := Some(endTime);
      }
      if gte.Some? || lte.Some? {
        var queryField := METADATA_DOT + LAST_MODIFIED;
        queryObject.fields := queryObject.fields[queryField := Range(gte, lte)];
      }
    }

    /** The listing query `getDocuments` runs: in GridFS mode the configured query
        narrowed by the date window over the bucket's files, else the configured query
        over the collection's records. */
    method RunListingQuery() returns (results: seq<Entry>)
      requires Valid()
      ensures results == Listing(Config(), database.Snapshot())
    {
      if gridFS {
        var queryDoc := new QueryDocument(query);
        SetQueryDateFields(startTime, endTime, queryDoc);
        var files := FindFiles(Bucket(database.Snapshot(), collectionStr), queryDoc.fields);
        results := seq(|files|, i requires 0 <= i < |files| => FileEntry(files[i]));
      } else {
        var records := FindRecords(Collection(database.Snapshot(), collectionStr), query);
        results := seq(|records|, i requires 0 <= i < |records| => RecordEntry(records[i]));
      }
    }

    /** The identity `getDocuments` resolves for one listed result (the body of its
        loop up to the fetch). */
    method ResolveDocId(entry: Entry) returns (docId: Result<Option<string>, Error>)
      requires Valid()
      ensures docId == EntryIdentity(idField, entry, dateText)
    {
      docId := Success(None);
      match entry
      case FileEntry(f) =>
        if idField != ID && f.metadata.Some? && idField in f.metadata.value {
          docId := Success(Some(ValueOf(f.metadata.value[idField], dateText)));
        } else if idField == ID && f.metadata.Some? {
          docId := Success(Some(ToHexString(f.id)));
        }
      case RecordEntry(objDoc) =>
        if idField != ID && idField in objDoc {
          docId := Success(Some(ValueOf(objDoc[idField], dateText)));
        } else {
          match Get(objDoc, ID)
          case BObjectId(id) => docId := Success(Some(ToHexString(id)));
          case BNull => docId := Success(Some("null"));
          case _ => docId := Failure(NotAnObjectId);
        }
    }

    /** `getDocuments`: runs the listing query and fetches each result by the identity
        it resolves, stopping at the first result without one. */
    method GetDocuments(parameters: CustomParameters) returns (r: Result<set<Option<Document>>, Error>)
      requires Valid()
      ensures r == ListDocuments(Config(), database.Snapshot(), parameters.collection, dateText)
    {
      var docs: set<Option<Document>> := {};
      var results := RunListingQuery();
      ghost var cfg := Config();
      ghost var store := database.Snapshot();
      ghost var collection := parameters.collection;

      var i := 0;
      UnionEmpty(Collect(cfg, store, collection, dateText, results));
      while i < |results|
        invariant 0 <= i <= |results|
        invariant ListDocuments(cfg, store, collection, dateText)
          == Union(docs, Collect(cfg, store, collection, dateText, results[i..]))
      {
        CollectFrom(cfg, store, collection, dateText, results, i);
        var docId := ResolveDocId(results[i]);
        if docId.Failure? {
          return Failure(docId.error);
        }
        ghost var rest := Collect(cfg, store, collection, dateText, results[i + 1..]);
        if docId.value.Some? {
          var doc := GetDocument(docId.value.value, parameters);
          UnionJoin(docs, Fetched(doc), rest);
          if doc.Success? {
            docs := docs + {doc.value};
          } else {
            assert docs + Fetched(doc) == docs;
          }
        } else {
          assert docs + {} == docs;
          break;
        }
        i := i + 1;
      }
      if i == |results| {
        assert docs + {} == docs;
      }
      r := Success(docs);
    }

    /** `getDocument(docId)`: the document the identity filter finds first, or `None`
        (null) when there is none. */
    method GetDocument(docId: string, parameters: CustomParameters) returns (r: Result<Option<Document>, Error>)
      requires Valid()
      ensures r == Fetch(Config(), database.Snapshot(), parameters.collection, docId, dateText)
    {
      var docName := "";
      var contentType := "";
      var size := 0;

      var eq := IdentityFilter(gridFS, idField, docId);
      if eq.Failure? {
        return Failure(eq.error);
      }

      if gridFS {
        var first := FindFirstFile(Bucket(database.Snapshot(), parameters.collection), eq.value);
        if first.Some? && first.value.metadata.Some? {
          var metadata := first.value.metadata.value;
          docName := first.value.filename;
          size := |first.value.content|;
          contentType := ValueOf(Get(metadata, SIMFLOFY_CONTENT_TYPE_FIELD), dateText);
          return Success(Some(NewDocument(docId, docName, contentType, size)));
        }
      } else {
        var first := FindFirstRecord(Collection(database.Snapshot(), parameters.collection), eq.value);
        if first.Some? {
          var rec := first.value;
          var keys := rec.Keys;
          while keys != {}
            invariant keys <= rec.Keys
            invariant SIMFLOFY_FILENAME_FIELD in rec.Keys - keys ==>
              TextField(rec, SIMFLOFY_FILENAME_FIELD, dateText) == Success(docName)
            invariant SIMFLOFY_FILENAME_FIELD !in rec.Keys - keys ==> docName == ""
            invariant SIMFLOFY_CONTENT_TYPE_FIELD in rec.Keys - keys ==>
              TextField(rec, SIMFLOFY_CONTENT_TYPE_FIELD, dateText) == Success(contentType)
            invariant SIMFLOFY_CONTENT_TYPE_FIELD !in rec.Keys - keys ==> contentType == ""
            invariant SIMFLOFY_LENGTH_FIELD in rec.Keys - keys ==> LengthField(rec, dateText) == Success(size)
            invariant SIMFLOFY_LENGTH_FIELD !in rec.Keys - keys ==> size == 0
            decreases keys
          {
            var key :| key in keys;
            if key == SIMFLOFY_FILENAME_FIELD {
              var text := ToText(rec[key], dateText);
              if text.None? {
                return Failure(MalformedAttributes);
              }
              docName := text.value;
            } else if key == SIMFLOFY_CONTENT_TYPE_FIELD {
              var text := ToText(rec[key], dateText);
              if text.None? {
                return Failure(MalformedAttributes);
              }
              contentType := text.value;
            } else if key == SIMFLOFY_LENGTH_FIELD {
              var text := ToText(rec[key], dateText);
              if text.None? {
                return Failure(MalformedAttributes);
              }
              var n := ParseLong(text.value);
              if n.None? {
                return Failure(MalformedAttributes);
              }
              size := n.value;
            }
            keys := keys - {key};
          }
          return Success(Some(NewDocument(docId, docName, contentType, size)));
        }
      }
      return Success(None);
    }

    /** `getDocumentMetadata(docId)`: the matched record's (for GridFS, the matched
        file's metadata's) fields as string-variant values; empty when nothing matches. */
    method GetDocumentMetadata(docId: string, parameters: CustomParameters)
      returns (r: Result<map<string, MetadataType>, Error>)
      requires Valid()
      ensures r == ReadMetadata(Config(), database.Snapshot(), parameters.collection, docId, dateText)
    {
      var eq := IdentityFilter(gridFS, idField, docId);
      if eq.Failure? {
        return Failure(eq.error);
      }

      var source: Option<Record> := None;
      if gridFS {
        var first := FindFirstFile(Bucket(database.Snapshot(), parameters.collection), eq.value);
        if first.Some? && first.value.metadata.Some? {
          source := first.value.metadata;
        }
      } else {
        var first := FindFirstRecord(Collection(database.Snapshot(), parameters.collection), eq.value);
        source := first;
      }

      var metadataTypeMap: map<string, MetadataType> := map[];
      if source.Some? {
        var fields := source.value;
        var keys := fields.Keys;
        while keys != {}
          invariant keys <= fields.Keys
          invariant metadataTypeMap.Keys == fields.Keys - keys
          invariant forall k :: k in metadataTypeMap ==> metadataTypeMap[k] == OfString(ValueOf(fields[k], dateText))
          decreases keys
        {
          var key :| key in keys;
          metadataTypeMap := metadataTypeMap[key := OfString(ValueOf(fields[key], dateText))];
          keys := keys - {key};
        }
        assert metadataTypeMap == Flatten(fields, dateText);
      }
      return Success(metadataTypeMap);
    }

    /** `getDocumentBinary(docId)`: the details start as an empty stream of the default
        type; in GridFS mode a match supplies its content and content type. */
    method GetDocumentBinary(docId: string, parameters: CustomParameters) returns (r: Result<BinaryDetails, Error>)
      requires Valid()
      ensures r == Binary(Config(), database.Snapshot(), parameters.collection, docId, dateText)
    {
      var bd := BinaryDetails(docId, [], OCTET_STREAM);
      if gridFS {
        var eq := IdentityFilter(true, idField, docId);
        if eq.Failure? {
          return Failure(eq.error);
        }
        var first := FindFirstFile(Bucket(database.Snapshot(), parameters.collection), eq.value);
        if first.Some? {
          var mimetype := if first.value.metadata.Some?
            then ValueOf(Get(first.value.metadata.value, SIMFLOFY_CONTENT_TYPE_FIELD), dateText)
            else OCTET_STREAM;
          bd := bd.(content := first.value.content);
          bd := bd.(mimeType := mimetype);
        }
      }
      return Success(bd);
    }

    /** `deleteDocument(docId)`: the store afterwards is `DeleteEffect`'s; when it
        throws, nothing is deleted. */
    method DeleteDocument(docId: string, parameters: CustomParameters) returns (error: Option<Error>)
      requires Valid()
      modifies database
      ensures match DeleteEffect(Config(), old(database.Snapshot()), parameters.collection, docId)
        case Success(s) => error == None && database.Snapshot() == s
        case Failure(e) => error == Some(e) && database.Snapshot() == old(database.Snapshot())
    {
      var eq := IdentityFilter(gridFS, idField, docId);
      if eq.Failure? {
        return Some(eq.error);
      }
      var collection := parameters.collection;

      if gridFS {
        var files := Bucket(database.Snapshot(), collection);
        var fileId: Option<ObjectId> := None;
        if useObjectId {
          fileId := Parse(docId);
        } else {
          var first := FindFirstFile(files, eq.value);
          if first.Some? && first.value.metadata.Some? {
            fileId := Parse(ToHexString(first.value.id));
          }
        }
        assert fileId == DeleteTarget(Config(), files, eq.value, docId);

        if fileId.Some? {
          var rest := DeleteFile(files, fileId.value);
          if rest.Failure? {
            return Some(rest.error);
          }
          database.buckets := database.buckets[collection := rest.value];
        }
      } else {
        database.collections := database.collections[collection := DeleteOne(Collection(database.Snapshot(), collection), eq.value)];
      }
      return None;
    }
  }
}
