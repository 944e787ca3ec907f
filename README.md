# MongoDB remote agent: reader and writer, modelled in Dafny

This project models the decision logic of the 3sixty MongoDB remote agent. It has two sides:

- `MongoDBReader` lists, fetches, flattens, streams and deletes documents.
- `MongoDBWriter` coerces caller metadata to text, stamps the reserved "simflofy" fields, and inserts a record or uploads a GridFS file.

The MongoDB database is replaced by an in-memory store (module `Store`):

- In plain mode, a collection is a sequence of records, each a map from field name to BSON value.
- In GridFS mode, a bucket is a sequence of files. Each file has an ObjectId, a filename, its bytes and optional metadata.
- `find(q).first()` is the earliest element of the sequence meeting the query. `find(q)` is every element meeting it, in sequence order.
- `insertOne` appends a record, adds a generated `_id` when the record has none, and refuses a taken `_id`.
- `uploadFromStream` appends a file. `GridFSBucket.delete` removes a file by id and throws when there is none. `deleteOne` removes the first match.
- The class `Store.Database` holds the store. Its methods `Insert` and `Upload` are the two driver calls the writer makes; each changes the snapshot exactly as the functions `InsertOne` and `UploadFile` say.
- Stamping the reserved fields (`WithSimMeta`) is the list of thirteen (name, value) puts in the order the writer makes them, applied one after another.

The project has three layers:

- Modules `ReaderSpec` and `WriterSpec` state each operation as a function of the configuration and a store snapshot.
- Classes `Reader.MongoDBReader` and `Writer.MongoDBWriter` keep the connector's fields. They carry out the same steps with loops and in-place updates, and each method is proved to compute what the spec function defines.
- Module `RoundTrips` proves what the reader gives back of what the writer stored.

Supporting modules:

- `Hex`: lowercase Base16, as in section 8 of RFC 4648 but with lowercase digits.
- `ObjectIds`: 12-byte ids, printed as 24 hex digits.
- `Instants`: `ISO_INSTANT` formatting of a protobuf Timestamp, in the form of section 5.6 of RFC 3339.
- `JavaNumbers`: `Long.toString`, `Long.parseLong` and 64-bit wrap-around.
- `Metadata`: the SDK's tagged `MetadataType`.
- `Bson`: stored values and `String.valueOf`.
- `MongoConstants`: the names in `MongoDBConstants.java`.

Three behaviours of the code that are easy to misread, and that the model follows:

- The identity field defaults to `_id` only when the setting is empty (`StringUtils.isEmpty`). A blank setting such as `" "` is kept as a field name.
- When a GridFS file's metadata has no content type, the fetched document's and the binary's MIME type is the text `"null"`. It is neither empty nor the octet-stream default.
- In plain mode, `getObjectId("_id")` is consulted only when the identity field is `_id` or the record lacks it. There, an `_id` that is absent or null gives the identity `"null"`; an `_id` of any other non-ObjectId type throws outside the per-document `try`, so the whole listing fails (`NotAnObjectId`) instead of skipping that record.

## Model

| member | source | states |
|---|---|---|
| ReaderSpec.ResolveIdField | src/main/java/com/objective/threesixty/agent/mongodb/MongoDBReader.java:97 | An empty identity setting becomes `_id`; any other setting, blank ones included, is kept; the result is never empty |
| ReaderSpec.InitConfig | src/main/java/com/objective/threesixty/agent/mongodb/MongoDBReader.java:63-106 | After `init` the identity field is set and `useObjectId` holds exactly when the setting is empty or `_id` |
| Reader.MongoDBReader.Init | src/main/java/com/objective/threesixty/agent/mongodb/MongoDBReader.java:63-106 | Stores the connection and exactly the configuration `InitConfig` gives, leaving the reader valid |
| ReaderSpec.NewObjectId | src/main/java/com/objective/threesixty/agent/mongodb/MongoDBReader.java:202 | `new ObjectId(docId)` succeeds exactly on 24 hex digits and otherwise fails with the invalid text |
| ReaderSpec.IdentityFilter | src/main/java/com/objective/threesixty/agent/mongodb/MongoDBReader.java:200-209 | The filter fails exactly when the identity field is `_id` and docId is not a valid ObjectId |
| ReaderSpec.IdentityFilterOnFiles | src/main/java/com/objective/threesixty/agent/mongodb/MongoDBReader.java:200-209 | On a GridFS file the filter matches iff docId parses to the file's id (`_id` mode) or the metadata holds docId under the identity field |
| ReaderSpec.IdentityFilterOnRecords | src/main/java/com/objective/threesixty/agent/mongodb/MongoDBReader.java:290-299 | On a record the filter matches iff its `_id` is the parsed ObjectId (`_id` mode) or the identity field holds docId |
| ReaderSpec.DateWindow | src/main/java/com/objective/threesixty/agent/mongodb/MongoDBReader.java:434-445 | `$gte` is present iff startTime > 0 and `$lte` iff endTime > 0; there is no condition when neither is |
| ReaderSpec.WithDateFields | src/main/java/com/objective/threesixty/agent/mongodb/MongoDBReader.java:446-449 | Without a window the query is unchanged; otherwise `metadata.last_modified` is added or replaced and every other condition is kept |
| Reader.MongoDBReader.SetQueryDateFields | src/main/java/com/objective/threesixty/agent/mongodb/MongoDBReader.java:434-450 | Updates the query document in place to `WithDateFields` of its old contents |
| ReaderSpec.DateFieldsNarrowListing | src/main/java/com/objective/threesixty/agent/mongodb/MongoDBReader.java:129-132 | With a window, a file meets the GridFS listing query iff it meets the rest of the query and its `last_modified` lies in the window |
| ReaderSpec.FileIdentity | src/main/java/com/objective/threesixty/agent/mongodb/MongoDBReader.java:152-156 | A listed file has no identity iff it has no metadata, or the identity field is not `_id` and is missing from the metadata; otherwise the identity is the text of the metadata value under the identity field, or in `_id` mode the hex id |
| ReaderSpec.RecordIdentity | src/main/java/com/objective/threesixty/agent/mongodb/MongoDBReader.java:163-167 | A record holding a non-`_id` identity field gives that value's text; otherwise `_id` decides: an ObjectId gives its hex, null or absent gives `"null"`, any other type throws (`NotAnObjectId`) |
| ReaderSpec.EntryIdentity | src/main/java/com/objective/threesixty/agent/mongodb/MongoDBReader.java:147-168 | A record never lacks an identity; resolving a file's identity never throws |
| Reader.MongoDBReader.ResolveDocId | src/main/java/com/objective/threesixty/agent/mongodb/MongoDBReader.java:144-168 | Resolves exactly `EntryIdentity` for one result |
| ReaderSpec.Listing | src/main/java/com/objective/threesixty/agent/mongodb/MongoDBReader.java:123-140 | GridFS mode lists only files and plain mode only records |
| ReaderSpec.ListingMembers | src/main/java/com/objective/threesixty/agent/mongodb/MongoDBReader.java:123-140 | An entry is listed iff it is a file of the bucket meeting the date-narrowed query (GridFS mode) or a record of the collection meeting the caller's query (plain mode) |
| ReaderSpec.ListingDateWindow | src/main/java/com/objective/threesixty/agent/mongodb/MongoDBReader.java:126-132 | With a date window, a file is listed iff it is in the bucket, meets the rest of the query and was last modified inside the inclusive window; without one, iff it meets the query |
| Reader.MongoDBReader.RunListingQuery | src/main/java/com/objective/threesixty/agent/mongodb/MongoDBReader.java:116-140 | Returns exactly `Listing` of the configuration and the store |
| ReaderSpec.CollectStopsAtMissingIdentity | src/main/java/com/objective/threesixty/agent/mongodb/MongoDBReader.java:179-182 | A result without identity ends the loop: whatever follows it changes nothing |
| ReaderSpec.CollectSkipsFailedFetch | src/main/java/com/objective/threesixty/agent/mongodb/MongoDBReader.java:173-178 | A result whose fetch throws is skipped: the outcome is as if it were not listed |
| ReaderSpec.CollectMembers | src/main/java/com/objective/threesixty/agent/mongodb/MongoDBReader.java:143-183 | The set holds d iff some result the loop reaches, before any result without identity, fetches d (null included); each appears once |
| Reader.MongoDBReader.GetDocuments | src/main/java/com/objective/threesixty/agent/mongodb/MongoDBReader.java:109-188 | The loop's set is exactly `ListDocuments` of the configuration and the store |
| ReaderSpec.EnumeratedFileFetchesItself | src/main/java/com/objective/threesixty/agent/mongodb/MongoDBReader.java:154-155 | In GridFS `_id` mode a listed file with metadata lists under its hex id, and fetching that id returns that file's name, type and size |
| ReaderSpec.EnumeratedRecordFetchesItself | src/main/java/com/objective/threesixty/agent/mongodb/MongoDBReader.java:165-166 | In plain `_id` mode a listed record with an ObjectId lists under its hex id, and fetching that id reads that very record |
| ReaderSpec.TextField | src/main/java/com/objective/threesixty/agent/mongodb/MongoDBReader.java:256-257 | A reserved text attribute is `""` when absent, its text when present and not null, and throws exactly when it holds null |
| ReaderSpec.LengthField | src/main/java/com/objective/threesixty/agent/mongodb/MongoDBReader.java:258 | The length is 0 when absent; when present it throws iff the value is null or its text is not a decimal long, and otherwise is `Long.parseLong` of that text |
| ReaderSpec.PlainDocument | src/main/java/com/objective/threesixty/agent/mongodb/MongoDBReader.java:247-274 | The document has id docId, the name and MIME type of the reserved attributes (or `""`), and the parsed length (or 0); it fails iff one of the three attributes throws |
| ReaderSpec.PlainDocumentReadsOnlyReservedAttributes | src/main/java/com/objective/threesixty/agent/mongodb/MongoDBReader.java:250-260 | Setting any field other than the three reserved attributes leaves the fetched document unchanged |
| ReaderSpec.GridFSDocument | src/main/java/com/objective/threesixty/agent/mongodb/MongoDBReader.java:218-236 | A GridFS match gives a document iff it has metadata; the document has id docId, the file's name and byte length, and the text of the metadata content type as MIME type (`"null"` when absent) |
| Store.FindFirstFile | src/main/java/com/objective/threesixty/agent/mongodb/MongoDBReader.java:215 | `find(q).first()` on a bucket gives a matching file of the bucket, and none iff no file matches |
| Store.FindFirstRecord | src/main/java/com/objective/threesixty/agent/mongodb/MongoDBReader.java:244 | `find(q).first()` on a collection gives a matching record of it, and none iff no record matches |
| Store.FindFirstFileIsEarliest | src/main/java/com/objective/threesixty/agent/mongodb/MongoDBReader.java:215 | The file `find(q).first()` gives is the earliest matching file of the bucket |
| Store.FindFirstRecordIsEarliest | src/main/java/com/objective/threesixty/agent/mongodb/MongoDBReader.java:244 | The record `find(q).first()` gives is the earliest matching record of the collection |
| Store.FilterSnoc | src/main/java/com/objective/threesixty/agent/mongodb/MongoDBReader.java:132-139 | `find(q)` keeps sequence order: appending an element appends it to the result exactly when it matches |
| ReaderSpec.Fetch | src/main/java/com/objective/threesixty/agent/mongodb/MongoDBReader.java:191-282 | An invalid ObjectId in `_id` mode always fails; no match answers null; a GridFS match answers the GridFS document and a plain match the plain document or its failure; nothing else fails |
| Reader.MongoDBReader.GetDocument | src/main/java/com/objective/threesixty/agent/mongodb/MongoDBReader.java:191-282 | The key loop computes exactly `Fetch` |
| ReaderSpec.Flatten | src/main/java/com/objective/threesixty/agent/mongodb/MongoDBReader.java:316-320 | The metadata map has exactly the record's keys |
| ReaderSpec.FlattenKeepsText | src/main/java/com/objective/threesixty/agent/mongodb/MongoDBReader.java:319 | Each flattened value is a string variant whose coerced text is `String.valueOf` of the stored value |
| ReaderSpec.ReadMetadata | src/main/java/com/objective/threesixty/agent/mongodb/MongoDBReader.java:285-346 | Fails exactly on an invalid ObjectId in `_id` mode; no match (or a GridFS match without metadata) gives an empty map; a match gives its flattened record, or in GridFS mode its flattened metadata |
| Reader.MongoDBReader.GetDocumentMetadata | src/main/java/com/objective/threesixty/agent/mongodb/MongoDBReader.java:285-346 | The key loop computes exactly `ReadMetadata` |
| ReaderSpec.Binary | src/main/java/com/objective/threesixty/agent/mongodb/MongoDBReader.java:349-380 | Plain mode and a GridFS miss give an empty octet-stream binary; a GridFS match gives its bytes and the text of its metadata content type, or octet-stream without metadata; only GridFS `_id` mode with an invalid id fails |
| Reader.MongoDBReader.GetDocumentBinary | src/main/java/com/objective/threesixty/agent/mongodb/MongoDBReader.java:349-380 | Computes exactly `Binary` |
| ReaderSpec.DeleteEffect | src/main/java/com/objective/threesixty/agent/mongodb/MongoDBReader.java:383-431 | An invalid ObjectId in `_id` mode always fails; otherwise a delete fails only in GridFS mode when the resolved file is missing |
| Reader.MongoDBReader.DeleteDocument | src/main/java/com/objective/threesixty/agent/mongodb/MongoDBReader.java:383-431 | Changes the store exactly as `DeleteEffect` says and reports its error, leaving the store unchanged on failure |
| ReaderSpec.DeleteByObjectId | src/main/java/com/objective/threesixty/agent/mongodb/MongoDBReader.java:405-406 | GridFS `_id` delete removes exactly the files with the parsed id, and fails iff there is none |
| ReaderSpec.DeleteByField | src/main/java/com/objective/threesixty/agent/mongodb/MongoDBReader.java:407-412 | GridFS custom-field delete removes exactly the first match, or nothing when there is none, and never fails |
| Store.DeleteOne | src/main/java/com/objective/threesixty/agent/mongodb/MongoDBReader.java:427 | `deleteOne(q)` removes exactly the first matching record, and nothing when none matches |
| ReaderSpec.DeleteRecord | src/main/java/com/objective/threesixty/agent/mongodb/MongoDBReader.java:427 | Plain delete removes exactly the first record matching the identity filter (the collection becomes the records before and after it), or nothing when none matches; other collections and all buckets are left alone |
| Metadata.FirstSet | src/main/java/com/objective/threesixty/agent/mongodb/MongoDBWriter.java:178-199 | Picks a variant that is set, with no earlier variant set in the fixed order; gives none iff no variant is set |
| Metadata.ExtractMetadataStringValue | src/main/java/com/objective/threesixty/agent/mongodb/MongoDBWriter.java:178-202 | Gives null (None) iff no variant is set |
| Metadata.ExtractUsesFirstSetVariant | src/main/java/com/objective/threesixty/agent/mongodb/MongoDBWriter.java:178-199 | Only the first variant set decides the text; clearing the others does not change it |
| Metadata.ExtractMetadataStringValueRoundTrip | src/main/java/com/objective/threesixty/agent/mongodb/MongoDBWriter.java:178-202 | For a value of one variant, the stored text reads back as the value itself under a reader that accepts only lowercase hex, `true`/`false`, the `ISO_INSTANT` text and `Long.toString` text |
| Metadata.ReadBackOnlyWrittenText | src/main/java/com/objective/threesixty/agent/mongodb/MongoDBWriter.java:178-202 | Text reads back as a value only when it is exactly the text the coercion stores for that value; with the round trip, the stored text is `String.valueOf` for booleans and numbers, lowercase hex for bytes, and the instant text for timestamps |
| Hex.EncodeHex | src/main/java/com/objective/threesixty/agent/mongodb/MongoDBWriter.java:182 | Two lowercase hex digits per byte |
| Hex.DecodeEncodeHex | src/main/java/com/objective/threesixty/agent/mongodb/MongoDBWriter.java:182 | Hex-decoding the encoding gives the bytes back |
| Hex.EncodeDecodeHex | src/main/java/com/objective/threesixty/agent/mongodb/MongoDBReader.java:202 | Encoding decoded hex gives the text back in lowercase |
| Instants.ConvertTimestampToUTCString | src/main/java/com/objective/threesixty/agent/mongodb/MongoDBWriter.java:205-208 | The instant text has a `T` at position 10, ends in `Z`, and has fraction digits only for non-zero nanos |
| Instants.InstantRoundTrip | src/main/java/com/objective/threesixty/agent/mongodb/MongoDBWriter.java:205-208 | Parsing the formatted instant gives the Timestamp back |
| JavaNumbers.Wrap64 | src/main/java/com/objective/threesixty/agent/mongodb/MongoDBWriter.java:167 | The long product wraps to a 64-bit value congruent to the exact product, and equals it when it fits |
| JavaNumbers.ParseLongDecimalText | src/main/java/com/objective/threesixty/agent/mongodb/MongoDBReader.java:258 | `Long.parseLong` reads back exactly the 64-bit value `Long.toString` wrote |
| ObjectIds.ToHexString | src/main/java/com/objective/threesixty/agent/mongodb/MongoDBReader.java:155 | An ObjectId prints as 24 lowercase hex digits |
| ObjectIds.Parse | src/main/java/com/objective/threesixty/agent/mongodb/MongoDBReader.java:202 | Parsing succeeds exactly on 24 hex digits, and the parsed id prints as the lowercase text |
| ObjectIds.ParseToHexString | src/main/java/com/objective/threesixty/agent/mongodb/MongoDBReader.java:410 | A printed id parses back to itself |
| ObjectIds.ToHexStringInjective | src/main/java/com/objective/threesixty/agent/mongodb/MongoDBReader.java:155 | Distinct ids print differently |
| WriterSpec.CoercedValue | src/main/java/com/objective/threesixty/agent/mongodb/MongoDBWriter.java:117 | A caller value is stored as a string, or as null exactly when no variant is set |
| WriterSpec.CoercedRecord | src/main/java/com/objective/threesixty/agent/mongodb/MongoDBWriter.java:111-118 | The record after the metadata loop has exactly the caller's keys |
| Writer.MongoDBWriter.FillFromMetadata | src/main/java/com/objective/threesixty/agent/mongodb/MongoDBWriter.java:111-118 | The loop leaves the record field equal to `CoercedRecord` of the caller metadata |
| WriterSpec.DateMillis | src/main/java/com/objective/threesixty/agent/mongodb/MongoDBWriter.java:167-168 | The date is a 64-bit value, and seconds × 1000 with nanos dropped for every valid timestamp |
| WriterSpec.SimMetaKeys | src/main/java/com/objective/threesixty/agent/mongodb/MongoDBWriter.java:161-175 | Putting the thirteen reserved entries in order gives the record every reserved key and keeps the value of every non-reserved key |
| Store.Database.Insert | src/main/java/com/objective/threesixty/agent/mongodb/MongoDBWriter.java:126 | `insertOne` on the named collection: on success that collection becomes the appended sequence and nothing else changes; on a taken id the store is unchanged |
| Store.Database.Upload | src/main/java/com/objective/threesixty/agent/mongodb/MongoDBWriter.java:154 | `uploadFromStream` on the named bucket: on success the file is appended to that bucket and nothing else changes; on a taken id the store is unchanged |
| Writer.MongoDBWriter.AddSimMeta | src/main/java/com/objective/threesixty/agent/mongodb/MongoDBWriter.java:161-175 | Updates the record field in place to `WithSimMeta` of its old contents |
| WriterSpec.SimMetaValues | src/main/java/com/objective/threesixty/agent/mongodb/MongoDBWriter.java:162-174 | The reserved keys hold Simflofy as creator and modifier, downloadable false, typename document, the clock readings, the millisecond dates, and the document's path, name, type, size and id |
| WriterSpec.BuildRecordFields | src/main/java/com/objective/threesixty/agent/mongodb/MongoDBWriter.java:111-122 | The built record's keys are the caller's keys plus the reserved ones; non-reserved caller keys keep their coerced value; reserved keys hold the writer's values |
| WriterSpec.ReservedFieldsOverrideCaller | src/main/java/com/objective/threesixty/agent/mongodb/MongoDBWriter.java:117-122 | Caller metadata under a reserved name never reaches the record: metadata maps that agree elsewhere build the same record |
| WriterSpec.Convert | src/main/java/com/objective/threesixty/agent/mongodb/MongoDBWriter.java:211-215 | No chunk gives null (None) and at least one chunk gives a stream |
| WriterSpec.ConvertConcatenates | src/main/java/com/objective/threesixty/agent/mongodb/MongoDBWriter.java:211-215 | The chained stream yields the chunks' bytes concatenated in arrival order |
| WriterSpec.WriteEffect | src/main/java/com/objective/threesixty/agent/mongodb/MongoDBWriter.java:84-103 | A write fails only on a taken id, or in GridFS mode on a null stream |
| WriterSpec.PlainWriteAppendsRecord | src/main/java/com/objective/threesixty/agent/mongodb/MongoDBWriter.java:126 | A plain write appends exactly the built record (with a generated `_id` unless one was sent) to the configured collection and changes nothing else; it fails only when that `_id` is taken |
| WriterSpec.GridFSWriteAddsFile | src/main/java/com/objective/threesixty/agent/mongodb/MongoDBWriter.java:152-154 | With a fresh id, a GridFS write fails iff no chunk arrives, and otherwise adds exactly one file named after the document, holding the concatenated bytes and the built record, and changes nothing else |
| WriterSpec.WritePreservesWellFormed | src/main/java/com/objective/threesixty/agent/mongodb/MongoDBWriter.java:107-158 | A successful write keeps record ids and file ids unique |
| Writer.MongoDBWriter.InsertDocument | src/main/java/com/objective/threesixty/agent/mongodb/MongoDBWriter.java:107-130 | Builds the record and changes the store as `InsertEffect` says, returning the input document on success; afterwards the record field holds the built record with the driver's generated `_id` added in place, on success and on a refused insert alike |
| Writer.MongoDBWriter.WriteContent | src/main/java/com/objective/threesixty/agent/mongodb/MongoDBWriter.java:133-158 | Builds the record and changes the store as `UploadEffect` of the converted chunks says, returning the input document on success |
| Writer.MongoDBWriter.WriteDocument | src/main/java/com/objective/threesixty/agent/mongodb/MongoDBWriter.java:70-104 | Plain mode uses collection `collectionStr`; GridFS mode uses bucket `collectionStr` and collection `collectionStr.files`; the store changes exactly as `WriteEffect` says; the record field holds the built record, with the generated `_id` added in plain mode |
| RoundTrips.BuiltRecordReadsBack | src/main/java/com/objective/threesixty/agent/mongodb/MongoDBReader.java:255-258 | A built record fetched in plain mode gives the written name, type and size, whatever other field is added |
| RoundTrips.UploadedFileReadsBack | src/main/java/com/objective/threesixty/agent/mongodb/MongoDBReader.java:218-230 | A file uploaded with a built record fetches as the written name and type with the stored byte length |
| RoundTrips.WrittenMetadataReadsBack | src/main/java/com/objective/threesixty/agent/mongodb/MongoDBReader.java:316-320 | A written caller value comes back as text that reads back, for its variant, as the value written; an unset value comes back as `"null"` |
| RoundTrips.UploadedFileDateWindow | src/main/java/com/objective/threesixty/agent/mongodb/MongoDBReader.java:446-449 | An uploaded file is in the listing's date window iff the document's modification date in milliseconds is |
| RoundTrips.UploadedFileIdentity | src/main/java/com/objective/threesixty/agent/mongodb/MongoDBReader.java:152-156 | An uploaded file lists under the document's id when the identity field is `source_repository_id`, and under its hex id in `_id` mode |
| RoundTrips.PlainWriteThenFetch | src/main/java/com/objective/threesixty/agent/mongodb/MongoDBWriter.java:107-130 | After a plain write, fetching the generated id in `_id` mode gives the written name, type and size, and the metadata has the caller, reserved and `_id` keys |
| RoundTrips.UploadThenFetch | src/main/java/com/objective/threesixty/agent/mongodb/MongoDBWriter.java:133-158 | After an upload, fetching the new file id in `_id` mode gives the written name and type with the bytes' length; the binary is the concatenated chunks; the metadata has the caller and reserved keys |

## Left out

- Driver and I/O: the MongoDB client, database and bucket handles, the network and `mongoClient.close()` are not modelled. The store is the in-memory `Store`, and a method receives the `Database` object a connection would reach.
- Reactor: `Mono.fromCallable`, `subscribeOn`, `doOnError`, `doFinally` and `block()` are not modelled. The callable bodies run synchronously, and an exception becomes a `Failure` result.
- Concurrency: the writer keeps per-call state in singleton fields that concurrent writes would race on. Only sequential use is modelled.
- Logging calls are not modelled.
- Query parsing: `org.bson.Document.parse(query)` is library JSON parsing. The query arrives already parsed, as conjunctive equality and date-range conditions on field paths. Other query operators are not modelled.
- Clock and id generation: the two `new Date()` readings and the driver's generated ObjectId are parameters (`createdNow`, `modifiedNow`, `newId`).
- `java.util.Date.toString()` depends on the JVM time zone. It is the parameter `dateText`.
- Double, decimal and array renderings (Java and protobuf `toString`) are not computed. Each such value carries its text.
- Metadata.ExtractMetadataStringValue: requires a date-time value to lie within the protobuf Timestamp range (years 1 to 9999). The calendar conversion is modelled only for those years; `ISO_INSTANT` prints others with a sign and more year digits.
- Reader.MongoDBReader.GetDocument: a null attribute (a null dereference) and a non-numeric length (NumberFormatException) are both reported as `MalformedAttributes`. Which of the two Java raises first depends on key order.
- Store.DeleteFile: `GridFSBucket.delete` of an unknown id throws `FileNotFound`, following the driver's documented behaviour. The driver is not part of this model.
- Streams: the binary's input stream is the whole byte sequence; lazy reading is not modelled.
- JavaNumbers.ParseLong: accepts ASCII decimal digits only. `Long.parseLong` also accepts other Unicode decimal digits (through `Character.digit`), so a length written in, say, Arabic-Indic digits would be read by Java but is `MalformedAttributes` here.
- Store.FileField: a `metadata.<key>` path looks `<key>` up as one flat key of the metadata, and Store.RecordField looks a path up as one top-level key. MongoDB's `eq` follows a dotted path into nested documents. The source itself mixes the two: enumeration tests `containsKey(idField)` on the flat metadata, while `getDocument` filters on the nested path `metadata.` + idField. An identity field containing a dot can therefore list a file that the fetch does not find (or the reverse); the model treats both as flat and does not capture that difference.
- GridFS file fields: a file has only `_id`, `filename`, `length` and `metadata`; `uploadDate`, `chunkSize` and other system fields are absent, so a listing query on them matches no file here. File ids are always ObjectIds; a file with another id type, which would make `getObjectId()` throw during listing or fetch, cannot be represented.
- Result order: an unsorted MongoDB `find` returns documents in the server's natural order, which MongoDB does not specify. The model takes that order to be the order of the stored sequence (insertion order), so `first()` is the earliest match there.
- Store.Holds: equality compares whole values. MongoDB's equality on an array field also matches an array element; arrays are `BOther` text here, so such a query never matches one element.
- `MongoDBConnectorForm.java` declares UI form fields and has no behaviour to model.
