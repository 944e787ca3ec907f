/** The types the remote-agent SDK hands the connector and takes back from it. */
module Sdk {
  import opened Hex
  import opened Instants
  import opened Store

  /** The SDK's document: identity, name, MIME type, size, and the fields a writer
      receives from the source repository. */
  datatype Document = Document(
    id: string, name: string, mimeType: string, size: int,
    parentPath: string, createdDate: Timestamp, modifiedDate: Timestamp)

  /** `Document.newBuilder().setId(..).setName(..).setMimeType(..).setSize(..).build()`:
      the fields not set keep their protobuf defaults. */
  function NewDocument(id: string, name: string, mimeType: string, size: int): (r: Document) {
    Document(id, name, mimeType, size, "", Timestamp(0, 0), Timestamp(0, 0))
  }

  /** A binary lookup's answer: the document id, the bytes its stream yields and a MIME type. */
  datatype BinaryDetails = BinaryDetails(docId: string, content: seq<byte>, mimeType: string)

  /** The connector's configuration, as `CustomParameters` resolves it: the query is
      taken already parsed, and the date filter bounds are epoch milliseconds (0 for none). */
  datatype CustomParameters = CustomParameters(
    useGridFS: bool, uri: string, db: string, collection: string, idField: string,
    query: Query, startTimeOfDateFilter: int, endTimeOfDateFilter: int)
}
