/** Parameter names, field names and fixed values shared by the reader and the writer. */
module MongoConstants {

  // Names of the configuration parameters.
  const URI := "mongo_uri"
  const DB := "mongo_db"
  const COLLECTION := "mongo_collection"
  const QUERY := "query"
  const ID_FIELD := "idField"
  const USE_GRIDFS := "useGridFS"

  const FILES_SUFFIX := ".files"
  /** The store's native identifier field. */
  const ID := "_id"
  /** Prefix under which a GridFS file's sidecar metadata is addressed in queries. */
  const METADATA_DOT := "metadata."

  /** The fixed actor name written as creator and last modifier. */
  const SIMFLOFY := "Simflofy"
  const LAST_MODIFIED := "last_modified"
  const CREATED := "created"
  const DOCUMENT := "document"

  // Reserved ("simflofy") field names written by every document write.
  const SIMFLOFY_CREATED_BY := "simflofy_created_by"
  const SIMFLOFY_CREATED := "simflofy_created"
  const SIMFLOFY_PATH_FIELD := "simflofy_path"
  const SIMFLOFY_DOWNLOADABLE_FIELD := "simflofy_downloadable"
  const SIMFLOFY_FILENAME_FIELD := "simflofy_filename"
  const SIMFLOFY_TYPENAME := "simflofy_typename"
  const SIMFLOFY_LAST_MODIFIED := "simflofy_last_modified"
  const SIMFLOFY_LAST_MODIFIED_BY := "simflofy_last_modified_by"
  const SIMFLOFY_CONTENT_TYPE_FIELD := "simflofy_content_type"
  const SIMFLOFY_LENGTH_FIELD := "simflofy_length"
  const SIMFLOFY_SOURCE_REPOSITORY_ID_FIELD := "source_repository_id"

  /** The MIME type a binary lookup reports when it has nothing better. */
  const OCTET_STREAM := "application/octet-stream"

  /** Every field name the writer reserves for itself. */
  const ReservedFields: set<string> := {
    SIMFLOFY_CREATED_BY, SIMFLOFY_CREATED, SIMFLOFY_PATH_FIELD, SIMFLOFY_DOWNLOADABLE_FIELD,
    SIMFLOFY_FILENAME_FIELD, LAST_MODIFIED, CREATED, SIMFLOFY_TYPENAME, SIMFLOFY_LAST_MODIFIED,
    SIMFLOFY_LAST_MODIFIED_BY, SIMFLOFY_CONTENT_TYPE_FIELD, SIMFLOFY_LENGTH_FIELD,
    SIMFLOFY_SOURCE_REPOSITORY_ID_FIELD
  }
}
