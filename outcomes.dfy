/** Option and Result, the two failure-carrying shapes the connector uses:
    `None` stands for Java's `null`, `Failure` for an exception. */
module Outcomes {

  datatype Option<+T> = None | Some(value: T)

  datatype Result<+T, +E> = Success(value: T) | Failure(error: E)

  /** The exceptions the connector lets escape (or catches) on its core paths. */
  datatype Error =
    | InvalidObjectId(text: string)   // IllegalArgumentException from `new ObjectId(String)`
    | MalformedAttributes             // null dereference or NumberFormatException reading reserved fields
    | NotAnObjectId                   // ClassCastException from `getObjectId("_id")`
    | FileNotFound                    // the GridFS bucket has no file with the id to delete
    | DuplicateKey                    // insertOne of a record whose `_id` is already taken
    | NullSource                      // uploadFromStream reading from a null stream
}
