/** Optional values, used for the answers of the file system and the database. */
module Wrappers {

  datatype Option<+T> = None | Some(value: T)
}
