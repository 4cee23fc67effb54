/**
 * The errors the loaders report: a directory entry that is not a YAML file,
 * and the failures of opening/reading it and of deserialising it. The Rust
 * error carries the entry's whole path; the model, which sees only file
 * names, carries the file name.
 */
module Errors {

  datatype Error = UnrecognizedProfileConfigFile(fileName: string) | ReadFailed | ParseFailed
}
