/** Values shared by the upload controller, the conversion panel and the
    conversion request: JavaScript's nullable values and the browser's File. */
module Shared {

  /** A value that may be `null` (or `undefined`) in the source. */
  datatype Option<+T> = None | Some(value: T)

  /** The part of a browser `File` the core reads: its name and its size in bytes.
      The byte content is only ever handed on to the browser or the network. */
  datatype File = File(name: string, size: nat)

  /** JavaScript truthiness of a `string | null`: neither null nor empty. */
  predicate Truthy(s: Option<string>) {
    s.Some? && s.value != ""
  }
}
