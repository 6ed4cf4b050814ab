/** Small values used across the model. */
module Wrappers {
  /** In place of a nil pointer or a missing result. */
  datatype Option<+T> = None | Some(value: T)

  /** Reading a map of strings: a missing key yields the empty string. */
  function Read(m: map<string, string>, key: string): string {
    if key in m then m[key] else ""
  }
}
