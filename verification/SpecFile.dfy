/** The lines of a spec, as the line-oriented editor changes them. */
module SpecFile {
  class Spec {
    var rawLines: seq<string>
  }
}
