/** The records of ripgrep's `--json` output that the workers act on, after
    JSON decoding. The decoder itself (`serde_json::from_str` and the field
    look-ups on the resulting value) is a parameter of the model. */
module RgMessage {
  import opened Strings

  /** ripgrep numbers lines from 1. */
  type LineNumber = n: nat | 1 <= n witness 1

  /** One record, by its `type` field; `Other` is every type the workers
      ignore (such as `summary`). */
  datatype Record =
    | Begin(path: string)
    | Context(lineNumber: LineNumber, text: string)
    | Match(lineNumber: LineNumber, text: string, submatches: seq<Range>)
    | End
    | Other

  /** A record that belongs inside one file's `begin` ... `end` block. */
  predicate InFile(r: Record) {
    !r.Begin? && !r.End?
  }

  /** The number of `end` records. */
  function CountEnds(rs: seq<Record>): (n: nat)
    ensures n <= |rs|
  {
    if rs == [] then 0 else CountEnds(rs[..|rs| - 1]) + (if rs[|rs| - 1].End? then 1 else 0)
  }
}
