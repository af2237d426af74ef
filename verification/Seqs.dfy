/** Sequences as storage. */
module Seqs {

  /** `vals` in place of what was at `at`. */
  function Stored<T>(s: seq<T>, at: nat, vals: seq<T>): (r: seq<T>)
    requires at + |vals| <= |s|
    ensures |r| == |s|
  {
    s[..at] + vals + s[at + |vals|..]
  }
}
