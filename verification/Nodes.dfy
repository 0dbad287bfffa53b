/** The structures the list and hash macros work on.  The macros address fields of the
    caller's struct by name, so one class carries the links of both: prev/next for the
    lists of `utlist.h` and the application order of `hash.h`, hhPrev/hhNext and the
    key for the bucket chains of `hash.h`. */
module Nodes {

  type Key = seq<bv8>

  class Node {
    var prev: Node?
    var next: Node?
    var hhPrev: Node?
    var hhNext: Node?
    var key: Key
    var hashv: nat
    var tbl: Table?
  }

  // UT_hash_bucket
  datatype Bucket = Bucket(head: Node?, count: nat, expandMult: nat)

  // UT_hash_table
  class Table {
    var buckets: array<Bucket>
    var numBuckets: nat
    var log2NumBuckets: nat
    var numItems: nat
    var tail: Node?
    var idealChainMaxlen: nat
    var nonidealItems: nat
    var ineffExpands: nat
    var noexpand: bool
    var bloom: array<bv8>

    constructor ()
      ensures buckets.Length == 0 && bloom.Length == 0
    {
      buckets, bloom := new Bucket[0], new bv8[0];
    }
  }
}
