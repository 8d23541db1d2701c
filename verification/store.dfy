/** The two durable stores as the handlers see them: kubo's pin set (queried by
    `isFileExisted`, extended by `addFile`) and the TimelockInfo collection
    (queried with `findOne({ tx })`, extended with `save`). */
module Store {
  import opened Domain

  /** `isFileExisted`: hash the bytes without storing them, then list the pins
      under that CIDv0. A listing that throws is read as "not existed". */
  function IsFileExisted(pins: set<string>, hash: Bytes -> Cid, file: Bytes, listing: PinListing): (existed: bool)
    ensures existed ==> hash(file).v0 in pins
    ensures listing == ListError ==> !existed
    ensures listing == Listed && hash(file).v0 in pins ==> existed
  {
    match listing
    case ListError => false
    case Listed => hash(file).v0 in pins
  }

  /** The CIDv0s `pin.ls` reports once the bytes are pinned recursively: the
      DAG's root and each of its inner blocks. */
  function Dag(hash: Bytes -> Cid, blocks: Bytes -> set<string>, file: Bytes): set<string>
  {
    {hash(file).v0} + blocks(file)
  }

  /** `addFile`: store the bytes and pin their DAG recursively, returning both
      encodings of the content hash. */
  function AddFile(pins: set<string>, hash: Bytes -> Cid, blocks: Bytes -> set<string>, file: Bytes): (r: (Cid, set<string>))
    // the same bytes now read as existed to `isFileExisted`, whenever the pin listing works
    ensures IsFileExisted(r.1, hash, file, Listed)
    // so does any content whose CIDv0 is an inner block of this DAG
    ensures forall g :: hash(g).v0 in blocks(file) ==> IsFileExisted(r.1, hash, g, Listed)
    // both returned encodings are those of the hash `isFileExisted` computes
    ensures r.0 == hash(file)
    // nothing already pinned is unpinned, and nothing outside this content's DAG is pinned
    ensures pins <= r.1 && r.1 - pins <= Dag(hash, blocks, file)
  {
    var cid := hash(file);
    (cid, pins + Dag(hash, blocks, file))
  }

  /** `TimelockInfo.findOne({ tx })`: the earliest stored record for `tx`, if any. */
  function FindByTx(records: seq<LockRecord>, tx: string): (found: Option<LockRecord>)
    ensures found.None? <==> forall i :: 0 <= i < |records| ==> records[i].tx != tx
    ensures found.Some? ==>
              exists i :: 0 <= i < |records| && records[i] == found.value && found.value.tx == tx
                          && forall j :: 0 <= j < i ==> records[j].tx != tx
  {
    if |records| == 0 then None
    else if records[0].tx == tx then Some(records[0])
    else
      var rest := FindByTx(records[1..], tx);
      assert forall i :: 1 <= i < |records| ==> records[i] == records[1..][i - 1];
      rest
  }

  /** No transaction reference is bound by two records. The collection's `tx`
      index is not declared unique, so nothing but the handler's lookup keeps this. */
  ghost predicate TxUnique(records: seq<LockRecord>)
  {
    forall i, j :: 0 <= i < j < |records| ==> records[i].tx != records[j].tx
  }

  /** The transaction references the collection has bound. */
  ghost function BoundTxs(records: seq<LockRecord>): set<string>
  {
    set i | 0 <= i < |records| :: records[i].tx
  }
}
