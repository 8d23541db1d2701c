/** Data model of the upload-admission service: the durable state (the IPFS pin
    set and the TimelockInfo collection), the results of the collaborators the
    handlers call (kubo, the Yaswap explorer, the clock), the parsed request and
    the response a handler produces. */
module Domain {

  datatype Option<+T> = None | Some(value: T) {
    function GetOr(default: T): T {
      match this
      case Some(v) => v
      case None => default
    }
  }

  type Bytes = seq<bv8>

  /** The two string encodings of one content hash: base58 CIDv0 and its CIDv1 form. */
  datatype Cid = Cid(v0: string, v1: string)

  /** One TimelockInfo document: the lock transaction and the content it paid for. */
  datatype LockRecord = LockRecord(tx: string, ipfsCidv0: string, ipfsCidv1: string)

  /** Everything a request can change: the CIDv0s `ipfs.pin.ls` reports as
      pinned on the node, directly or as an inner block of a recursively pinned
      DAG, and the TimelockInfo documents in insertion order. */
  datatype State = State(pins: set<string>, records: seq<LockRecord>)

  const Empty: State := State({}, [])

  /** A transaction output. `locktime` is `Some` only when the explorer reports a
      `timelockUtxoInfo` object carrying a `locktime`. */
  datatype Vout = Vout(amount: int, locktime: Option<int>)

  datatype TxInfo = TxInfo(timestamp: int, vouts: seq<Vout>)

  /** What the explorer GET yields: axios either throws or returns the transaction. */
  datatype LedgerResult = Unavailable | Fetched(info: TxInfo)

  /** Whether `ipfs.pin.ls` ran to completion or threw. */
  datatype PinListing = Listed | ListError

  /** Whether `TimelockInfo.findOne` returns or throws (database down, timeout). */
  datatype LookupStatus = LookupOk | LookupThrows

  /** Whether the commit step's collaborators succeed: `ipfs.add` may throw, or
      `TimelockInfo.save` may throw after the content was already pinned. */
  datatype CommitFault = NoFault | AddFails | SaveFails

  /** The collaborators of one request. `hash` is kubo's content hashing: the
      same bytes always give the same identifiers, nothing else is assumed.
      `blocks` gives the CIDv0s of the inner blocks of the DAG `ipfs.add` builds
      for the bytes (for content larger than one chunk, its chunks among them). */
  datatype Env = Env(
    hash: Bytes -> Cid,
    blocks: Bytes -> set<string>,
    pinListing: PinListing,
    ledger: LedgerResult,
    now: int,
    lookup: LookupStatus,
    commit: CommitFault)

  /** A request after multipart parsing. `FormError` is a failed parse (the
      1 MiB size limit among others) with the parser's HTTP code, if it gave one;
      `file` is the uploaded temp file's content when one is present, and
      `timelocktx` the first value of the `timelocktx` field when the field exists. */
  datatype Request =
    | FormError(httpCode: Option<int>)
    | Form(file: Option<Bytes>, timelocktx: Option<string>)

  /** Exceptions the handlers do not catch: the process shuts down without
      answering the request. */
  datatype CrashCause = MissingTimelockTx | LookupFailed | AddFailed | SaveFailed

  /** How the temp file is removed. The handlers call the callback API's
      `fs.unlink(path)` without a callback, which throws a TypeError before
      unlinking anything; `WithCallback` is the call as evidently intended,
      which unlinks the file and returns. */
  datatype UnlinkStyle = NoCallback | WithCallback

  datatype Outcome =
    | FormRejected(code: int)
    | NoUploadFile
    | AlreadyExisted
    | LedgerFetchFailed
    | TxAlreadyUsed(boundCidv0: string)
    | TxTooOld
    | NoTimelockUtxo
    | Added(cidv0: string, cidv1: string)
    | Existence(status: bool)
    | Crashed(cause: CrashCause)

  /** Calls made to the external collaborators, in the order they are made. */
  datatype Call =
    | HashOnly
    | PinList
    | LedgerGet(ref: string)
    | RecordLookup(ref: string)
    | PinAdd
    | RecordSave(record: LockRecord)
    | Unlink

  /** The result of one handler invocation: the exit the handler took, whether
      that exit's answer reached the client, whether the temp file was unlinked,
      whether the handler threw an exception nothing catches (which ends the
      process through the handlers at index.js:278-290), the state afterwards and
      the collaborator calls made. */
  datatype Response = Response(
    outcome: Outcome,
    answered: bool,
    released: bool,
    threw: bool,
    state: State,
    calls: seq<Call>)

  /** The HTTP status of an exit's answer; `None` for an exit that throws before
      it has an answer to give. */
  function Status(o: Outcome): (code: Option<int>)
    ensures code == Some(200) <==> o.Added? || o.Existence? || o == FormRejected(200)
    ensures code == Some(500) <==> o.LedgerFetchFailed? || o == FormRejected(500)
    ensures code.None? <==> o.Crashed?
  {
    match o
    case FormRejected(c) => Some(c)
    case NoUploadFile => Some(400)
    case AlreadyExisted => Some(400)
    case LedgerFetchFailed => Some(500)
    case TxAlreadyUsed(_) => Some(400)
    case TxTooOld => Some(400)
    case NoTimelockUtxo => Some(400)
    case Added(_, _) => Some(200)
    case Existence(_) => Some(200)
    case Crashed(_) => None
  }
}
