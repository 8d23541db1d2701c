/** The two request handlers as pure step functions from the current state and
    the collaborators' answers to a response and the next state. Each handler is
    written once over the way it removes the temp file; `Admit` and
    `CheckExistence` are the handlers as written (callback-less `fs.unlink`),
    `AdmitIntended` and `CheckExistenceIntended` the same handlers with an
    unlink that works. */
module Admission {
  import opened Domain
  import opened Store
  import opened Policy

  /** The calls made once the duplicate check passed and the ledger was queried. */
  function Probe(tx: string): seq<Call>
  {
    [HashOnly, PinList, LedgerGet(tx)]
  }

  /** An exit that answers the client and returns, without touching the temp file. */
  function Answer(o: Outcome, s: State, calls: seq<Call>): Response
  {
    Response(o, true, false, false, s, calls)
  }

  /** An exception nothing catches: no answer, no unlink. */
  function Throw(cause: CrashCause, s: State, calls: seq<Call>): Response
  {
    Response(Crashed(cause), false, false, true, s, calls)
  }

  /** An exit that unlinks the temp file; `answerFirst` says whether the answer
      is written before the `fs.unlink` call. A callback-less unlink throws, so
      an answer due after it is never sent and the file stays on disk. */
  function UnlinkExit(o: Outcome, s: State, calls: seq<Call>, answerFirst: bool, style: UnlinkStyle): Response
  {
    match style
    case NoCallback => Response(o, answerFirst, false, true, s, calls + [Unlink])
    case WithCallback => Response(o, true, true, false, s, calls + [Unlink])
  }

  /** The status a failed multipart parse answers: `err.httpCode || 400`, so a
      missing code and a code of 0 both give 400. */
  function FormErrorStatus(httpCode: Option<int>): (code: int)
    ensures code != 0
    ensures httpCode.None? ==> code == 400
    ensures httpCode.Some? ==> code == (if httpCode.value == 0 then 400 else httpCode.value)
  {
    match httpCode
    case None => 400
    case Some(c) => if c == 0 then 400 else c
  }

  /** `POST /api/add_ipfs_content`: the ordered checks, each leaving early on
      failure, then the commit (pin the content, save one TimelockInfo record). */
  function AddIpfsContent(s: State, req: Request, env: Env, style: UnlinkStyle): (r: Response)
    // records are only ever appended to, at most one per request
    ensures s.records <= r.state.records
    ensures |r.state.records| <= |s.records| + 1
    // pins are only ever added, at most the uploaded content's DAG
    ensures s.pins <= r.state.pins
    ensures r.state.pins != s.pins ==>
              req.Form? && req.file.Some? && r.state.pins == s.pins + Dag(env.hash, env.blocks, req.file.value)
    // a request that adds a record binds a reference no earlier record holds
    ensures r.state.records != s.records ==>
              && r.outcome.Added?
              && req.Form? && req.timelocktx.Some? && req.file.Some?
              && r.state.records[|s.records|].tx == req.timelocktx.value
              && req.timelocktx.value !in BoundTxs(s.records)
    // the temp file is unlinked only by an unlink that works
    ensures r.released <==> style == WithCallback && Unlink in r.calls
  {
    match req
    case FormError(code) => Answer(FormRejected(FormErrorStatus(code)), s, [])
    case Form(file, timelocktx) =>
      if file.None? then
        Answer(NoUploadFile, s, [])
      else if IsFileExisted(s.pins, env.hash, file.value, env.pinListing) then
        // this early exit has no unlink call at all
        Answer(AlreadyExisted, s, [HashOnly, PinList])
      else if timelocktx.None? then
        Throw(MissingTimelockTx, s, [HashOnly, PinList])
      else
        var tx := timelocktx.value;
        match env.ledger
        case Unavailable => UnlinkExit(LedgerFetchFailed, s, Probe(tx), true, style)
        case Fetched(info) =>
          var checked := Probe(tx) + [RecordLookup(tx)];
          if env.lookup == LookupThrows then
            Throw(LookupFailed, s, checked)
          else
            match FindByTx(s.records, tx)
            case Some(bound) => UnlinkExit(TxAlreadyUsed(bound.ipfsCidv0), s, checked, true, style)
            case None =>
              if !IsFresh(info.timestamp, env.now) then
                UnlinkExit(TxTooOld, s, checked, true, style)
              else if !HasTimelockUtxo(info.vouts) then
                UnlinkExit(NoTimelockUtxo, s, checked, true, style)
              else
                assert tx !in BoundTxs(s.records);
                Commit(s, file.value, tx, env, checked, style)
  }

  /** The commit step, after every check passed. An exception from `ipfs.add`
      or from `save` is not caught, and whatever was pinned stays pinned. The
      unlink comes before the answer. */
  function Commit(s: State, file: Bytes, tx: string, env: Env, calls: seq<Call>, style: UnlinkStyle): (r: Response)
    ensures s.records <= r.state.records && |r.state.records| <= |s.records| + 1
    ensures r.state.pins == s.pins || r.state.pins == s.pins + Dag(env.hash, env.blocks, file)
    ensures r.state.records != s.records ==>
              && r.outcome == Added(env.hash(file).v0, env.hash(file).v1)
              && r.state.records[|s.records|] == LockRecord(tx, env.hash(file).v0, env.hash(file).v1)
              && Dag(env.hash, env.blocks, file) <= r.state.pins
    ensures r.answered ==> r.outcome.Added? && style == WithCallback
  {
    match env.commit
    case AddFails => Throw(AddFailed, s, calls + [PinAdd])
    case SaveFails =>
      var (cid, pins) := AddFile(s.pins, env.hash, env.blocks, file);
      var record := LockRecord(tx, cid.v0, cid.v1);
      Throw(SaveFailed, State(pins, s.records), calls + [PinAdd, RecordSave(record)])
    case NoFault =>
      var (cid, pins) := AddFile(s.pins, env.hash, env.blocks, file);
      var record := LockRecord(tx, cid.v0, cid.v1);
      UnlinkExit(Added(cid.v0, cid.v1), State(pins, s.records + [record]),
                 calls + [PinAdd, RecordSave(record)], false, style)
  }

  /** The admission handler as written: no exit ever unlinks the temp file, and
      an admission commits its pin and record but never answers. */
  function Admit(s: State, req: Request, env: Env): (r: Response)
    ensures !r.released
    ensures r.outcome.Added? ==> !r.answered && r.threw
    ensures r.answered ==> !r.outcome.Added? && Status(r.outcome).Some?
  {
    AddIpfsContent(s, req, env, NoCallback)
  }

  /** The admission handler with a working unlink: it takes the same exits with
      the same state effects as the code as written, and every exit that reaches
      the unlink both unlinks the file and answers. */
  function AdmitIntended(s: State, req: Request, env: Env): (r: Response)
    ensures r.outcome == Admit(s, req, env).outcome
    ensures r.state == Admit(s, req, env).state
    ensures r.answered <==> !r.outcome.Crashed?
    ensures r.outcome.Added? ==> r.answered && r.released && !r.threw
  {
    AddIpfsContent(s, req, env, WithCallback)
  }

  /** `POST /api/is_content_existed`: a read-only query of the pin set. The
      unlink comes before the answer. */
  function IsContentExisted(s: State, req: Request, env: Env, style: UnlinkStyle): (r: Response)
    ensures r.state == s
    ensures r.calls == [] || r.calls == [HashOnly, PinList, Unlink]
    ensures r.outcome.Existence? <==> req.Form? && req.file.Some?
    ensures r.outcome.Existence? ==>
              (r.outcome.status <==> env.pinListing == Listed && env.hash(req.file.value).v0 in s.pins)
    ensures !r.outcome.Existence? ==> r.answered && (Status(r.outcome) == Some(400) || req.FormError?)
  {
    match req
    case FormError(code) => Answer(FormRejected(FormErrorStatus(code)), s, [])
    case Form(file, _) =>
      if file.None? then
        Answer(NoUploadFile, s, [])
      else
        var existed := IsFileExisted(s.pins, env.hash, file.value, env.pinListing);
        UnlinkExit(Existence(existed), s, [HashOnly, PinList], false, style)
  }

  /** The existence handler as written: with a file it computes the verdict,
      then throws in `fs.unlink` before sending it. */
  function CheckExistence(s: State, req: Request, env: Env): (r: Response)
    ensures r.state == s && !r.released
    ensures r.outcome.Existence? ==> !r.answered && r.threw
  {
    IsContentExisted(s, req, env, NoCallback)
  }

  /** The existence handler with a working unlink: it answers every request,
      and unlinks the file of every request that has one. */
  function CheckExistenceIntended(s: State, req: Request, env: Env): (r: Response)
    ensures r.state == s && r.answered && !r.threw
    ensures r.released <==> req.Form? && req.file.Some?
    ensures r.outcome == CheckExistence(s, req, env).outcome
  {
    IsContentExisted(s, req, env, WithCallback)
  }
}
