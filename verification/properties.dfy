/** Properties of the admission handler: the order of its checks, the state
    effects and the answer of each exit, and the single use of every lock
    transaction over a sequential run of requests. */
module AdmissionProperties {
  import opened Domain
  import opened Store
  import opened Policy
  import opened Admission

  /** The uploaded content is already pinned, as the duplicate check sees it. */
  ghost predicate IsDuplicate(s: State, req: Request, env: Env)
  {
    req.Form? && req.file.Some? && IsFileExisted(s.pins, env.hash, req.file.value, env.pinListing)
  }

  /** The request gets past the presence and duplicate checks and names a transaction. */
  ghost predicate ReachesLedger(s: State, req: Request, env: Env)
  {
    req.Form? && req.file.Some? && req.timelocktx.Some? && !IsDuplicate(s, req, env)
  }

  /** The request gets past the ledger fetch and the reuse check. */
  ghost predicate ReachesPolicy(s: State, req: Request, env: Env)
  {
    ReachesLedger(s, req, env) && env.ledger.Fetched? && env.lookup == LookupOk
    && req.timelocktx.value !in BoundTxs(s.records)
  }

  /** The exits that end in a callback-less `fs.unlink`, after their answer was
      written: every rejection after the duplicate check. */
  predicate IsLateRejection(o: Outcome)
  {
    o.LedgerFetchFailed? || o.TxAlreadyUsed? || o.TxTooOld? || o.NoTimelockUtxo?
  }

  // ---------------------------------------------------------------------------
  // Early exits

  /** A failed multipart parse answers with the parser's code (400 when it
      gives none, or 0) and touches nothing. */
  lemma FormErrorTouchesNothing(s: State, code: Option<int>, env: Env)
    ensures var r := Admit(s, FormError(code), env);
      && r.outcome == FormRejected(FormErrorStatus(code)) && r.answered && !r.threw
      && r.state == s && r.calls == [] && !r.released
  {
  }

  /** Without an uploaded file the request is answered 400 before any hashing,
      ledger or database call, and the state is untouched. */
  lemma MissingFileRejectedFirst(s: State, req: Request, env: Env)
    requires req.Form? && req.file.None?
    ensures var r := Admit(s, req, env);
      && r.outcome == NoUploadFile && Status(r.outcome) == Some(400) && r.answered && !r.threw
      && r.state == s && r.calls == [] && !r.released
  {
  }

  /** Already-pinned content is answered 400 after only the hash and the pin
      listing: no ledger call, no database call, no state change, and the temp
      file is left in place. */
  lemma DuplicateRejectedBeforeLedger(s: State, req: Request, env: Env)
    requires req.Form? && req.file.Some?
    requires env.pinListing == Listed && env.hash(req.file.value).v0 in s.pins
    ensures var r := Admit(s, req, env);
      && r.outcome == AlreadyExisted && Status(r.outcome) == Some(400) && r.answered && !r.threw
      && r.state == s && r.calls == [HashOnly, PinList] && !r.released
  {
  }

  /** The duplicate verdict does not depend on anything the later steps read:
      not the transaction field, the ledger, the clock, the database or the commit. */
  lemma DuplicateIgnoresLaterInputs(s: State, req: Request, env: Env, tx': Option<string>,
                                    ledger': LedgerResult, now': int, lookup': LookupStatus, commit': CommitFault)
    requires IsDuplicate(s, req, env)
    ensures Admit(s, req, env)
         == Admit(s, Form(req.file, tx'), env.(ledger := ledger', now := now', lookup := lookup', commit := commit'))
  {
  }

  /** A form without a `timelocktx` field makes the handler throw after the
      duplicate check: no answer, no unlink, no state change, no ledger call. */
  lemma MissingTxFieldCrashes(s: State, req: Request, env: Env)
    requires req.Form? && req.file.Some? && req.timelocktx.None? && !IsDuplicate(s, req, env)
    ensures var r := Admit(s, req, env);
      && r.outcome == Crashed(MissingTimelockTx) && !r.answered && r.threw
      && r.state == s && !r.released && r.calls == [HashOnly, PinList]
  {
  }

  /** A failed explorer request is answered 500 before any database lookup and
      pins and records nothing; the unlink that follows throws, so the file stays. */
  lemma LedgerFailureIs500(s: State, req: Request, env: Env)
    requires ReachesLedger(s, req, env) && env.ledger.Unavailable?
    ensures var r := Admit(s, req, env);
      && r.outcome == LedgerFetchFailed && Status(r.outcome) == Some(500) && r.answered
      && r.state == s && !r.released && r.threw
      && r.calls == [HashOnly, PinList, LedgerGet(req.timelocktx.value), Unlink]
  {
  }

  /** A database lookup that throws ends the request after the ledger fetch:
      no answer, no unlink, no state change. */
  lemma LookupFailureCrashes(s: State, req: Request, env: Env)
    requires ReachesLedger(s, req, env) && env.ledger.Fetched? && env.lookup == LookupThrows
    ensures var r := Admit(s, req, env);
      && r.outcome == Crashed(LookupFailed) && !r.answered && r.threw
      && r.state == s && !r.released
      && r.calls == [HashOnly, PinList, LedgerGet(req.timelocktx.value), RecordLookup(req.timelocktx.value)]
  {
  }

  /** A transaction some record already holds is answered 400, reporting the
      CIDv0 of the earliest such record; the state is untouched and the unlink
      that follows throws. */
  lemma ReusedTxRejected(s: State, req: Request, env: Env)
    requires ReachesLedger(s, req, env) && env.ledger.Fetched? && env.lookup == LookupOk
    requires req.timelocktx.value in BoundTxs(s.records)
    ensures var r := Admit(s, req, env);
      && r.outcome.TxAlreadyUsed? && Status(r.outcome) == Some(400) && r.answered
      && (exists i :: 0 <= i < |s.records| && s.records[i].tx == req.timelocktx.value
                      && r.outcome.boundCidv0 == s.records[i].ipfsCidv0
                      && forall j :: 0 <= j < i ==> s.records[j].tx != req.timelocktx.value)
      && r.state == s && !r.released && r.threw
  {
  }

  /** Once past the reuse check, the request is refused as too old exactly when
      its timestamp lies strictly before `now - 86400`; that refusal is answered
      400, changes nothing, and its unlink throws. */
  lemma FreshnessDecides(s: State, req: Request, env: Env)
    requires ReachesPolicy(s, req, env)
    ensures var r := Admit(s, req, env);
      && (r.outcome == TxTooOld <==> env.ledger.info.timestamp < env.now - 86400)
      && (r.outcome == TxTooOld ==>
            r.state == s && r.answered && Status(r.outcome) == Some(400) && !r.released && r.threw)
  {
  }

  /** A fresh transaction passing the reuse check is refused for its lock proof
      exactly when no output carries both the required amount and period; that
      refusal is answered 400, changes nothing, and its unlink throws. */
  lemma LockProofDecides(s: State, req: Request, env: Env)
    requires ReachesPolicy(s, req, env)
    requires env.now - env.ledger.info.timestamp <= 86400
    ensures var r := Admit(s, req, env);
      && (r.outcome == NoTimelockUtxo <==>
            forall i :: 0 <= i < |env.ledger.info.vouts| ==>
              env.ledger.info.vouts[i].amount != 10000000 || env.ledger.info.vouts[i].locktime != Some(20))
      && (r.outcome == NoTimelockUtxo ==>
            r.state == s && r.answered && Status(r.outcome) == Some(400) && !r.released && r.threw)
  {
  }

  // ---------------------------------------------------------------------------
  // Admission and its effects

  /** A request is admitted exactly when every check passes and both commit
      calls succeed. It then pins the content and appends exactly one record
      binding the transaction to the content's CIDs; the unlink that follows
      throws, so the CIDs are never sent and the file stays. */
  lemma AdmittedIff(s: State, req: Request, env: Env)
    ensures var r := Admit(s, req, env);
      r.outcome.Added? <==>
        && ReachesPolicy(s, req, env)
        && IsFresh(env.ledger.info.timestamp, env.now)
        && (exists i :: 0 <= i < |env.ledger.info.vouts| && MatchesPolicy(env.ledger.info.vouts[i]))
        && env.commit == NoFault
    ensures var r := Admit(s, req, env);
      r.outcome.Added? ==>
        var cid := env.hash(req.file.value);
        && r.outcome == Added(cid.v0, cid.v1)
        && r.state.pins == s.pins + Dag(env.hash, env.blocks, req.file.value)
        && r.state.records == s.records + [LockRecord(req.timelocktx.value, cid.v0, cid.v1)]
        && !r.answered && !r.released && r.threw
  {
  }

  /** With a working unlink, an admitted request is answered 200 with the
      content's CIDs and its temp file is unlinked. */
  lemma IntendedAdmissionAnswers(s: State, req: Request, env: Env)
    requires Admit(s, req, env).outcome.Added?
    ensures var r := AdmitIntended(s, req, env);
      var cid := env.hash(req.file.value);
      && r.outcome == Added(cid.v0, cid.v1) && r.answered && Status(r.outcome) == Some(200)
      && r.released && !r.threw
  {
  }

  /** Every exit other than admission and a failed `save` leaves the state as
      it was; a failed `save` leaves the content pinned with no record. */
  lemma RejectionsChangeNothing(s: State, req: Request, env: Env)
    ensures var r := Admit(s, req, env);
      !r.outcome.Added? && r.outcome != Crashed(SaveFailed) ==> r.state == s
    ensures var r := Admit(s, req, env);
      r.outcome == Crashed(SaveFailed) ==>
        && r.state.records == s.records
        && r.state.pins == s.pins + Dag(env.hash, env.blocks, req.file.value)
  {
  }

  /** As written, no exit unlinks the temp file. The client gets an answer
      exactly on the parse, presence and duplicate rejections and on the late
      rejections; every exit past the duplicate check throws (a late rejection
      after answering, in its `fs.unlink`). */
  lemma AsWrittenExits(s: State, req: Request, env: Env)
    ensures var r := Admit(s, req, env);
      && !r.released
      && (r.answered <==>
            r.outcome.FormRejected? || r.outcome.NoUploadFile? || r.outcome.AlreadyExisted?
            || IsLateRejection(r.outcome))
      && (r.threw <==> r.outcome.Crashed? || r.outcome.Added? || IsLateRejection(r.outcome))
  {
  }

  /** With a working unlink, the temp file is unlinked on exactly the late
      rejections and on admission, every exit but an uncaught exception answers,
      and only the duplicate rejection, among the exits that had a file to
      remove, leaves it on disk. */
  lemma IntendedReleasedExits(s: State, req: Request, env: Env)
    ensures var r := AdmitIntended(s, req, env);
      && (r.released <==> IsLateRejection(r.outcome) || r.outcome.Added?)
      && (r.answered <==> !r.outcome.Crashed?)
      && (r.threw <==> r.outcome.Crashed?)
  {
  }

  /** The ledger is fetched before the database is consulted: every record
      lookup is preceded by a ledger call for the same reference, and every
      call sequence starts with the hash and the pin listing. */
  lemma LedgerBeforeLookup(s: State, req: Request, env: Env)
    ensures var r := Admit(s, req, env);
      forall j :: 0 <= j < |r.calls| && r.calls[j].RecordLookup? ==>
        exists i :: 0 <= i < j && r.calls[i] == LedgerGet(r.calls[j].ref)
    ensures var r := Admit(s, req, env);
      |r.calls| > 0 ==> r.calls[..2] == [HashOnly, PinList]
  {
    var r := Admit(s, req, env);
    if ReachesLedger(s, req, env) && env.ledger.Fetched? {
      var tx := req.timelocktx.value;
      assert r.calls[..4] == [HashOnly, PinList, LedgerGet(tx), RecordLookup(tx)];
      forall j | 0 <= j < |r.calls| && r.calls[j].RecordLookup?
        ensures exists i :: 0 <= i < j && r.calls[i] == LedgerGet(r.calls[j].ref)
      {
        assert j == 3;
        assert r.calls[2] == LedgerGet(r.calls[j].ref);
      }
    }
  }

  /** The existence verdict computed by `isFileExisted` is `true` exactly when
      the admission handler, in the same state and with the same collaborators,
      refuses the upload as a duplicate. As written the verdict is never sent;
      with a working unlink it is. */
  lemma ExistenceMatchesDuplicateCheck(s: State, req: Request, env: Env)
    requires req.Form? && req.file.Some?
    ensures CheckExistence(s, req, env).outcome == Existence(Admit(s, req, env).outcome == AlreadyExisted)
    ensures !CheckExistence(s, req, env).answered
    ensures CheckExistenceIntended(s, req, env).answered
  {
  }

  /** Content that was admitted reads as existed from then on: a later upload
      of the same bytes, after any sequential run, is refused as a duplicate
      whenever the pin listing works. */
  lemma AdmittedContentIsDuplicate(s: State, req: Request, env: Env,
                                   batch: seq<(Request, Env)>, tx': Option<string>,
                                   ledger': LedgerResult, now': int, lookup': LookupStatus, commit': CommitFault)
    requires Admit(s, req, env).outcome.Added?
    ensures var later := Run(Admit(s, req, env).state, batch);
      Admit(later, Form(req.file, tx'), env.(pinListing := Listed, ledger := ledger', now := now', lookup := lookup', commit := commit')).outcome
        == AlreadyExisted
  {
  }

  /** The duplicate check also sees inner blocks: after an admission and any
      sequential run, an upload whose CIDv0 is an inner block of the admitted
      content's DAG (a leading chunk of a larger file, say) is refused as a
      duplicate whenever the pin listing works. */
  lemma InnerBlockIsDuplicate(s: State, req: Request, env: Env,
                              batch: seq<(Request, Env)>, req': Request, env': Env)
    requires Admit(s, req, env).outcome.Added?
    requires req'.Form? && req'.file.Some? && env'.pinListing == Listed
    requires env'.hash(req'.file.value).v0 in env.blocks(req.file.value)
    ensures Admit(Run(Admit(s, req, env).state, batch), req', env').outcome == AlreadyExisted
  {
  }

  // ---------------------------------------------------------------------------
  // Sequential runs and single use of a lock transaction

  /** The state after handling a batch of admission requests one after another.
      The state lives in IPFS and the database, so it survives the process
      exits the handler causes. */
  function Run(s: State, batch: seq<(Request, Env)>): (t: State)
    ensures s.records <= t.records
    ensures s.pins <= t.pins
    ensures |t.records| <= |s.records| + |batch|
    decreases |batch|
  {
    if |batch| == 0 then s
    else Run(Admit(s, batch[0].0, batch[0].1).state, batch[1..])
  }

  /** One admission keeps transaction references unique across records. */
  lemma AdmitPreservesTxUnique(s: State, req: Request, env: Env)
    requires TxUnique(s.records)
    ensures TxUnique(Admit(s, req, env).state.records)
  {
  }

  /** Within a sequential run no transaction reference is ever bound twice
      (sequential only: the lookup and the save are separate database calls). */
  lemma {:induction false} RunPreservesTxUnique(s: State, batch: seq<(Request, Env)>)
    requires TxUnique(s.records)
    ensures TxUnique(Run(s, batch).records)
    decreases |batch|
  {
    if |batch| > 0 {
      AdmitPreservesTxUnique(s, batch[0].0, batch[0].1);
      RunPreservesTxUnique(Admit(s, batch[0].0, batch[0].1).state, batch[1..]);
    }
  }

  /** Starting from an empty collection, every record of a sequential run
      binds a different transaction. */
  lemma RunFromEmptyTxUnique(batch: seq<(Request, Env)>)
    ensures TxUnique(Run(Empty, batch).records)
  {
    RunPreservesTxUnique(Empty, batch);
  }

  /** Once a transaction is bound, no later request naming it is admitted:
      whatever else happens in between, such a request stops at the latest at
      the reuse check, and records nothing. */
  lemma ConsumedTxNeverAdmitted(s: State, req: Request, env: Env,
                                batch: seq<(Request, Env)>, req': Request, env': Env)
    requires Admit(s, req, env).outcome.Added?
    requires req'.Form? && req'.timelocktx == req.timelocktx
    ensures var later := Run(Admit(s, req, env).state, batch);
      var r := Admit(later, req', env');
      && !r.outcome.Added?
      && r.state.records == later.records
      && ((ReachesLedger(later, req', env') && env'.ledger.Fetched? && env'.lookup == LookupOk)
            ==> r.outcome.TxAlreadyUsed?)
  {
  }
}
