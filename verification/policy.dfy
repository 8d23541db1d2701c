/** The two checks the admission handler applies to the fetched transaction:
    its age and the presence of the required time-locked output. */
module Policy {
  import opened Domain

  /** Required lock amount in minor units: 10 YAC at 10^6 units per YAC. */
  const TimelockAmount: int := 10000000

  /** Required lock period, in blocks. */
  const TimelockDuration: int := 20

  /** The freshness window: one day, in seconds. */
  const FreshnessWindow: int := 24 * 60 * 60

  /** The handler rejects a transaction only when its timestamp lies strictly
      before `now - FreshnessWindow`. */
  predicate IsFresh(timestamp: int, now: int)
  {
    !(timestamp < now - FreshnessWindow)
  }

  /** An output proves the lock only if amount and lock period are both exactly
      the required ones; an output without lock information never does. */
  predicate MatchesPolicy(v: Vout)
  {
    v.amount == TimelockAmount && v.locktime == Some(TimelockDuration)
  }

  /** Whether some output of the transaction proves the lock. */
  function HasTimelockUtxo(vouts: seq<Vout>): (has: bool)
    ensures has <==> exists i :: 0 <= i < |vouts| && MatchesPolicy(vouts[i])
  {
    if |vouts| == 0 then false
    else if MatchesPolicy(vouts[0]) then true
    else
      var rest := HasTimelockUtxo(vouts[1..]);
      assert forall i :: 1 <= i < |vouts| ==> vouts[i] == vouts[1..][i - 1];
      rest
  }

  /** The handler's scan: walk the outputs in order and stop at the first match.
      `at` is the index of that first match, or `|vouts|` when there is none. */
  method ScanVouts(vouts: seq<Vout>) returns (found: bool, at: nat)
    ensures found <==> exists i :: 0 <= i < |vouts| && MatchesPolicy(vouts[i])
    ensures found ==> at < |vouts| && MatchesPolicy(vouts[at])
    ensures !found ==> at == |vouts|
    ensures forall j :: 0 <= j < at && j < |vouts| ==> !MatchesPolicy(vouts[j])
  {
    found := false;
    at := 0;
    while at < |vouts|
      invariant at <= |vouts|
      invariant forall j :: 0 <= j < at ==> !MatchesPolicy(vouts[j])
    {
      if MatchesPolicy(vouts[at]) {
        found := true;
        break;
      }
      at := at + 1;
    }
  }

  /** Freshness is an age bound: a transaction is fresh exactly when it is at
      most one day old, and one at exactly one day old still passes. */
  lemma FreshnessIsAgeBound(timestamp: int, now: int)
    ensures IsFresh(timestamp, now) <==> now - timestamp <= FreshnessWindow
    ensures IsFresh(now - 86400, now)
    ensures !IsFresh(now - 86401, now)
  {
  }

  /** Both fields are compared for equality: with the right amount and any
      other period, with the right period and any other amount, or with no lock
      information, an output proves nothing; with both right it does. */
  lemma ExactMatchOnly(amount: int, locktime: int)
    ensures HasTimelockUtxo([Vout(10000000, Some(20))])
    ensures locktime != 20 ==> !HasTimelockUtxo([Vout(10000000, Some(locktime))])
    ensures amount != 10000000 ==> !HasTimelockUtxo([Vout(amount, Some(20))])
    ensures !HasTimelockUtxo([Vout(amount, None)])
  {
  }
}
