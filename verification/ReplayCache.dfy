/** The nonce cache that rejects replayed handshakes (apps/tailnet-connector/src/auth.ts). */
module ReplayCache {
  import opened Common

  const MAX_CLOCK_SKEW_MS := 5_000

  /** The signed parts of a handshake that matter here. */
  datatype Handshake = Handshake(nonce: string, expiresAt: int)

  /** The expiry window of `authenticateUpgrade`. */
  predicate InWindow(h: Handshake, authWindowMs: nat, now: int) {
    now <= h.expiresAt <= now + authWindowMs + MAX_CLOCK_SKEW_MS
  }

  function Pruned(entries: map<string, int>, now: int): map<string, int> {
    map nonce | nonce in entries && entries[nonce] >= now :: entries[nonce]
  }

  class NonceReplayCache {
    var entries: map<string, int>

    constructor ()
      ensures entries == map[]
    {
      entries := map[];
    }

    /** The loop deletes expired entries while it walks over the map. */
    method Consume(nonce: string, expiresAt: int, now: int) returns (accepted: bool)
      modifies this
      ensures accepted <==> nonce !in Pruned(old(entries), now)
      ensures entries == if accepted then Pruned(old(entries), now)[nonce := expiresAt] else Pruned(old(entries), now)
    {
      var rest := entries.Keys;
      while rest != {}
        invariant rest <= entries.Keys <= old(entries).Keys
        invariant forall n :: n in entries ==> entries[n] == old(entries)[n]
        invariant forall n :: n in old(entries) && n !in rest ==> (n in entries <==> old(entries)[n] >= now)
        invariant forall n :: n in rest ==> n in entries
        decreases rest
      {
        var stored :| stored in rest;
        rest := rest - {stored};
        if entries[stored] < now { entries := entries - {stored}; }
      }
      assert entries == Pruned(old(entries), now);
      if nonce in entries { return false; }
      entries := entries[nonce := expiresAt];
      return true;
    }

    /** The last checks of `authenticateUpgrade`, for a handshake with a valid signature. */
    method Authenticate(h: Handshake, authWindowMs: nat, now: int) returns (accepted: bool)
      modifies this
      ensures (entries, accepted) == Admit(old(entries), Attempt(h, now), authWindowMs)
    {
      if h.expiresAt < now || h.expiresAt > now + authWindowMs + MAX_CLOCK_SKEW_MS { return false; }
      accepted := Consume(h.nonce, h.expiresAt, now);
    }
  }

  // ---------------------------------------------------------------- runs

  datatype Attempt = Attempt(h: Handshake, now: int)

  function Admit(entries: map<string, int>, a: Attempt, authWindowMs: nat): (map<string, int>, bool) {
    if !InWindow(a.h, authWindowMs, a.now) then (entries, false)
    else
      var pruned := Pruned(entries, a.now);
      if a.h.nonce in pruned then (pruned, false) else (pruned[a.h.nonce := a.h.expiresAt], true)
  }

  function Cache(attempts: seq<Attempt>, authWindowMs: nat): map<string, int> {
    if attempts == [] then map[]
    else Admit(Cache(attempts[..|attempts| - 1], authWindowMs), attempts[|attempts| - 1], authWindowMs).0
  }

  /** The decision on attempt k. */
  predicate Accepted(attempts: seq<Attempt>, authWindowMs: nat, k: nat)
    requires k < |attempts|
  {
    Admit(Cache(attempts[..k], authWindowMs), attempts[k], authWindowMs).1
  }

  ghost predicate ClockForward(attempts: seq<Attempt>) {
    forall i, j :: 0 <= i <= j < |attempts| ==> attempts[i].now <= attempts[j].now
  }

  /** The unbounded history: some accepted attempt had this nonce, and has not expired. */
  ghost predicate SeenUnexpired(attempts: seq<Attempt>, authWindowMs: nat, nonce: string, now: int) {
    exists i :: 0 <= i < |attempts| && Accepted(attempts, authWindowMs, i)
                && attempts[i].h.nonce == nonce && attempts[i].h.expiresAt >= now
  }

  /** What one attempt adds to the unexpired nonces. */
  lemma AdmitAdds(entries: map<string, int>, a: Attempt, authWindowMs: nat, nonce: string, now: int)
    requires a.now <= now
    ensures var (after, accepted) := Admit(entries, a, authWindowMs);
            nonce in Pruned(after, now) <==>
            nonce in Pruned(entries, now) || (accepted && a.h.nonce == nonce && a.h.expiresAt >= now)
  {
  }

  /** From `now` on the cache knows exactly the unexpired accepted nonces. */
  lemma {:induction false} CacheIsHistory(attempts: seq<Attempt>, authWindowMs: nat, now: int)
    requires ClockForward(attempts) && forall i :: 0 <= i < |attempts| ==> attempts[i].now <= now
    ensures forall nonce :: nonce in Pruned(Cache(attempts, authWindowMs), now) <==> SeenUnexpired(attempts, authWindowMs, nonce, now)
  {
    if attempts != [] {
      var before, a := attempts[..|attempts| - 1], attempts[|attempts| - 1];
      assert attempts == before + [a];
      CacheIsHistory(before, authWindowMs, now);
      hide Admit, SeenUnexpired, Pruned;
      forall nonce
        ensures nonce in Pruned(Cache(attempts, authWindowMs), now) <==> SeenUnexpired(attempts, authWindowMs, nonce, now)
      {
        HistoryGrows(before, a, authWindowMs, nonce, now);
        AdmitAdds(Cache(before, authWindowMs), a, authWindowMs, nonce, now);
      }
    }
  }

  lemma HistoryGrows(before: seq<Attempt>, a: Attempt, authWindowMs: nat, nonce: string, now: int)
    ensures SeenUnexpired(before + [a], authWindowMs, nonce, now) <==>
            SeenUnexpired(before, authWindowMs, nonce, now) ||
            (Admit(Cache(before, authWindowMs), a, authWindowMs).1 && a.h.nonce == nonce && a.h.expiresAt >= now)
  {
    var attempts := before + [a];
    assert attempts[..|before|] == before;
    forall i | 0 <= i < |before| ensures attempts[..i] == before[..i] && attempts[i] == before[i] {}
    if SeenUnexpired(before, authWindowMs, nonce, now) {
      var i :| 0 <= i < |before| && Accepted(before, authWindowMs, i) && before[i].h.nonce == nonce && before[i].h.expiresAt >= now;
      assert Accepted(attempts, authWindowMs, i);
    }
    if SeenUnexpired(attempts, authWindowMs, nonce, now) {
      var i :| 0 <= i < |attempts| && Accepted(attempts, authWindowMs, i) && attempts[i].h.nonce == nonce && attempts[i].h.expiresAt >= now;
      assert i < |before| ==> Accepted(before, authWindowMs, i);
    }
    assert Accepted(attempts, authWindowMs, |before|) == Admit(Cache(before, authWindowMs), a, authWindowMs).1;
  }

  /** Pruning decides like an unbounded history: an attempt is accepted exactly when it is inside its
      window and no accepted handshake with its nonce is still unexpired. */
  lemma DecisionExact(attempts: seq<Attempt>, authWindowMs: nat, k: nat)
    requires ClockForward(attempts) && k < |attempts|
    ensures Accepted(attempts, authWindowMs, k) <==>
            attempts[k].now <= attempts[k].h.expiresAt <= attempts[k].now + authWindowMs + 5_000 &&
            !SeenUnexpired(attempts[..k], authWindowMs, attempts[k].h.nonce, attempts[k].now)
  {
    CacheIsHistory(attempts[..k], authWindowMs, attempts[k].now);
  }

  /** No handshake is ever accepted twice. */
  lemma NoReplay(attempts: seq<Attempt>, authWindowMs: nat, i: nat, j: nat)
    requires ClockForward(attempts) && i < j < |attempts| && attempts[i].h == attempts[j].h
    ensures !(Accepted(attempts, authWindowMs, i) && Accepted(attempts, authWindowMs, j))
  {
    DecisionExact(attempts, authWindowMs, j);
    assert attempts[..j][..i] == attempts[..i] && attempts[..j][i] == attempts[i];
    if Accepted(attempts, authWindowMs, i) && InWindow(attempts[j].h, authWindowMs, attempts[j].now) {
      assert Accepted(attempts[..j], authWindowMs, i);
      assert SeenUnexpired(attempts[..j], authWindowMs, attempts[j].h.nonce, attempts[j].now);
    }
  }
}
