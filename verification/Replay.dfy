/** Bounded per-connection replay protection (src/ipc/framing.cpp). */
module Replay {
  import opened Values

  const WINDOW: nat := 120_000
  const CACHE: nat := 256
  const NONCE: nat := 16

  // ---- What the guard means: a list of recently accepted nonces ----

  datatype Guard = Guard(recent: seq<Bytes>, lastSequence: nat, wall: nat)

  const FRESH_GUARD := Guard([], 0, 0)

  datatype Attempt = Attempt(sequence: nat, nonce: Bytes, timestamp: nat, now: nat)

  predicate Near(reference: nat, timestamp: nat)
  {
    reference - WINDOW <= timestamp <= reference + WINDOW
  }

  /** One reference clock: the journal's, once it has been noted. */
  predicate InWindow(wall: nat, a: Attempt)
  {
    Near(if wall != 0 then wall else a.now, a.timestamp)
  }

  predicate Unseen(hash: Bytes -> nat, recent: seq<Bytes>, nonce: Bytes)
  {
    forall i :: 0 <= i < |recent| ==> hash(recent[i]) != hash(nonce)
  }

  predicate Acceptable(hash: Bytes -> nat, g: Guard, a: Attempt)
  {
    && g.lastSequence < a.sequence
    && InWindow(g.wall, a)
    && |a.nonce| == NONCE
    && Unseen(hash, g.recent, a.nonce)
  }

  function LastOf<T>(s: seq<T>): (r: seq<T>)
    ensures |r| <= CACHE
  {
    if |s| <= CACHE then s else s[|s| - CACHE..]
  }

  function Accepting(hash: Bytes -> nat, g: Guard, a: Attempt): Guard
  {
    if Acceptable(hash, g, a) then g.(recent := LastOf(g.recent + [a.nonce]), lastSequence := a.sequence) else g
  }

  // ---- The implementation: a queue and a set of hashes ----

  ghost predicate Distinct(hash: Bytes -> nat, recent: seq<Bytes>)
  {
    forall i, j :: 0 <= i < j < |recent| ==> hash(recent[i]) != hash(recent[j])
  }

  ghost predicate Mirrors(hash: Bytes -> nat, seen: set<nat>, recent: seq<Bytes>)
  {
    && (forall i :: 0 <= i < |recent| ==> hash(recent[i]) in seen)
    && (forall x :: x in seen ==> exists i :: 0 <= i < |recent| && hash(recent[i]) == x)
  }

  lemma EvictionRemovesOwnHash(hash: Bytes -> nat, seen: set<nat>, recent: seq<Bytes>)
    requires recent != [] && Distinct(hash, recent) && Mirrors(hash, seen, recent)
    ensures Distinct(hash, recent[1..]) && Mirrors(hash, seen - {hash(recent[0])}, recent[1..])
  {
    var rest := recent[1..];
    assert forall i :: 0 <= i < |rest| ==> rest[i] == recent[i + 1];
    forall x | x in seen - {hash(recent[0])} ensures exists i :: 0 <= i < |rest| && hash(rest[i]) == x {
      var i :| 0 <= i < |recent| && hash(recent[i]) == x;
      assert rest[i - 1] == recent[i];
    }
  }

  lemma PushExtends(hash: Bytes -> nat, seen: set<nat>, recent: seq<Bytes>, nonce: Bytes)
    requires Distinct(hash, recent) && Mirrors(hash, seen, recent) && hash(nonce) !in seen
    ensures Distinct(hash, recent + [nonce]) && Mirrors(hash, seen + {hash(nonce)}, recent + [nonce])
  {
    var more := recent + [nonce];
    forall x | x in seen + {hash(nonce)} ensures exists i :: 0 <= i < |more| && hash(more[i]) == x {
      if x == hash(nonce) {
        assert more[|recent|] == nonce;
      } else {
        var i :| 0 <= i < |recent| && hash(recent[i]) == x;
        assert more[i] == recent[i];
      }
    }
  }

  lemma SeenMeansUnseen(hash: Bytes -> nat, seen: set<nat>, recent: seq<Bytes>, nonce: Bytes)
    requires Mirrors(hash, seen, recent)
    ensures hash(nonce) in seen <==> !Unseen(hash, recent, nonce)
  {
  }

  class ReplayGuard {
    const hash: Bytes -> nat
    var recent: seq<Bytes>
    var seen: set<nat>
    var lastSequence: nat
    var wall: nat

    /** The set holds exactly the hashes of the queue, which are pairwise
        distinct, and the queue is within the cache bound. */
    ghost predicate Valid()
      reads this
    {
      Distinct(hash, recent) && Mirrors(hash, seen, recent) && |recent| <= CACHE
    }

    ghost function Meaning(): Guard
      reads this
    {
      Guard(recent, lastSequence, wall)
    }

    constructor (hash: Bytes -> nat)
      ensures this.hash == hash && Valid() && Meaning() == FRESH_GUARD
    {
      this.hash, recent, seen, lastSequence, wall := hash, [], {}, 0, 0;
    }

    method NoteWallClock(now: nat)
      requires Valid()
      modifies this`wall
      ensures Valid() && Meaning() == old(Meaning()).(wall := now)
    {
      wall := now;
    }

    method Accept(a: Attempt) returns (accepted: bool)
      requires Valid()
      modifies this`recent, this`seen, this`lastSequence
      ensures Valid()
      ensures accepted <==> Acceptable(hash, old(Meaning()), a)
      ensures Meaning() == Accepting(hash, old(Meaning()), a)
    {
      hide Distinct, Mirrors, Unseen;
      SeenMeansUnseen(hash, seen, recent, a.nonce);
      if a.sequence <= lastSequence {
        return false;
      }
      var reference := if wall != 0 then wall else a.now;
      var drift := if a.timestamp > reference then a.timestamp - reference else reference - a.timestamp;
      if drift > WINDOW {
        return false;
      }
      if |a.nonce| != NONCE {
        return false;
      }
      if hash(a.nonce) in seen {
        return false;
      }
      PushExtends(hash, seen, recent, a.nonce);
      recent := recent + [a.nonce];
      seen := seen + {hash(a.nonce)};
      if |recent| > CACHE {
        EvictionRemovesOwnHash(hash, seen, recent);
        seen := seen - {hash(recent[0])};
        recent := recent[1..];
      }
      lastSequence := a.sequence;
      return true;
    }
  }

  // ---- Runs ----

  datatype Op = Note(now: nat) | Try(attempt: Attempt)

  ghost function Apply(hash: Bytes -> nat, g: Guard, op: Op): Guard
  {
    match op
    case Note(now) => g.(wall := now)
    case Try(a) => Accepting(hash, g, a)
  }

  ghost function Run(hash: Bytes -> nat, ops: seq<Op>): Guard
  {
    if ops == [] then FRESH_GUARD else Apply(hash, Run(hash, ops[..|ops| - 1]), ops[|ops| - 1])
  }

  ghost predicate AcceptsAt(hash: Bytes -> nat, ops: seq<Op>, k: nat)
  {
    k < |ops| && ops[k].Try? && Acceptable(hash, Run(hash, ops[..k]), ops[k].attempt)
  }

  /** The attempts accepted so far, oldest first. */
  ghost function Accepted(hash: Bytes -> nat, ops: seq<Op>, n: nat): seq<Attempt>
    requires n <= |ops|
  {
    if n == 0 then []
    else if AcceptsAt(hash, ops, n - 1) then Accepted(hash, ops, n - 1) + [ops[n - 1].attempt]
    else Accepted(hash, ops, n - 1)
  }

  function Nonces(attempts: seq<Attempt>): seq<Bytes>
  {
    seq(|attempts|, i requires 0 <= i < |attempts| => attempts[i].nonce)
  }

  lemma LastOfAppend<T>(s: seq<T>, x: T)
    ensures LastOf(LastOf(s) + [x]) == LastOf(s + [x])
  {
  }

  ghost predicate Tracks(g: Guard, accepted: seq<Attempt>)
  {
    && g.recent == LastOf(Nonces(accepted))
    && g.lastSequence == (if accepted == [] then 0 else accepted[|accepted| - 1].sequence)
    && (forall i, j :: 0 <= i < j < |accepted| ==> accepted[i].sequence < accepted[j].sequence)
    && (forall i :: 0 <= i < |accepted| ==> 0 < accepted[i].sequence)
  }

  lemma NothingAccepted()
    ensures Tracks(FRESH_GUARD, [])
  {
  }

  lemma AcceptKeepsTrack(g: Guard, accepted: seq<Attempt>, a: Attempt)
    requires Tracks(g, accepted) && g.lastSequence < a.sequence
    ensures Tracks(g.(recent := LastOf(g.recent + [a.nonce]), lastSequence := a.sequence), accepted + [a])
  {
    LastOfAppend(Nonces(accepted), a.nonce);
    assert Nonces(accepted + [a]) == Nonces(accepted) + [a.nonce];
  }

  /** In every run the window is the last 256 accepted nonces, and accepted
      sequence numbers strictly increase. */
  lemma {:induction false} WindowIsLastAccepted(hash: Bytes -> nat, ops: seq<Op>, n: nat)
    requires n <= |ops|
    ensures Tracks(Run(hash, ops[..n]), Accepted(hash, ops, n))
  {
    hide LastOf, Nonces, Unseen;
    if n == 0 {
      NothingAccepted();
    } else {
      WindowIsLastAccepted(hash, ops, n - 1);
      assert ops[..n][..n - 1] == ops[..n - 1];
      if AcceptsAt(hash, ops, n - 1) {
        AcceptKeepsTrack(Run(hash, ops[..n - 1]), Accepted(hash, ops, n - 1), ops[n - 1].attempt);
      }
    }
  }

  /** The whole acceptance law over a run's history: a later sequence number
      than everything accepted, a timestamp in the window, and a nonce whose
      hash is not among the last 256 accepted. */
  lemma AcceptedExactly(hash: Bytes -> nat, ops: seq<Op>, k: nat)
    requires k < |ops| && ops[k].Try?
    ensures var a := ops[k].attempt;
            var accepted := Accepted(hash, ops, k);
            var reference := if LastNoted(ops, k) != 0 then LastNoted(ops, k) else a.now;
            AcceptsAt(hash, ops, k) <==>
              && 0 < a.sequence
              && (forall i :: 0 <= i < |accepted| ==> accepted[i].sequence < a.sequence)
              && a.timestamp <= reference + 120_000 && reference <= a.timestamp + 120_000
              && |a.nonce| == 16
              && (forall i :: 0 <= i < |accepted| <= i + 256 ==> hash(accepted[i].nonce) != hash(a.nonce))
  {
    hide LastOf, Nonces, Unseen, Run, Tracks, InWindow, Accepted, LastNoted;
    var a, g, accepted := ops[k].attempt, Run(hash, ops[..k]), Accepted(hash, ops, k);
    WindowIsLastAccepted(hash, ops, k);
    TrackedSequence(g, accepted, a.sequence);
    WallIsLastNoted(hash, ops, k);
    WindowExactly(g.wall, a);
    UnseenExactly(hash, accepted, a.nonce);
  }

  lemma TrackedSequence(g: Guard, accepted: seq<Attempt>, sequence: nat)
    requires Tracks(g, accepted)
    ensures g.recent == LastOf(Nonces(accepted))
    ensures g.lastSequence < sequence <==>
            0 < sequence && forall i :: 0 <= i < |accepted| ==> accepted[i].sequence < sequence
  {
    hide LastOf, Nonces;
  }

  lemma WindowExactly(wall: nat, a: Attempt)
    ensures var reference := if wall != 0 then wall else a.now;
            InWindow(wall, a) <==> a.timestamp <= reference + 120_000 && reference <= a.timestamp + 120_000
  {
  }

  /** The journal clock noted last, or zero. */
  ghost function LastNoted(ops: seq<Op>, n: nat): nat
    requires n <= |ops|
  {
    if n == 0 then 0 else if ops[n - 1].Note? then ops[n - 1].now else LastNoted(ops, n - 1)
  }

  lemma {:induction false} WallIsLastNoted(hash: Bytes -> nat, ops: seq<Op>, n: nat)
    requires n <= |ops|
    ensures Run(hash, ops[..n]).wall == LastNoted(ops, n)
  {
    hide Acceptable, LastOf;
    if n > 0 {
      WallIsLastNoted(hash, ops, n - 1);
      assert ops[..n][..n - 1] == ops[..n - 1];
    }
  }

  lemma UnseenExactly(hash: Bytes -> nat, attempts: seq<Attempt>, nonce: Bytes)
    ensures Unseen(hash, LastOf(Nonces(attempts)), nonce) <==>
            forall i :: 0 <= i < |attempts| <= i + 256 ==> hash(attempts[i].nonce) != hash(nonce)
  {
    var window := LastOf(Nonces(attempts));
    var skipped := |attempts| - |window|;
    assert forall k :: 0 <= k < |window| ==> window[k] == attempts[skipped + k].nonce;
    if Unseen(hash, window, nonce) {
      forall i | 0 <= i < |attempts| <= i + 256 ensures hash(attempts[i].nonce) != hash(nonce) {
        assert window[i - skipped] == attempts[i].nonce;
      }
    }
  }

  lemma RecentIsWindow(hash: Bytes -> nat, ops: seq<Op>, n: nat)
    requires n <= |ops|
    ensures Run(hash, ops[..n]).recent == LastOf(Nonces(Accepted(hash, ops, n)))
  {
    WindowIsLastAccepted(hash, ops, n);
  }

  lemma InWindowOfCache(attempts: seq<Attempt>, i: nat)
    requires i < |attempts| <= i + CACHE
    ensures var window := LastOf(Nonces(attempts));
            exists k :: 0 <= k < |window| && window[k] == attempts[i].nonce
  {
    var window := LastOf(Nonces(attempts));
    assert window[i - (|attempts| - |window|)] == attempts[i].nonce;
  }

  /** No nonce is accepted twice within 256 acceptances. */
  lemma {:induction false} NoReplayInWindow(hash: Bytes -> nat, ops: seq<Op>, n: nat, i: nat, j: nat)
    requires n <= |ops| && i < j < |Accepted(hash, ops, n)| && j - i <= CACHE
    ensures hash(Accepted(hash, ops, n)[i].nonce) != hash(Accepted(hash, ops, n)[j].nonce)
    decreases n
  {
    hide LastOf, Nonces, Run, Tracks;
    if j < |Accepted(hash, ops, n - 1)| {
      NoReplayInWindow(hash, ops, n - 1, i, j);
    } else {
      var before := Accepted(hash, ops, n - 1);
      RecentIsWindow(hash, ops, n - 1);
      InWindowOfCache(before, i);
    }
  }

  // ---- One clock, not both ----

  /** Checking the reference clock alone keeps every timestamp within the live
      clock's window too exactly when the journal's clock is unset, or the live
      clock is not behind it and, beyond the window's length, not ahead of it. */
  lemma BothClocksExactly(wall: nat, now: nat)
    ensures (forall a: Attempt :: a.now == now && InWindow(wall, a) ==> Near(now, a.timestamp))
            <==> wall == 0 || wall <= now <= (if wall < WINDOW then WINDOW else wall)
  {
    if wall != 0 {
      var latest := Attempt(1, [], wall + WINDOW, now);
      var earliest := Attempt(1, [], if wall < WINDOW then 0 else wall - WINDOW, now);
      assert InWindow(wall, latest) && InWindow(wall, earliest);
      assert Near(now, latest.timestamp) && Near(now, earliest.timestamp) ==>
          wall <= now <= if wall < WINDOW then WINDOW else wall;
    }
  }

  /** An attempt stamped 1000000 is accepted at live time 0 once the journal's
      clock reads 1000000. */
  lemma AcceptedOutsideLiveClock(hash: Bytes -> nat, nonce: Bytes)
    requires |nonce| == NONCE
    ensures AcceptsAt(hash, [Note(1_000_000), Try(Attempt(1, nonce, 1_000_000, 0))], 1)
    ensures !Near(0, 1_000_000)
  {
    var ops := [Note(1_000_000), Try(Attempt(1, nonce, 1_000_000, 0))];
    assert ops[..1] == [Note(1_000_000)] && [Note(1_000_000)][..0] == [];
    assert Run(hash, ops[..1]) == FRESH_GUARD.(wall := 1_000_000);
  }
}
