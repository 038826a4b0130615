/** Single-use authorizations across restarts: the burn-on-consume ledger
    (src/decision.cpp), the state store and the restart reconstruction
    (src/state_store.cpp). */
module SingleUse {
  import opened Values
  import opened Binding
  import opened StateImage
  import Admission
  import Resolver
  import Transactions

  /** HMAC under the installation secret and SHA-256, uninterpreted. */
  datatype Crypto = Crypto(hmac: Bytes -> Bytes, sha256: Bytes -> Bytes)

  datatype Facts = Facts(
    actionDigest: Bytes,
    generation: nat,
    cognitionRevision: Bytes,
    profile: nat,
    resolverRegistryRevision: nat,
    evidenceSetDigest: Option<Bytes>,
    resourceScopeDigest: Bytes)

  predicate Authentic(c: Crypto, d: Decision)
  {
    c.hmac(TokenPreimage(d)) == d.token.mac && c.sha256(d.token.mac + d.token.nonce) == d.tokenHash
  }

  predicate InTime(d: Decision, now: nat)
  {
    d.expiresAt == 0 || now <= d.expiresAt
  }

  /** Which facts the decision was taken under still hold, in the order they
      are revalidated; evidence is revalidated only when it is given. */
  function Agreement(d: Decision, facts: Facts): (r: seq<bool>)
    ensures |r| == |STALE|
  {
    [d.actionDigest == facts.actionDigest,
     d.generation == facts.generation,
     d.cognitionRevision == facts.cognitionRevision,
     d.profile == facts.profile,
     d.resolverRegistryRevision == facts.resolverRegistryRevision,
     facts.evidenceSetDigest.Some? ==> d.evidenceSetDigest == facts.evidenceSetDigest.value,
     d.resourceScopeDigest == facts.resourceScopeDigest]
  }

  const STALE: seq<ConsumeOutcome> :=
    [StaleAction, StaleGeneration, StaleCognition, StalePolicy, StaleRegistry, StaleEvidence, StaleScope]

  predicate Fresh(d: Decision, facts: Facts)
  {
    forall i :: 0 <= i < |STALE| ==> Agreement(d, facts)[i]
  }

  /** The first fact that changed. */
  predicate FirstChanged(d: Decision, facts: Facts, i: nat)
  {
    i < |STALE| && !Agreement(d, facts)[i] && forall j :: 0 <= j < i ==> Agreement(d, facts)[j]
  }

  /** Evidence is compared only when it is given. */
  predicate SameEvidence(d: Decision, facts: Facts)
  {
    facts.evidenceSetDigest == None || facts.evidenceSetDigest == Some(d.evidenceSetDigest)
  }

  /** Each outcome of the freshness check by the fields it is about: consumed
      when all seven agree, and otherwise the name of the first, in order, that
      does not. */
  ghost predicate NamesChange(d: Decision, facts: Facts, outcome: ConsumeOutcome)
  {
    var action := d.actionDigest == facts.actionDigest;
    var generation := action && d.generation == facts.generation;
    var cognition := generation && d.cognitionRevision == facts.cognitionRevision;
    var profile := cognition && d.profile == facts.profile;
    var registry := profile && d.resolverRegistryRevision == facts.resolverRegistryRevision;
    var evidence := registry && SameEvidence(d, facts);
    && (outcome == StaleAction <==> d.actionDigest != facts.actionDigest)
    && (outcome == StaleGeneration <==> action && d.generation != facts.generation)
    && (outcome == StaleCognition <==> generation && d.cognitionRevision != facts.cognitionRevision)
    && (outcome == StalePolicy <==> cognition && d.profile != facts.profile)
    && (outcome == StaleRegistry <==> profile && d.resolverRegistryRevision != facts.resolverRegistryRevision)
    && (outcome == StaleEvidence <==> registry && !SameEvidence(d, facts))
    && (outcome == StaleScope <==> evidence && d.resourceScopeDigest != facts.resourceScopeDigest)
    && (outcome == Consumed <==> evidence && d.resourceScopeDigest == facts.resourceScopeDigest)
  }

  lemma Agrees(d: Decision, facts: Facts)
    ensures var agreed := Agreement(d, facts);
            && agreed[0] == (d.actionDigest == facts.actionDigest)
            && agreed[1] == (d.generation == facts.generation)
            && agreed[2] == (d.cognitionRevision == facts.cognitionRevision)
            && agreed[3] == (d.profile == facts.profile)
            && agreed[4] == (d.resolverRegistryRevision == facts.resolverRegistryRevision)
            && agreed[5] == SameEvidence(d, facts)
            && agreed[6] == (d.resourceScopeDigest == facts.resourceScopeDigest)
    ensures Fresh(d, facts) <==>
            && d.actionDigest == facts.actionDigest && d.generation == facts.generation
            && d.cognitionRevision == facts.cognitionRevision && d.profile == facts.profile
            && d.resolverRegistryRevision == facts.resolverRegistryRevision && SameEvidence(d, facts)
            && d.resourceScopeDigest == facts.resourceScopeDigest
  {
  }

  /** Naming the first change by its field is naming it by its position. */
  lemma ChangeByPosition(d: Decision, facts: Facts, outcome: ConsumeOutcome)
    requires outcome.Consumed? || outcome in STALE
    ensures NamesChange(d, facts, outcome) <==>
            && (outcome.Consumed? <==> Fresh(d, facts))
            && forall i: nat :: i < |STALE| ==> (outcome == STALE[i] <==> FirstChanged(d, facts, i))
  {
    Agrees(d, facts);
    hide Agreement, Fresh, SameEvidence;
    assert forall i: nat :: i < |STALE| ==> i in [0, 1, 2, 3, 4, 5, 6];
    var agreed := Agreement(d, facts);
    assert FirstChanged(d, facts, 0) == !agreed[0];
    assert FirstChanged(d, facts, 1) == (agreed[0] && !agreed[1]);
    assert FirstChanged(d, facts, 2) == (agreed[0] && agreed[1] && !agreed[2]);
    assert FirstChanged(d, facts, 3) == (agreed[0] && agreed[1] && agreed[2] && !agreed[3]);
    assert FirstChanged(d, facts, 4) == (agreed[0] && agreed[1] && agreed[2] && agreed[3] && !agreed[4]);
    assert FirstChanged(d, facts, 5) == (agreed[0] && agreed[1] && agreed[2] && agreed[3] && agreed[4] && !agreed[5]);
    assert FirstChanged(d, facts, 6)
        == (agreed[0] && agreed[1] && agreed[2] && agreed[3] && agreed[4] && agreed[5] && !agreed[6]);
    hide FirstChanged;
  }

  /** The freshness check: names the first fact that changed. */
  method Revalidate(d: Decision, facts: Facts) returns (outcome: ConsumeOutcome)
    ensures outcome.Consumed? || outcome in STALE
    ensures NamesChange(d, facts, outcome)
  {
    outcome := Consumed;
    if d.actionDigest != facts.actionDigest {
      outcome := StaleAction;
    } else if d.generation != facts.generation {
      outcome := StaleGeneration;
    } else if d.cognitionRevision != facts.cognitionRevision {
      outcome := StaleCognition;
    } else if d.profile != facts.profile {
      outcome := StalePolicy;
    } else if d.resolverRegistryRevision != facts.resolverRegistryRevision {
      outcome := StaleRegistry;
    } else if facts.evidenceSetDigest.Some? && d.evidenceSetDigest != facts.evidenceSetDigest.value {
      outcome := StaleEvidence;
    } else if d.resourceScopeDigest != facts.resourceScopeDigest {
      outcome := StaleScope;
    }
  }

  function FirstFalse(agreed: seq<bool>, i: nat): (r: nat)
    requires i < |agreed| && exists j :: i <= j < |agreed| && !agreed[j]
    ensures i <= r < |agreed| && !agreed[r] && forall j :: i <= j < r ==> agreed[j]
    decreases |agreed| - i
  {
    if agreed[i] then FirstFalse(agreed, i + 1) else i
  }

  /** What the ledger answers for a decision. */
  function Verdict(c: Crypto, consumed: set<Bytes>, d: Decision, facts: Facts, now: nat): ConsumeOutcome
  {
    if d.tokenHash in consumed then AlreadyConsumed
    else if !Authentic(c, d) then InvalidToken
    else if !InTime(d, now) then Expired
    else if Fresh(d, facts) then Consumed
    else STALE[FirstFalse(Agreement(d, facts), 0)]
  }

  /** Each answer of the ledger by the fields it rests on: a token not spent yet,
      a MAC over everything bound, a token hash of that MAC and the nonce, an
      expiry that is zero or not passed, and then the freshness check. */
  lemma VerdictExactly(c: Crypto, consumed: set<Bytes>, d: Decision, facts: Facts, now: nat)
    ensures var outcome := Verdict(c, consumed, d, facts, now);
            var unspent := d.tokenHash !in consumed;
            var authentic := c.hmac(TokenPreimage(d)) == d.token.mac
                             && c.sha256(d.token.mac + d.token.nonce) == d.tokenHash;
            var inTime := d.expiresAt == 0 || now <= d.expiresAt;
            && (outcome == AlreadyConsumed <==> !unspent)
            && (outcome == InvalidToken <==> unspent && !authentic)
            && (outcome == Expired <==> unspent && authentic && !inTime)
            && (outcome == Consumed || outcome in STALE <==> unspent && authentic && inTime)
            && (unspent && authentic && inTime ==> NamesChange(d, facts, outcome))
  {
    hide TokenPreimage, Agreement, NamesChange;
    var outcome := Verdict(c, consumed, d, facts, now);
    if outcome == Consumed || outcome in STALE {
      ChangeByPosition(d, facts, outcome);
      VerdictByPosition(c, consumed, d, facts, now);
    }
  }

  lemma VerdictByPosition(c: Crypto, consumed: set<Bytes>, d: Decision, facts: Facts, now: nat)
    ensures var outcome := Verdict(c, consumed, d, facts, now);
            d.tokenHash !in consumed && Authentic(c, d) && InTime(d, now) ==>
              && (outcome.Consumed? <==> Fresh(d, facts))
              && forall i: nat :: i < |STALE| ==> (outcome == STALE[i] <==> FirstChanged(d, facts, i))
  {
    hide TokenPreimage, Agreement, Authentic;
  }

  lemma NamesOne(d: Decision, facts: Facts, a: ConsumeOutcome, b: ConsumeOutcome)
    requires (a.Consumed? || a in STALE) && (b.Consumed? || b in STALE)
    requires NamesChange(d, facts, a) && NamesChange(d, facts, b)
    ensures a == b
  {
    hide SameEvidence;
  }

  lemma VerdictNames(c: Crypto, consumed: set<Bytes>, d: Decision, facts: Facts, now: nat)
    ensures var outcome := Verdict(c, consumed, d, facts, now);
            outcome.Consumed? <==> d.tokenHash !in consumed && Authentic(c, d) && InTime(d, now) && Fresh(d, facts)
  {
    hide Authentic;
  }

  class DecisionLedger {
    const crypto: Crypto
    var consumed: set<Bytes>

    constructor (crypto: Crypto)
      ensures this.crypto == crypto && consumed == {}
    {
      this.crypto, consumed := crypto, {};
    }

    /** Whatever it answers, the token is spent afterwards; it answers Consumed
        exactly for an unspent, authentic, unexpired and fresh decision. */
    method Consume(d: Decision, facts: Facts, now: nat) returns (outcome: ConsumeOutcome)
      modifies this
      ensures consumed == old(consumed) + {d.tokenHash}
      ensures outcome == Verdict(crypto, old(consumed), d, facts, now)
      ensures outcome.AlreadyConsumed? <==> d.tokenHash in old(consumed)
      ensures outcome.InvalidToken? <==> d.tokenHash !in old(consumed) && !Authentic(crypto, d)
      ensures outcome.Expired? <==> d.tokenHash !in old(consumed) && Authentic(crypto, d) && !InTime(d, now)
      ensures d.tokenHash !in old(consumed) && Authentic(crypto, d) && InTime(d, now) ==> NamesChange(d, facts, outcome)
      ensures outcome.Consumed? <==>
              && d.tokenHash !in old(consumed) && Authentic(crypto, d) && (d.expiresAt == 0 || now <= d.expiresAt)
              && d.actionDigest == facts.actionDigest && d.generation == facts.generation
              && d.cognitionRevision == facts.cognitionRevision && d.profile == facts.profile
              && d.resolverRegistryRevision == facts.resolverRegistryRevision
              && (facts.evidenceSetDigest.Some? ==> d.evidenceSetDigest == facts.evidenceSetDigest.value)
              && d.resourceScopeDigest == facts.resourceScopeDigest
    {
      hide Agreement, TokenPreimage, Verdict;
      VerdictExactly(crypto, consumed, d, facts, now);
      if d.tokenHash in consumed {
        return AlreadyConsumed;
      }
      var expected := crypto.hmac(TokenPreimage(d));
      if expected != d.token.mac || crypto.sha256(d.token.mac + d.token.nonce) != d.tokenHash {
        consumed := consumed + {d.tokenHash};
        return InvalidToken;
      }
      if d.expiresAt != 0 && now > d.expiresAt {
        consumed := consumed + {d.tokenHash};
        return Expired;
      }
      outcome := Revalidate(d, facts);
      NamesOne(d, facts, outcome, Verdict(crypto, consumed, d, facts, now));
      consumed := consumed + {d.tokenHash};
    }

    method SeedConsumed(token: Bytes)
      modifies this
      ensures consumed == old(consumed) + {token}
    {
      consumed := consumed + {token};
    }
  }

  method SeedConsumedTokens(ledger: DecisionLedger, image: Image)
    modifies ledger
    ensures ledger.consumed == old(ledger.consumed) + HashSet(image)
  {
    for i := 0 to |image.hashes|
      invariant ledger.consumed == old(ledger.consumed) + set h | h in image.hashes[..i]
    {
      ledger.SeedConsumed(image.hashes[i]);
      assert image.hashes[..i + 1] == image.hashes[..i] + [image.hashes[i]];
    }
    assert image.hashes[..|image.hashes|] == image.hashes;
  }

  method RestoreBarriers(barrier: Admission.ReconciliationBarrier, image: Image)
    modifies barrier
    ensures barrier.scopes.Keys == old(barrier.scopes.Keys) + ScopeSet(image)
  {
    for i := 0 to |image.scopes|
      invariant barrier.scopes.Keys == old(barrier.scopes.Keys) + set s | s in image.scopes[..i]
    {
      barrier.RaiseOver(image.scopes[i], 0);
      assert image.scopes[..i + 1] == image.scopes[..i] + [image.scopes[i]];
    }
    assert image.scopes[..|image.scopes|] == image.scopes;
  }

  // ---- Issuing decisions ----

  /** What a decision is bound to besides the transaction itself. */
  datatype Grounds = Grounds(
    id: Bytes,
    nonce: Bytes,
    generation: nat,
    resourceScopeDigest: Bytes,
    resolverRegistryRevision: nat,
    cognitionRevision: Bytes,
    policyDigest: Bytes,
    profile: nat,
    intents: seq<Intent>,
    requirements: seq<Requirement>,
    evidence: seq<Resolver.EvidenceReceipt>)

  function ActionDigest(c: Crypto, action: ObservedAction): Bytes
  {
    c.sha256(Items(ActionItems(action)))
  }

  function Draft(c: Crypto, t: Transactions.Transaction, g: Grounds, now: nat, ttl: nat): Decision
  {
    Decision(g.id, Token([], g.nonce), [], t.id, g.generation, t.action.session, t.action.actor, t.action.capability,
             t.action.operation, t.action.target, g.resourceScopeDigest, now + ttl, ActionDigest(c, t.action),
             c.sha256(Listed(g.intents, IntentItems)), g.cognitionRevision, g.policyDigest,
             c.sha256(Listed(g.requirements, RequirementItems)), c.sha256(Listed(g.evidence, ReceiptItems)),
             g.profile, g.resolverRegistryRevision, None, Transactions.Allow)
  }

  /** Only a transaction the gates allowed is bound; the token is the MAC of
      everything bound and a fresh nonce. */
  function BindAllow(c: Crypto, t: Transactions.Transaction, g: Grounds, now: nat, ttl: nat): Option<Decision>
  {
    if !t.phase.CognitiveAllowed? then None
    else
      var draft := Draft(c, t, g, now, ttl);
      var mac := c.hmac(TokenPreimage(draft));
      Some(draft.(token := Token(mac, g.nonce), tokenHash := c.sha256(mac + g.nonce)))
  }

  /** The facts under which the decision was bound. */
  function FactsOf(c: Crypto, action: ObservedAction, g: Grounds): Facts
  {
    Facts(ActionDigest(c, action), g.generation, g.cognitionRevision, g.profile, g.resolverRegistryRevision,
          Some(c.sha256(Listed(g.evidence, ReceiptItems))), g.resourceScopeDigest)
  }

  /** Binding fails exactly for transactions that were not allowed; a bound
      decision authenticates and, within its lifetime, is fresh under the facts
      it was bound to. */
  lemma BoundDecisionIsSpendable(c: Crypto, t: Transactions.Transaction, g: Grounds, now: nat, ttl: nat, later: nat)
    ensures BindAllow(c, t, g, now, ttl).Some? <==> Transactions.DispositionOf(t).Allow?
    ensures t.phase.CognitiveAllowed? ==>
              var d := BindAllow(c, t, g, now, ttl).value;
              && Authentic(c, d)
              && Fresh(d, FactsOf(c, t.action, g))
              && (InTime(d, later) <==> now + ttl == 0 || later <= now + ttl)
              && d.id == g.id && d.transaction == t.id && d.disposition.Allow? && d.token.nonce == g.nonce
              && d.session == t.action.session && d.actor == t.action.actor && d.capability == t.action.capability
              && d.operation == t.action.operation && d.target == t.action.target
              && d.actionDigest == c.sha256(Items(ActionItems(t.action)))
              && d.generation == g.generation && d.profile == g.profile && d.policyDigest == g.policyDigest
              && d.cognitionRevision == g.cognitionRevision && d.resourceScopeDigest == g.resourceScopeDigest
              && d.resolverRegistryRevision == g.resolverRegistryRevision
  {
    hide Items;
    if t.phase.CognitiveAllowed? {
      var d := BindAllow(c, t, g, now, ttl).value;
      assert TokenPreimage(d) == TokenPreimage(Draft(c, t, g, now, ttl));
    }
  }

  /** A decision bound for one action is fresh for another only if SHA-256 maps
      their two different preimages to one digest. */
  lemma FreshForAnotherActionIsCollision(c: Crypto, t: Transactions.Transaction, g: Grounds, now: nat, ttl: nat,
                                         other: ObservedAction, h: Grounds)
    requires t.phase.CognitiveAllowed? && ActionTyped(t.action) && ActionTyped(other) && other != t.action
    requires Fresh(BindAllow(c, t, g, now, ttl).value, FactsOf(c, other, h))
    ensures Items(ActionItems(t.action)) != Items(ActionItems(other))
    ensures c.sha256(Items(ActionItems(t.action))) == c.sha256(Items(ActionItems(other)))
  {
    hide Items, ActionTyped;
    ActionInjective(t.action, other);
    var d, facts := BindAllow(c, t, g, now, ttl).value, FactsOf(c, other, h);
    assert Agreement(d, facts)[0];
  }

  // ---- Runs with restarts ----

  /** The ledger, the barrier and the store; only the store survives a restart. */
  datatype World = World(consumed: set<Bytes>, scopes: set<u64>, stored: Option<Bytes>)

  datatype Op =
    | ConsumeOp(decision: Decision, facts: Facts, now: nat)
    | RaiseOp(scope: u64)
    | LiftOp(scope: u64)
    | SaveOp
    | RestartOp
    | Elsewhere

  const EMPTY := World({}, {}, None)

  /** What reconstruction from the store yields. */
  function Restored(stored: Option<Bytes>): (set<Bytes>, set<u64>)
  {
    match stored
    case None => ({}, {})
    case Some(bytes) =>
      match Decode(bytes)
      case None => ({}, {})
      case Some(image) => (HashSet(image), ScopeSet(image))
  }

  ghost function Apply(w: World, op: Op): World
  {
    match op
    case ConsumeOp(d, _, _) => w.(consumed := w.consumed + {d.tokenHash})
    case RaiseOp(scope) => w.(scopes := w.scopes + {scope})
    case LiftOp(scope) => w.(scopes := w.scopes - {scope})
    case SaveOp =>
      if WithinCapacity(w.consumed, w.scopes) then w.(stored := Some(Encode(Canonical(w.consumed, w.scopes)))) else w
    case RestartOp =>
      var (consumed, scopes) := Restored(w.stored);
      World(consumed, scopes, w.stored)
    case Elsewhere => w
  }

  ghost function Run(ops: seq<Op>): World
  {
    if ops == [] then EMPTY else Apply(Run(ops[..|ops| - 1]), ops[|ops| - 1])
  }

  /** Token hashes are SHA-256 values. */
  ghost predicate Typed(ops: seq<Op>)
  {
    forall i :: 0 <= i < |ops| && ops[i].ConsumeOp? ==> |ops[i].decision.tokenHash| == HASH_SIZE
  }

  /** A save whose image is within the builder's capacity. */
  ghost predicate SavesAt(ops: seq<Op>, s: nat)
  {
    s < |ops| && ops[s].SaveOp? && WithinCapacity(Run(ops[..s]).consumed, Run(ops[..s]).scopes)
  }

  ghost predicate SavedBetween(ops: seq<Op>, i: nat, n: nat)
  {
    exists s: nat :: i < s < n && SavesAt(ops, s)
  }

  ghost predicate ConsumesAt(ops: seq<Op>, i: nat, hash: Bytes)
  {
    i < |ops| && ops[i].ConsumeOp? && ops[i].decision.tokenHash == hash
  }

  /** The consume at i still counts at n: every restart since found a save
      made after it. */
  ghost predicate Live(ops: seq<Op>, n: nat, i: nat, hash: Bytes)
  {
    && i < n <= |ops|
    && ConsumesAt(ops, i, hash)
    && forall r: nat :: i < r < n && ops[r].RestartOp? ==> SavedBetween(ops, i, r)
  }

  lemma RunStep(ops: seq<Op>, n: nat)
    requires n < |ops|
    ensures Run(ops[..n + 1]) == Apply(Run(ops[..n]), ops[n])
  {
    assert ops[..n + 1][..n] == ops[..n];
  }

  lemma {:induction false} HashesStaySized(ops: seq<Op>, n: nat)
    requires Typed(ops) && n <= |ops|
    ensures TokenHashes(Run(ops[..n]).consumed) && TokenHashes(Restored(Run(ops[..n]).stored).0)
  {
    hide WithinCapacity, Encode, Canonical, Decode;
    if n > 0 {
      HashesStaySized(ops, n - 1);
      RunStep(ops, n - 1);
      var w := Run(ops[..n - 1]);
      if ops[n - 1].SaveOp? && WithinCapacity(w.consumed, w.scopes) {
        SavedStateReadsBack(w.consumed, w.scopes);
      }
    }
  }

  /** What one step does to the live state and to what a restart would see. */
  lemma StepEffect(ops: seq<Op>, n: nat)
    requires Typed(ops) && n < |ops|
    ensures var w, w' := Run(ops[..n]), Run(ops[..n + 1]);
            && Restored(w'.stored) == (if SavesAt(ops, n) then (w.consumed, w.scopes) else Restored(w.stored))
            && (SavesAt(ops, n) ==> ops[n].SaveOp?)
            && (ops[n].ConsumeOp? ==> w'.consumed == w.consumed + {ops[n].decision.tokenHash})
            && (ops[n].RestartOp? ==> (w'.consumed, w'.scopes) == Restored(w.stored))
            && (!ops[n].ConsumeOp? && !ops[n].RestartOp? ==> w'.consumed == w.consumed)
  {
    hide WithinCapacity, Encode, Canonical, Decode;
    RunStep(ops, n);
    HashesStaySized(ops, n);
    var w := Run(ops[..n]);
    if SavesAt(ops, n) {
      SavedStateReadsBack(w.consumed, w.scopes);
    }
  }

  lemma ScopeEffect(ops: seq<Op>, n: nat)
    requires n < |ops|
    ensures var w, w' := Run(ops[..n]), Run(ops[..n + 1]);
            && (ops[n].RaiseOp? ==> w'.scopes == w.scopes + {ops[n].scope})
            && (ops[n].LiftOp? ==> w'.scopes == w.scopes - {ops[n].scope})
            && (!ops[n].RaiseOp? && !ops[n].LiftOp? && !ops[n].RestartOp? ==> w'.scopes == w.scopes)
  {
    hide WithinCapacity, Encode, Canonical, Decode;
    RunStep(ops, n);
  }

  /** A restart brings back the ledger and the barrier exactly as they were at
      the last save. */
  lemma {:induction false} RestartRestoresLastSave(ops: seq<Op>, s: nat, n: nat)
    requires Typed(ops) && s < n <= |ops| && SavesAt(ops, s) && !SavedBetween(ops, s, n)
    ensures Restored(Run(ops[..n]).stored) == (Run(ops[..s]).consumed, Run(ops[..s]).scopes)
  {
    hide Run, Restored, SavesAt;
    StepEffect(ops, n - 1);
    if s < n - 1 {
      assert !SavesAt(ops, n - 1);
      RestartRestoresLastSave(ops, s, n - 1);
    }
  }

  lemma {:induction false} LiveIsSpent(ops: seq<Op>, n: nat, i: nat, hash: Bytes)
    requires Typed(ops) && Live(ops, n, i, hash)
    ensures hash in Run(ops[..n]).consumed
    ensures SavedBetween(ops, i, n) ==> hash in Restored(Run(ops[..n]).stored).0
  {
    hide Run, Restored, SavesAt;
    StepEffect(ops, n - 1);
    if i < n - 1 {
      LiveIsSpent(ops, n - 1, i, hash);
    }
  }

  lemma StartsEmpty(ops: seq<Op>)
    ensures Run(ops[..0]).consumed == {} && Restored(Run(ops[..0]).stored).0 == {}
  {
  }

  lemma LiveExtends(ops: seq<Op>, n: nat, i: nat, hash: Bytes)
    requires Live(ops, n, i, hash) && n < |ops| && (ops[n].RestartOp? ==> SavedBetween(ops, i, n))
    ensures Live(ops, n + 1, i, hash)
  {
  }

  lemma {:induction false} SpentIsLive(ops: seq<Op>, n: nat, hash: Bytes)
    requires Typed(ops) && n <= |ops|
    ensures hash in Run(ops[..n]).consumed ==> exists i: nat :: Live(ops, n, i, hash)
    ensures hash in Restored(Run(ops[..n]).stored).0 ==>
              exists i: nat :: Live(ops, n, i, hash) && SavedBetween(ops, i, n)
  {
    hide SavesAt, Run, Restored;
    if n == 0 {
      StartsEmpty(ops);
    } else {
      var m := n - 1;
      SpentIsLive(ops, m, hash);
      StepEffect(ops, m);
      var w := Run(ops[..m]);
      if hash in Restored(w.stored).0 {
        var i: nat :| Live(ops, m, i, hash) && SavedBetween(ops, i, m);
        LiveExtends(ops, m, i, hash);
        assert SavedBetween(ops, i, n);
      }
      if hash in w.consumed && !ops[m].RestartOp? {
        var i: nat :| Live(ops, m, i, hash);
        LiveExtends(ops, m, i, hash);
        assert SavesAt(ops, m) ==> SavedBetween(ops, i, n);
      }
      if ConsumesAt(ops, m, hash) {
        assert Live(ops, n, m, hash);
      }
    }
  }

  // ---- Barriers across restarts ----

  /** The effect of step i is still part of the state at n: every restart since
      found a save made after it. */
  ghost predicate Survives(ops: seq<Op>, n: nat, i: nat)
  {
    i < n <= |ops| && forall r: nat :: i < r < n && ops[r].RestartOp? ==> SavedBetween(ops, i, r)
  }

  ghost predicate LiftsAt(ops: seq<Op>, l: nat, scope: u64)
  {
    l < |ops| && ops[l].LiftOp? && ops[l].scope == scope
  }

  /** A raise of the scope at i survives, and no surviving lift came after it. */
  ghost predicate RaisedAt(ops: seq<Op>, n: nat, i: nat, scope: u64)
  {
    && Survives(ops, n, i) && ops[i].RaiseOp? && ops[i].scope == scope
    && forall l: nat :: i < l < n && LiftsAt(ops, l, scope) ==> !Survives(ops, n, l)
  }

  /** The same for what a restart at n would restore. */
  ghost predicate RaisedInStore(ops: seq<Op>, n: nat, i: nat, scope: u64)
  {
    && Survives(ops, n, i) && SavedBetween(ops, i, n) && ops[i].RaiseOp? && ops[i].scope == scope
    && forall l: nat :: i < l < n && LiftsAt(ops, l, scope) ==> !(Survives(ops, n, l) && SavedBetween(ops, l, n))
  }

  lemma SurvivesStep(ops: seq<Op>, m: nat, i: nat)
    requires m < |ops| && i <= m
    ensures i < m ==> (Survives(ops, m + 1, i) <==> Survives(ops, m, i) && (ops[m].RestartOp? ==> SavedBetween(ops, i, m)))
    ensures Survives(ops, m + 1, m) && !SavedBetween(ops, m, m + 1)
    ensures i < m ==> (SavedBetween(ops, i, m + 1) <==> SavedBetween(ops, i, m) || SavesAt(ops, m))
  {
    hide SavesAt;
    if i < m && SavesAt(ops, m) {
      assert i < m < m + 1 && SavesAt(ops, m);
    }
    if i < m && Survives(ops, m, i) && (ops[m].RestartOp? ==> SavedBetween(ops, i, m)) {
      forall r: nat | i < r < m + 1 && ops[r].RestartOp? ensures SavedBetween(ops, i, r) {
      }
    }
  }

  ghost predicate Raised(ops: seq<Op>, n: nat, scope: u64)
  {
    exists i: nat :: RaisedAt(ops, n, i, scope)
  }

  ghost predicate RaisedStored(ops: seq<Op>, n: nat, scope: u64)
  {
    exists i: nat :: RaisedInStore(ops, n, i, scope)
  }

  /** How "raised" moves over one step, for the live state. */
  lemma RaisedStep(ops: seq<Op>, m: nat, scope: u64)
    requires m < |ops|
    ensures Raised(ops, m + 1, scope) <==>
            if ops[m].RaiseOp? && ops[m].scope == scope then true
            else if LiftsAt(ops, m, scope) then false
            else if ops[m].RestartOp? then RaisedStored(ops, m, scope)
            else Raised(ops, m, scope)
  {
    hide Survives, SavedBetween;
    var n := m + 1;
    forall i: nat | i <= m
      ensures i < m ==> (Survives(ops, n, i) <==> Survives(ops, m, i) && (ops[m].RestartOp? ==> SavedBetween(ops, i, m)))
      ensures Survives(ops, n, m)
    {
      SurvivesStep(ops, m, i);
    }
    SurvivesIsEarlier(ops, n);
    if ops[m].RaiseOp? && ops[m].scope == scope {
      assert RaisedAt(ops, n, m, scope);
    } else if !LiftsAt(ops, m, scope) {
      forall i: nat | i < m
        ensures RaisedAt(ops, n, i, scope) <==>
                if ops[m].RestartOp? then RaisedInStore(ops, m, i, scope) else RaisedAt(ops, m, i, scope)
      {
        RaisedStill(ops, m, i, scope);
      }
      SurvivesIsEarlier(ops, m);
      assert !RaisedAt(ops, n, m, scope);
    }
  }

  lemma SurvivesIsEarlier(ops: seq<Op>, n: nat)
    ensures forall i: nat :: Survives(ops, n, i) ==> i < n
  {
  }

  lemma RaisedStill(ops: seq<Op>, m: nat, i: nat, scope: u64)
    requires m < |ops| && i < m && !LiftsAt(ops, m, scope)
    ensures RaisedAt(ops, m + 1, i, scope) <==>
            if ops[m].RestartOp? then RaisedInStore(ops, m, i, scope) else RaisedAt(ops, m, i, scope)
  {
    hide Survives, SavedBetween;
    forall l: nat | l < m
      ensures Survives(ops, m + 1, l) <==> Survives(ops, m, l) && (ops[m].RestartOp? ==> SavedBetween(ops, l, m))
    {
      SurvivesStep(ops, m, l);
    }
  }

  /** And for the stored state. */
  lemma StoredStep(ops: seq<Op>, m: nat, scope: u64)
    requires m < |ops|
    ensures RaisedStored(ops, m + 1, scope) <==>
            if SavesAt(ops, m) then Raised(ops, m, scope)
            else RaisedStored(ops, m, scope)
  {
    hide Survives, SavedBetween, SavesAt;
    var n := m + 1;
    forall i: nat | i < m
      ensures RaisedInStore(ops, n, i, scope) <==>
              if SavesAt(ops, m) then RaisedAt(ops, m, i, scope) else RaisedInStore(ops, m, i, scope)
    {
      StoredStill(ops, m, i, scope);
    }
    SurvivesStep(ops, m, m);
    SurvivesIsEarlier(ops, m);
    SurvivesIsEarlier(ops, n);
    assert !RaisedInStore(ops, n, m, scope);
  }

  lemma StoredStill(ops: seq<Op>, m: nat, i: nat, scope: u64)
    requires m < |ops| && i < m
    ensures RaisedInStore(ops, m + 1, i, scope) <==>
            if SavesAt(ops, m) then RaisedAt(ops, m, i, scope) else RaisedInStore(ops, m, i, scope)
  {
    hide Survives, SavedBetween;
    SurvivesStep(ops, m, m);
    forall l: nat | l < m
      ensures Survives(ops, m + 1, l) && SavedBetween(ops, l, m + 1) <==>
              Survives(ops, m, l) && (SavedBetween(ops, l, m) || SavesAt(ops, m))
    {
      SurvivesStep(ops, m, l);
    }
  }

  /** Over any history of raises, lifts, saves and restarts, a scope is barred
      exactly when a raise of it survives every restart since and no later lift
      of it does; and so for what a restart would restore. */
  lemma {:induction false} BarredExactly(ops: seq<Op>, n: nat, scope: u64)
    requires Typed(ops) && n <= |ops|
    ensures scope in Run(ops[..n]).scopes <==> Raised(ops, n, scope)
    ensures scope in Restored(Run(ops[..n]).stored).1 <==> RaisedStored(ops, n, scope)
  {
    hide Run, Restored, SavesAt, Raised, RaisedStored;
    if n == 0 {
      NothingRaised(ops, scope);
    } else {
      var m := n - 1;
      BarredExactly(ops, m, scope);
      StepEffect(ops, m);
      ScopeEffect(ops, m);
      RaisedStep(ops, m, scope);
      StoredStep(ops, m, scope);
    }
  }

  lemma NothingRaised(ops: seq<Op>, scope: u64)
    ensures scope !in Run(ops[..0]).scopes && scope !in Restored(Run(ops[..0]).stored).1
    ensures !Raised(ops, 0, scope) && !RaisedStored(ops, 0, scope)
  {
  }

  // ---- Single use ----

  /** What the ledger answers at position k of a run. */
  ghost predicate AnswersConsumed(c: Crypto, ops: seq<Op>, k: nat)
  {
    && k < |ops| && ops[k].ConsumeOp?
    && Verdict(c, Run(ops[..k]).consumed, ops[k].decision, ops[k].facts, ops[k].now).Consumed?
  }

  /** Over any history a token is spent exactly when some earlier attempt to
      consume it, whatever it answered, was saved before every restart since. */
  lemma SpentExactlyWhenSaved(ops: seq<Op>, n: nat, hash: Bytes)
    requires Typed(ops) && n <= |ops|
    ensures hash in Run(ops[..n]).consumed <==> exists i: nat :: Live(ops, n, i, hash)
  {
    SpentIsLive(ops, n, hash);
    if i: nat :| Live(ops, n, i, hash) {
      LiveIsSpent(ops, n, i, hash);
    }
  }

  /** A token can be consumed twice only across a restart that no save since
      the first consumption precedes. */
  lemma ConsumedTwiceOnlyUnsaved(c: Crypto, ops: seq<Op>, j: nat, k: nat)
    requires Typed(ops) && j < k && AnswersConsumed(c, ops, j) && AnswersConsumed(c, ops, k)
    requires ops[j].decision.tokenHash == ops[k].decision.tokenHash
    ensures exists r: nat :: j < r < k && ops[r].RestartOp? && !SavedBetween(ops, j, r)
  {
    hide Run, Live;
    var hash := ops[j].decision.tokenHash;
    if forall r: nat :: j < r < k && ops[r].RestartOp? ==> SavedBetween(ops, j, r) {
      StillLive(ops, k, j, hash);
      LiveIsSpent(ops, k, j, hash);
      VerdictNames(c, Run(ops[..k]).consumed, ops[k].decision, ops[k].facts, ops[k].now);
    }
  }

  lemma StillLive(ops: seq<Op>, k: nat, j: nat, hash: Bytes)
    requires j < k <= |ops| && ConsumesAt(ops, j, hash)
    requires forall r: nat :: j < r < k && ops[r].RestartOp? ==> SavedBetween(ops, j, r)
    ensures Live(ops, k, j, hash)
  {
  }

  /** When every restart follows a save made after the last consume, each token
      is consumed at most once over the whole run. */
  lemma SingleUseAcrossRestarts(c: Crypto, ops: seq<Op>)
    requires Typed(ops)
    requires forall j: nat, r: nat :: j < r < |ops| && ops[j].ConsumeOp? && ops[r].RestartOp? ==> SavedBetween(ops, j, r)
    ensures forall j: nat, k: nat :: j < k && AnswersConsumed(c, ops, j) && AnswersConsumed(c, ops, k) ==>
              ops[j].decision.tokenHash != ops[k].decision.tokenHash
  {
    forall j: nat, k: nat | j < k && AnswersConsumed(c, ops, j) && AnswersConsumed(c, ops, k)
      ensures ops[j].decision.tokenHash != ops[k].decision.tokenHash
    {
      if ops[j].decision.tokenHash == ops[k].decision.tokenHash {
        ConsumedTwiceOnlyUnsaved(c, ops, j, k);
      }
    }
  }

  /** Without that save the guarantee fails for every authentic decision: a
      restart forgets the consumption and the token is accepted again. */
  lemma UnsavedRestartForgets(c: Crypto, d: Decision, facts: Facts, now: nat)
    requires Authentic(c, d) && InTime(d, now) && Fresh(d, facts)
    ensures var ops := [ConsumeOp(d, facts, now), RestartOp, ConsumeOp(d, facts, now)];
            AnswersConsumed(c, ops, 0) && AnswersConsumed(c, ops, 2)
  {
    var op := ConsumeOp(d, facts, now);
    var ops := [op, RestartOp, op];
    assert ops[..0] == [] && ops[..1] == [op] && ops[..2] == [op, RestartOp];
    assert [op, RestartOp][..1] == [op] && [op][..0] == [];
    assert Run([op]).stored == None;
    VerdictNames(c, {}, d, facts, now);
  }
}
