/** Accepted resolver bindings, typed evidence receipts and activation
    receipts (src/resolver.cpp, src/port/activation.cpp). */
module Resolver {
  import opened Values
  import opened Requirements

  datatype Binding = Binding(
    kind: nat,
    resolverType: nat,
    version: nat,
    view: Bytes,
    name: Bytes,
    resolverVersion: nat,
    acceptedEvidence: nat)

  datatype EvidenceReceipt = EvidenceReceipt(
    id: nat,
    requirement: Identity,
    name: Bytes,
    version: nat,
    resolverType: nat,
    build: Bytes,
    sourceRevision: Bytes,
    sourcePath: Bytes,
    evidenceType: nat,
    subject: Bytes,
    source: Bytes,
    contentDigest: Bytes,
    issuedAt: nat,
    expiresAt: nat,
    policyDigest: Bytes,
    generation: nat,
    reusable: bool)

  datatype Rejection =
    | NoRejection
    | WrongRequirement
    | WrongResolverType
    | WrongVersion
    | WrongEvidenceType
    | WrongGeneration
    | WrongPolicy
    | Expired
    | BadDigest
    | BadSource

  /** The only cognition view the core asks for. */
  const DEFAULT_VIEW: Bytes := Ascii("default")

  predicate Offers(binding: Binding, kind: nat)
  {
    binding.kind == kind && binding.view == DEFAULT_VIEW
  }

  /** Exactly one accepted binding, or none: ambiguity is fail-closed. */
  ghost predicate UniqueOffer(bindings: seq<Binding>, kind: nat, i: nat)
  {
    && i < |bindings|
    && Offers(bindings[i], kind)
    && forall j :: 0 <= j < |bindings| && Offers(bindings[j], kind) ==> j == i
  }

  ghost function BindingFor(bindings: seq<Binding>, kind: nat): (r: Option<Binding>)
  {
    if exists i: nat :: UniqueOffer(bindings, kind, i) then
      var i: nat :| UniqueOffer(bindings, kind, i);
      Some(bindings[i])
    else None
  }

  method FindBinding(bindings: seq<Binding>, kind: nat) returns (r: Option<Binding>)
    ensures r == BindingFor(bindings, kind)
  {
    var found: seq<nat> := [];
    for i := 0 to |bindings|
      invariant forall k :: 0 <= k < |found| ==> found[k] < i && Offers(bindings[found[k]], kind)
      invariant forall k, l :: 0 <= k < l < |found| ==> found[k] < found[l]
      invariant forall j :: 0 <= j < i && Offers(bindings[j], kind) ==> j in found
    {
      if Offers(bindings[i], kind) {
        found := found + [i];
      }
    }
    if |found| != 1 {
      if |found| >= 2 {
        assert Offers(bindings[found[0]], kind) && Offers(bindings[found[1]], kind);
      }
      return None;
    }
    assert UniqueOffer(bindings, kind, found[0]);
    return Some(bindings[found[0]]);
  }

  ghost predicate ExpiredAt(expiresAt: nat, now: nat)
  {
    expiresAt != 0 && now != 0 && now > expiresAt
  }

  /** What a receipt must agree on to satisfy a requirement. */
  ghost predicate Acceptable(receipt: EvidenceReceipt, binding: Binding, requirement: Identity,
                             generation: nat, policyDigest: Bytes, now: nat)
  {
    && receipt.requirement == requirement
    && receipt.resolverType == binding.resolverType
    && receipt.version == binding.version == binding.resolverVersion && receipt.name == binding.name
    && receipt.evidenceType == binding.acceptedEvidence
    && receipt.generation == generation
    && receipt.policyDigest == policyDigest
    && !ExpiredAt(receipt.expiresAt, now)
    && (exists i :: 0 <= i < |receipt.contentDigest| && receipt.contentDigest[i] != 0)
    && receipt.sourceRevision != []
    && receipt.subject != []
  }

  method ValidateReceipt(receipt: EvidenceReceipt, binding: Binding, requirement: Identity,
                         generation: nat, policyDigest: Bytes, now: nat) returns (r: Rejection)
    ensures r.NoRejection? <==> Acceptable(receipt, binding, requirement, generation, policyDigest, now)
  {
    if receipt.requirement != requirement { return WrongRequirement; }
    if receipt.resolverType != binding.resolverType { return WrongResolverType; }
    if receipt.version != binding.version
       || !(receipt.name == binding.name && receipt.version == binding.resolverVersion) {
      return WrongVersion;
    }
    if receipt.evidenceType != binding.acceptedEvidence { return WrongEvidenceType; }
    if receipt.generation != generation { return WrongGeneration; }
    if receipt.policyDigest != policyDigest { return WrongPolicy; }
    if receipt.expiresAt != 0 && now != 0 && now > receipt.expiresAt { return Expired; }
    var any := false;
    for i := 0 to |receipt.contentDigest|
      invariant any <==> exists j :: 0 <= j < i && receipt.contentDigest[j] != 0
    {
      any := any || receipt.contentDigest[i] != 0;
    }
    if !any { return BadDigest; }
    if receipt.sourceRevision == [] || receipt.subject == [] { return BadSource; }
    return NoRejection;
  }

  // ---- Activation receipts ----

  datatype ActivationReceipt = ActivationReceipt(
    subject: Bytes,
    revision: Bytes,
    injectedDigest: Bytes,
    evidenceType: nat,
    generation: nat,
    actorToken: nat,
    sessionToken: nat,
    event: nat,
    expiresAt: nat)

  /** EvidenceType::CanonicalRecord, the only type accepted at activation. */
  const CANONICAL_RECORD: nat := 1

  predicate Complete(a: ActivationReceipt)
  {
    a.subject != [] && a.revision != [] && a.actorToken != 0 && a.sessionToken != 0 && a.event != 0
  }

  predicate ValidFor(a: ActivationReceipt, requirement: Identity, revision: Bytes, digest: Bytes,
                     generation: nat, now: nat)
  {
    && Complete(a)
    && a.subject == requirement.subject
    && a.evidenceType == CANONICAL_RECORD
    && a.revision == revision
    && a.injectedDigest == digest
    && a.generation == generation
    && !(a.expiresAt != 0 && now != 0 && now > a.expiresAt)
  }
}
