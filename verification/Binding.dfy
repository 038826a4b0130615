/** The canonical preimages a decision token is computed over
    (src/decision.cpp): every encoder only appends, so two preimages agree
    exactly when the encoded fields do. */
module Binding {
  import opened Values
  import opened LittleEndian
  import opened Requirements
  import Resolver
  import Transactions

  // ---- Encoded items ----

  /** The three representations a preimage is built from: a fixed-width
      integer, a length-prefixed text, and raw octets. */
  datatype Item = Word(width: nat, value: nat) | Text(text: Bytes) | Raw(bytes: Bytes)

  function ItemBytes(item: Item): Bytes
  {
    match item
    case Word(width, value) => Le(value, width)
    case Text(text) => Le(|text|, 8) + text
    case Raw(bytes) => bytes
  }

  function Items(items: seq<Item>): Bytes
  {
    if items == [] then [] else ItemBytes(items[0]) + Items(items[1..])
  }

  /** The value is within the width its source type has. */
  ghost predicate Fits(item: Item)
  {
    match item
    case Word(width, value) => value < Pow256(width)
    case Text(text) => |text| < Pow256(8)
    case Raw(_) => true
  }

  ghost predicate SameShape(a: Item, b: Item)
  {
    match a
    case Word(width, _) => b.Word? && b.width == width
    case Text(_) => b.Text?
    case Raw(bytes) => b.Raw? && |b.bytes| == |bytes|
  }

  ghost predicate Aligned(a: seq<Item>, b: seq<Item>)
  {
    && |a| == |b|
    && forall i :: 0 <= i < |a| ==> Fits(a[i]) && Fits(b[i]) && SameShape(a[i], b[i])
  }

  lemma SplitEqual(a: Bytes, b: Bytes, r: Bytes, s: Bytes)
    requires |a| == |b| && a + r == b + s
    ensures a == b && r == s
  {
    assert a == (a + r)[..|a|] && b == (b + s)[..|b|];
    assert r == (a + r)[|a|..] && s == (b + s)[|b|..];
  }

  lemma Reassociate(a: Bytes, b: Bytes, c: Bytes)
    ensures (a + b) + c == a + (b + c)
  {
  }

  lemma ItemPrefix(a: Item, b: Item, r: Bytes, s: Bytes)
    requires Fits(a) && Fits(b) && SameShape(a, b)
    requires ItemBytes(a) + r == ItemBytes(b) + s
    ensures a == b && r == s
  {
    hide Le, Value, Pow256;
    match a
    case Word(width, value) =>
      SplitEqual(ItemBytes(a), ItemBytes(b), r, s);
      ValueOfLe(value, width);
      ValueOfLe(b.value, width);
    case Text(text) =>
      Reassociate(Le(|text|, 8), text, r);
      Reassociate(Le(|b.text|, 8), b.text, s);
      SplitEqual(Le(|text|, 8), Le(|b.text|, 8), text + r, b.text + s);
      ValueOfLe(|text|, 8);
      ValueOfLe(|b.text|, 8);
      SplitEqual(text, b.text, r, s);
    case Raw(bytes) =>
      SplitEqual(bytes, b.bytes, r, s);
  }

  /** Aligned encodings are self-delimiting. */
  lemma {:induction false} ItemsPrefix(a: seq<Item>, b: seq<Item>, r: Bytes, s: Bytes)
    requires Aligned(a, b)
    requires Items(a) + r == Items(b) + s
    ensures a == b && r == s
  {
    hide Le, Value, Pow256, ItemBytes, Fits, SameShape;
    if a == [] {
      assert Items(a) + r == r && Items(b) + s == s;
    } else {
      Reassociate(ItemBytes(a[0]), Items(a[1..]), r);
      Reassociate(ItemBytes(b[0]), Items(b[1..]), s);
      ItemPrefix(a[0], b[0], Items(a[1..]) + r, Items(b[1..]) + s);
      ItemsPrefix(a[1..], b[1..], r, s);
      assert a == [a[0]] + a[1..] && b == [b[0]] + b[1..];
    }
  }

  lemma {:induction false} ItemsConcat(a: seq<Item>, b: seq<Item>)
    ensures Items(a + b) == Items(a) + Items(b)
  {
    hide ItemBytes;
    if a == [] {
      assert a + b == b;
    } else {
      ItemsConcat(a[1..], b);
      assert (a + b)[1..] == a[1..] + b && (a + b)[0] == a[0];
      Reassociate(ItemBytes(a[0]), Items(a[1..]), Items(b));
    }
  }

  // ---- What is encoded ----

  datatype Token = Token(mac: Bytes, nonce: Bytes)

  datatype Decision = Decision(
    id: Bytes,
    token: Token,
    tokenHash: Bytes,
    transaction: nat,
    generation: nat,
    session: nat,
    actor: nat,
    capability: nat,
    operation: Bytes,
    target: Bytes,
    resourceScopeDigest: Bytes,
    expiresAt: nat,
    actionDigest: Bytes,
    intentSetDigest: Bytes,
    cognitionRevision: Bytes,
    policyDigest: Bytes,
    requirementSetDigest: Bytes,
    evidenceSetDigest: Bytes,
    profile: nat,
    resolverRegistryRevision: nat,
    classifierContract: Option<nat>,
    disposition: Transactions.Disposition)

  datatype ConsumeOutcome =
    | Consumed
    | AlreadyConsumed
    | StaleAction
    | StaleGeneration
    | StaleCognition
    | StalePolicy
    | StaleRegistry
    | StaleEvidence
    | StaleScope
    | Expired
    | InvalidToken

  /** One prepared requirement as the packet holds it. */
  datatype Requirement = Requirement(identity: Identity, status: nat, evidence: seq<Bytes>)

  datatype Intent = Intent(
    basis: nat,
    kind: nat,
    claimClass: nat,
    tool: Bytes,
    operation: Bytes,
    concepts: seq<Bytes>,
    files: seq<Bytes>,
    priorFailure: Option<Bytes>)

  function BoundaryCode(boundary: Boundary): nat
  {
    match boundary
    case BeforeJudgment => 0
    case BeforeExecution => 1
  }

  function Flag(b: bool): nat
  {
    if b then 1 else 0
  }

  function ActionItems(a: ObservedAction): seq<Item>
  {
    [Word(8, a.adapter), Word(8, a.session), Word(8, a.actor), Word(8, a.capability),
     Text(a.operation), Text(a.target), Raw(a.argumentDigest)]
  }

  function BindingItems(d: Decision): seq<Item>
  {
    [Word(4, 1), Raw(d.id), Word(8, d.transaction), Word(8, d.generation), Word(8, d.session), Word(8, d.actor),
     Word(8, d.capability), Text(d.operation), Text(d.target), Raw(d.resourceScopeDigest), Word(8, d.expiresAt),
     Raw(d.actionDigest), Raw(d.intentSetDigest), Text(d.cognitionRevision), Raw(d.policyDigest),
     Raw(d.requirementSetDigest), Raw(d.evidenceSetDigest), Word(8, d.profile), Word(8, d.resolverRegistryRevision)]
  }

  function Texts(texts: seq<Bytes>): seq<Item>
  {
    seq(|texts|, i requires 0 <= i < |texts| => Text(texts[i]))
  }

  function RequirementHead(q: Requirement): seq<Item>
  {
    [Word(4, q.identity.kind), Text(q.identity.subject), Word(4, BoundaryCode(q.identity.boundary)),
     Word(4, Flag(q.identity.blocking)), Word(4, q.status), Word(8, |q.evidence|)]
  }

  function RequirementItems(q: Requirement): seq<Item>
  {
    RequirementHead(q) + Texts(q.evidence)
  }

  function IntentHead(m: Intent): seq<Item>
  {
    [Word(4, m.basis), Word(4, m.kind), Word(4, m.claimClass), Text(m.tool), Text(m.operation), Word(8, |m.concepts|)]
  }

  /** Only whether there was a prior failure is bound, not which. */
  function PriorFailure(m: Intent): seq<Item>
  {
    [Word(4, Flag(m.priorFailure.Some?))]
  }

  function IntentItems(m: Intent): seq<Item>
  {
    IntentHead(m) + (Texts(m.concepts) + ([Word(8, |m.files|)] + (Texts(m.files) + PriorFailure(m))))
  }

  function ReceiptItems(e: Resolver.EvidenceReceipt): seq<Item>
  {
    [Word(8, e.id), Word(4, e.requirement.kind), Text(e.requirement.subject),
     Word(4, BoundaryCode(e.requirement.boundary)), Word(4, Flag(e.requirement.blocking)), Word(8, e.resolverType),
     Text(e.name), Word(8, e.version), Text(e.subject), Text(e.source), Text(e.sourceRevision), Text(e.sourcePath),
     Text(e.build), Raw(e.contentDigest), Word(8, e.issuedAt), Word(8, e.expiresAt), Raw(e.policyDigest),
     Word(8, e.generation), Word(4, Flag(e.reusable))]
  }

  /** A counted list of records, each encoded by `items`. */
  function Listed<T>(records: seq<T>, items: T -> seq<Item>): Bytes
  {
    Le(|records|, 4) + Each(records, items)
  }

  function Each<T>(records: seq<T>, items: T -> seq<Item>): Bytes
  {
    if records == [] then [] else Items(items(records[0])) + Each(records[1..], items)
  }

  // ---- Appending to a builder ----

  class ByteBuilder {
    var bytes: Bytes

    constructor ()
      ensures bytes == []
    {
      bytes := [];
    }

    method AppendLe(value: nat, width: nat)
      modifies this
      ensures bytes == old(bytes) + Le(value, width)
    {
      bytes := bytes + Le(value, width);
    }

    method Append(more: Bytes)
      modifies this
      ensures bytes == old(bytes) + more
    {
      bytes := bytes + more;
    }

    method PutBytes(text: Bytes)
      modifies this
      ensures bytes == old(bytes) + ItemBytes(Text(text))
    {
      hide Le;
      AppendLe(|text|, 8);
      Append(text);
      assert bytes == old(bytes) + (Le(|text|, 8) + text);
    }

    /** The fixed part of a record, item by item. */
    method PutItems(items: seq<Item>)
      modifies this
      ensures bytes == old(bytes) + Items(items)
    {
      hide Le;
      for i := 0 to |items|
        invariant bytes + Items(items[i..]) == old(bytes) + Items(items)
      {
        ghost var before := bytes;
        match items[i] {
          case Word(width, value) => AppendLe(value, width);
          case Text(text) => PutBytes(text);
          case Raw(raw) => Append(raw);
        }
        assert items[i..][1..] == items[i + 1..];
        Reassociate(before, ItemBytes(items[i]), Items(items[i + 1..]));
      }
    }

    method PutAction(a: ObservedAction)
      modifies this
      ensures bytes == old(bytes) + Items(ActionItems(a))
    {
      PutItems(ActionItems(a));
    }

    method PutBinding(d: Decision)
      modifies this
      ensures bytes == old(bytes) + Items(BindingItems(d))
    {
      PutItems(BindingItems(d));
    }

    method PutRequirements(requirements: seq<Requirement>)
      modifies this
      ensures bytes == old(bytes) + Listed(requirements, RequirementItems)
    {
      PutEach(requirements, RequirementItems);
    }

    method PutEvidence(receipts: seq<Resolver.EvidenceReceipt>)
      modifies this
      ensures bytes == old(bytes) + Listed(receipts, ReceiptItems)
    {
      PutEach(receipts, ReceiptItems);
    }

    method PutIntents(intents: seq<Intent>)
      modifies this
      ensures bytes == old(bytes) + Listed(intents, IntentItems)
    {
      PutEach(intents, IntentItems);
    }

    method PutEach<T>(records: seq<T>, items: T -> seq<Item>)
      modifies this
      ensures bytes == old(bytes) + Listed(records, items)
    {
      hide Le, Items;
      AppendLe(|records|, 4);
      Reassociate(old(bytes), Le(|records|, 4), Each(records, items));
      assert records[0..] == records;
      for i := 0 to |records|
        invariant bytes + Each(records[i..], items) == old(bytes) + Listed(records, items)
      {
        assert records[i..][1..] == records[i + 1..];
        Reassociate(bytes, Items(items(records[i])), Each(records[i + 1..], items));
        PutItems(items(records[i]));
      }
    }
  }

  // ---- Injectivity ----

  const DIGEST_SIZE: nat := 32
  const ID_SIZE: nat := 16
  const NONCE_SIZE: nat := 16

  ghost predicate AllFit(items: seq<Item>)
  {
    forall i :: 0 <= i < |items| ==> Fits(items[i])
  }

  /** Field values within the widths of the source's types. */
  ghost predicate ActionTyped(a: ObservedAction)
  {
    AllFit(ActionItems(a)) && |a.argumentDigest| == DIGEST_SIZE
  }

  ghost predicate DecisionTyped(d: Decision)
  {
    && AllFit(BindingItems(d))
    && |d.id| == ID_SIZE && |d.token.nonce| == NONCE_SIZE
    && |d.resourceScopeDigest| == |d.actionDigest| == |d.intentSetDigest| == DIGEST_SIZE
    && |d.policyDigest| == |d.requirementSetDigest| == |d.evidenceSetDigest| == DIGEST_SIZE
  }

  ghost predicate ReceiptTyped(e: Resolver.EvidenceReceipt)
  {
    AllFit(ReceiptItems(e)) && |e.contentDigest| == |e.policyDigest| == DIGEST_SIZE
  }

  lemma AlignedEqual(a: seq<Item>, b: seq<Item>)
    requires AllFit(a) && AllFit(b) && |a| == |b|
    requires forall i :: 0 <= i < |a| ==> SameShape(a[i], b[i])
    ensures Items(a) == Items(b) <==> a == b
  {
    if Items(a) == Items(b) {
      ItemsPrefix(a, b, [], []);
    }
  }

  /** Actions differing in any field have different preimages. */
  lemma ActionInjective(a: ObservedAction, b: ObservedAction)
    requires ActionTyped(a) && ActionTyped(b)
    ensures Items(ActionItems(a)) == Items(ActionItems(b)) <==> a == b
  {
    hide Items, AllFit;
    var x, y := ActionItems(a), ActionItems(b);
    AlignedEqual(x, y);
    if x == y {
      assert x[0] == y[0] && x[1] == y[1] && x[2] == y[2] && x[3] == y[3];
      assert x[4] == y[4] && x[5] == y[5] && x[6] == y[6];
    }
  }

  /** What the token's MAC is computed over. */
  function TokenPreimage(d: Decision): Bytes
  {
    Items(BindingItems(d)) + d.token.nonce
  }

  /** Equal in every bound fact; the MAC, its hash, the classifier contract and
      the disposition are the only fields outside the binding. */
  predicate SameBinding(d: Decision, e: Decision)
  {
    d == e.(token := Token(d.token.mac, e.token.nonce), tokenHash := d.tokenHash,
            classifierContract := d.classifierContract, disposition := d.disposition)
  }

  lemma BindingItemsInjective(d: Decision, e: Decision)
    requires BindingItems(d) == BindingItems(e) && d.token.nonce == e.token.nonce
    ensures SameBinding(d, e)
  {
    var x, y := BindingItems(d), BindingItems(e);
    assert x[1] == y[1] && x[2] == y[2] && x[3] == y[3] && x[4] == y[4] && x[5] == y[5] && x[6] == y[6];
    assert x[7] == y[7] && x[8] == y[8] && x[9] == y[9] && x[10] == y[10] && x[11] == y[11] && x[12] == y[12];
    assert x[13] == y[13] && x[14] == y[14] && x[15] == y[15] && x[16] == y[16] && x[17] == y[17] && x[18] == y[18];
  }

  /** Two decisions have the same token preimage exactly when they agree on
      every bound fact and on the nonce. */
  lemma BindingInjective(d: Decision, e: Decision)
    requires DecisionTyped(d) && DecisionTyped(e)
    ensures TokenPreimage(d) == TokenPreimage(e) <==> SameBinding(d, e)
  {
    hide Items, AllFit;
    var x, y := BindingItems(d), BindingItems(e);
    if TokenPreimage(d) == TokenPreimage(e) {
      assert forall i :: 0 <= i < |x| ==> SameShape(x[i], y[i]);
      BindingAligned(x, y);
      ItemsPrefix(x, y, d.token.nonce, e.token.nonce);
      BindingItemsInjective(d, e);
    }
  }

  lemma BindingAligned(a: seq<Item>, b: seq<Item>)
    requires AllFit(a) && AllFit(b) && |a| == |b|
    requires forall i :: 0 <= i < |a| ==> SameShape(a[i], b[i])
    ensures Aligned(a, b)
  {
  }

  // ---- Injectivity of counted lists ----

  /** The encoding of either record tells where it ends and which it is. */
  ghost predicate Delimits<T>(items: T -> seq<Item>, x: T, y: T)
  {
    forall r: Bytes, s: Bytes :: Items(items(x)) + r == Items(items(y)) + s ==> items(x) == items(y) && r == s
  }

  ghost predicate Alike<T>(xs: seq<T>, ys: seq<T>, items: T -> seq<Item>)
  {
    |xs| == |ys| && forall i :: 0 <= i < |xs| ==> items(xs[i]) == items(ys[i])
  }

  lemma {:induction false} EachAlike<T>(xs: seq<T>, ys: seq<T>, items: T -> seq<Item>)
    requires |xs| == |ys|
    requires forall x, y :: x in xs && y in ys ==> Delimits(items, x, y)
    ensures Each(xs, items) == Each(ys, items) <==> Alike(xs, ys, items)
  {
    hide Items;
    if xs != [] {
      EachAlike(xs[1..], ys[1..], items);
      assert Delimits(items, xs[0], ys[0]);
      assert xs == [xs[0]] + xs[1..] && ys == [ys[0]] + ys[1..];
      assert Alike(xs, ys, items) <==> items(xs[0]) == items(ys[0]) && Alike(xs[1..], ys[1..], items);
    }
  }

  lemma ListedAlike<T>(xs: seq<T>, ys: seq<T>, items: T -> seq<Item>)
    requires |xs| < Pow256(4) && |ys| < Pow256(4)
    requires forall x, y :: x in xs && y in ys ==> Delimits(items, x, y)
    ensures Listed(xs, items) == Listed(ys, items) <==> Alike(xs, ys, items)
  {
    hide Le, Pow256, Value, Each, Items;
    if Listed(xs, items) == Listed(ys, items) {
      SplitEqual(Le(|xs|, 4), Le(|ys|, 4), Each(xs, items), Each(ys, items));
      ValueOfLe(|xs|, 4);
      ValueOfLe(|ys|, 4);
      EachAlike(xs, ys, items);
    } else if Alike(xs, ys, items) {
      EachAlike(xs, ys, items);
    }
  }

  ghost predicate TextsFit(texts: seq<Bytes>)
  {
    |texts| < Pow256(8) && forall i :: 0 <= i < |texts| ==> |texts[i]| < Pow256(8)
  }

  lemma TextsDelimit(a: seq<Bytes>, b: seq<Bytes>, r: Bytes, s: Bytes)
    requires |a| == |b| && TextsFit(a) && TextsFit(b)
    requires Items(Texts(a)) + r == Items(Texts(b)) + s
    ensures a == b && r == s
  {
    hide Items, Pow256;
    ItemsPrefix(Texts(a), Texts(b), r, s);
    forall i | 0 <= i < |a| ensures a[i] == b[i] {
      assert Texts(a)[i] == Texts(b)[i];
    }
  }

  /** Peels an aligned head off two encodings. */
  lemma PeelHead(a: seq<Item>, b: seq<Item>, restA: seq<Item>, restB: seq<Item>, r: Bytes, s: Bytes)
    requires Aligned(a, b)
    requires Items(a + restA) + r == Items(b + restB) + s
    ensures a == b && Items(restA) + r == Items(restB) + s
  {
    hide Items, Aligned;
    ItemsConcat(a, restA);
    ItemsConcat(b, restB);
    Reassociate(Items(a), Items(restA), r);
    Reassociate(Items(b), Items(restB), s);
    ItemsPrefix(a, b, Items(restA) + r, Items(restB) + s);
  }

  ghost predicate RequirementTyped(q: Requirement)
  {
    AllFit(RequirementHead(q)) && TextsFit(q.evidence)
  }

  lemma RequirementDelimits(p: Requirement, q: Requirement)
    requires RequirementTyped(p) && RequirementTyped(q)
    ensures Delimits(RequirementItems, p, q)
  {
    hide Items, TextsFit, Pow256;
    forall r: Bytes, s: Bytes | Items(RequirementItems(p)) + r == Items(RequirementItems(q)) + s
      ensures RequirementItems(p) == RequirementItems(q) && r == s
    {
      BindingAligned(RequirementHead(p), RequirementHead(q));
      PeelHead(RequirementHead(p), RequirementHead(q), Texts(p.evidence), Texts(q.evidence), r, s);
      assert RequirementHead(p)[5] == RequirementHead(q)[5];
      TextsDelimit(p.evidence, q.evidence, r, s);
    }
  }

  lemma RequirementItemsInjective(p: Requirement, q: Requirement)
    ensures RequirementItems(p) == RequirementItems(q) ==> p == q
  {
    var x, y := RequirementItems(p), RequirementItems(q);
    if x == y {
      assert forall i :: 0 <= i < 6 ==> RequirementHead(p)[i] == x[i] && RequirementHead(q)[i] == y[i];
      assert RequirementHead(p)[0] == RequirementHead(q)[0] && RequirementHead(p)[1] == RequirementHead(q)[1];
      assert RequirementHead(p)[2] == RequirementHead(q)[2] && RequirementHead(p)[3] == RequirementHead(q)[3];
      assert RequirementHead(p)[4] == RequirementHead(q)[4] && RequirementHead(p)[5] == RequirementHead(q)[5];
      forall i | 0 <= i < |p.evidence| ensures p.evidence[i] == q.evidence[i] {
        assert x[6 + i] == Text(p.evidence[i]) && y[6 + i] == Text(q.evidence[i]);
      }
    }
  }

  /** Requirement packets differing in any encoded field, in any requirement's
      evidence, or in length, have different preimages. */
  lemma RequirementsInjective(ps: seq<Requirement>, qs: seq<Requirement>)
    requires |ps| < Pow256(4) && |qs| < Pow256(4)
    requires forall q :: q in ps || q in qs ==> RequirementTyped(q)
    ensures Listed(ps, RequirementItems) == Listed(qs, RequirementItems) <==> ps == qs
  {
    hide Listed, Delimits, RequirementItems, RequirementTyped, Pow256;
    forall p, q | p in ps && q in qs ensures Delimits(RequirementItems, p, q) {
      RequirementDelimits(p, q);
    }
    ListedAlike(ps, qs, RequirementItems);
    if Alike(ps, qs, RequirementItems) {
      forall i | 0 <= i < |ps| ensures ps[i] == qs[i] {
        RequirementItemsInjective(ps[i], qs[i]);
      }
    }
  }

  lemma ReceiptDelimits(d: Resolver.EvidenceReceipt, e: Resolver.EvidenceReceipt)
    requires ReceiptTyped(d) && ReceiptTyped(e)
    ensures Delimits(ReceiptItems, d, e)
  {
    hide Items, AllFit;
    var x, y := ReceiptItems(d), ReceiptItems(e);
    assert forall i :: 0 <= i < |x| ==> SameShape(x[i], y[i]);
    BindingAligned(x, y);
    forall r: Bytes, s: Bytes | Items(x) + r == Items(y) + s ensures x == y && r == s {
      ItemsPrefix(x, y, r, s);
    }
  }

  /** The accepted evidence type is the one receipt field outside the preimage. */
  lemma ReceiptItemsInjective(d: Resolver.EvidenceReceipt, e: Resolver.EvidenceReceipt)
    ensures ReceiptItems(d) == ReceiptItems(e) <==> d == e.(evidenceType := d.evidenceType)
  {
    var x, y := ReceiptItems(d), ReceiptItems(e);
    if x == y {
      assert x[0] == y[0] && x[1] == y[1] && x[2] == y[2] && x[3] == y[3] && x[4] == y[4] && x[5] == y[5];
      assert x[6] == y[6] && x[7] == y[7] && x[8] == y[8] && x[9] == y[9] && x[10] == y[10] && x[11] == y[11];
      assert x[12] == y[12] && x[13] == y[13] && x[14] == y[14] && x[15] == y[15] && x[16] == y[16];
      assert x[17] == y[17] && x[18] == y[18];
    }
  }

  /** Evidence sets have the same preimage exactly when they agree, receipt by
      receipt, on everything except the evidence type. */
  lemma EvidenceInjectiveUpToType(ds: seq<Resolver.EvidenceReceipt>, es: seq<Resolver.EvidenceReceipt>)
    requires |ds| < Pow256(4) && |es| < Pow256(4)
    requires forall e :: e in ds || e in es ==> ReceiptTyped(e)
    ensures Listed(ds, ReceiptItems) == Listed(es, ReceiptItems) <==>
            |ds| == |es| && forall i :: 0 <= i < |ds| ==> ds[i] == es[i].(evidenceType := ds[i].evidenceType)
  {
    hide Listed, Delimits, ReceiptItems, ReceiptTyped, Pow256;
    forall d, e | d in ds && e in es ensures Delimits(ReceiptItems, d, e) {
      ReceiptDelimits(d, e);
    }
    ListedAlike(ds, es, ReceiptItems);
    if |ds| == |es| {
      forall i | 0 <= i < |ds|
        ensures ReceiptItems(ds[i]) == ReceiptItems(es[i]) <==> ds[i] == es[i].(evidenceType := ds[i].evidenceType)
      {
        ReceiptItemsInjective(ds[i], es[i]);
      }
    }
  }

  ghost predicate IntentTyped(m: Intent)
  {
    AllFit(IntentHead(m)) && TextsFit(m.concepts) && TextsFit(m.files)
  }

  predicate SameIntent(m: Intent, n: Intent)
  {
    m == n.(priorFailure := m.priorFailure) && m.priorFailure.Some? == n.priorFailure.Some?
  }

  lemma TextsAligned(a: seq<Bytes>, b: seq<Bytes>)
    requires |a| == |b| && TextsFit(a) && TextsFit(b)
    ensures Aligned(Texts(a), Texts(b))
    ensures Texts(a) == Texts(b) ==> a == b
  {
    hide Pow256;
    if Texts(a) == Texts(b) {
      forall i | 0 <= i < |a| ensures a[i] == b[i] {
        assert Texts(a)[i] == Texts(b)[i];
      }
    }
  }

  lemma PriorFailureAligned(m: Intent, n: Intent)
    ensures Aligned(PriorFailure(m), PriorFailure(n))
  {
    Widths();
  }

  lemma FileCountAligned(m: Intent, n: Intent)
    requires TextsFit(m.files) && TextsFit(n.files)
    ensures Aligned([Word(8, |m.files|)], [Word(8, |n.files|)])
  {
    hide Pow256;
  }

  lemma IntentReadsBack(m: Intent, n: Intent, r: Bytes, s: Bytes)
    requires IntentTyped(m) && IntentTyped(n)
    requires Items(IntentItems(m)) + r == Items(IntentItems(n)) + s
    ensures SameIntent(m, n) && r == s
  {
    hide Items, TextsFit, Pow256, Aligned, Texts;
    var filesM, filesN := Texts(m.files) + PriorFailure(m), Texts(n.files) + PriorFailure(n);
    var countM, countN := [Word(8, |m.files|)], [Word(8, |n.files|)];
    BindingAligned(IntentHead(m), IntentHead(n));
    PeelHead(IntentHead(m), IntentHead(n), Texts(m.concepts) + (countM + filesM), Texts(n.concepts) + (countN + filesN),
             r, s);
    assert IntentHead(m)[0] == IntentHead(n)[0] && IntentHead(m)[1] == IntentHead(n)[1];
    assert IntentHead(m)[2] == IntentHead(n)[2] && IntentHead(m)[3] == IntentHead(n)[3];
    assert IntentHead(m)[4] == IntentHead(n)[4] && IntentHead(m)[5] == IntentHead(n)[5];
    TextsAligned(m.concepts, n.concepts);
    PeelHead(Texts(m.concepts), Texts(n.concepts), countM + filesM, countN + filesN, r, s);
    FileCountAligned(m, n);
    PeelHead(countM, countN, filesM, filesN, r, s);
    assert countM[0] == countN[0];
    TextsAligned(m.files, n.files);
    PeelHead(Texts(m.files), Texts(n.files), PriorFailure(m), PriorFailure(n), r, s);
    PriorFailureAligned(m, n);
    ItemsPrefix(PriorFailure(m), PriorFailure(n), r, s);
    assert PriorFailure(m)[0] == PriorFailure(n)[0];
  }

  /** Intent sets have the same preimage exactly when they agree on everything
      except which prior failure an intent names. */
  lemma IntentsInjectiveUpToFailure(ms: seq<Intent>, ns: seq<Intent>)
    requires |ms| < Pow256(4) && |ns| < Pow256(4)
    requires forall m :: m in ms || m in ns ==> IntentTyped(m)
    ensures Listed(ms, IntentItems) == Listed(ns, IntentItems) <==>
            |ms| == |ns| && forall i :: 0 <= i < |ms| ==> SameIntent(ms[i], ns[i])
  {
    hide Listed, IntentItems, IntentTyped, Pow256, SameIntent, Items;
    forall m, n | m in ms && n in ns
      ensures Delimits(IntentItems, m, n) && (IntentItems(m) == IntentItems(n) <==> SameIntent(m, n))
    {
      IntentDelimits(m, n);
    }
    ListedAlike(ms, ns, IntentItems);
  }

  lemma SameIntentSameItems(m: Intent, n: Intent)
    requires SameIntent(m, n)
    ensures IntentItems(m) == IntentItems(n)
  {
  }

  lemma IntentDelimits(m: Intent, n: Intent)
    requires IntentTyped(m) && IntentTyped(n)
    ensures Delimits(IntentItems, m, n)
    ensures IntentItems(m) == IntentItems(n) <==> SameIntent(m, n)
  {
    hide Items, IntentItems, IntentTyped, SameIntent;
    forall r: Bytes, s: Bytes | Items(IntentItems(m)) + r == Items(IntentItems(n)) + s
      ensures IntentItems(m) == IntentItems(n) && r == s
    {
      IntentReadsBack(m, n, r, s);
      SameIntentSameItems(m, n);
    }
    if IntentItems(m) == IntentItems(n) {
      IntentReadsBack(m, n, [], []);
    }
    if SameIntent(m, n) {
      SameIntentSameItems(m, n);
    }
  }

  // ---- Differences the preimages do not see ----

  lemma EachOne<T>(x: T, items: T -> seq<Item>)
    ensures Each([x], items) == Items(items(x))
  {
    hide Items;
    assert [x][1..] == [];
    assert Items(items(x)) + [] == Items(items(x));
  }

  /** Any receipt keeps its preimage under any other evidence type. */
  lemma EvidenceTypeUnbound(e: Resolver.EvidenceReceipt, evidenceType: nat)
    ensures Listed([e], ReceiptItems) == Listed([e.(evidenceType := evidenceType)], ReceiptItems)
  {
    hide Items, Each;
    var other := e.(evidenceType := evidenceType);
    ReceiptItemsInjective(e, other);
    EachOne(e, ReceiptItems);
    EachOne(other, ReceiptItems);
  }

  /** Any intent with a prior failure keeps its preimage under any other. */
  lemma PriorFailureUnbound(m: Intent, failure: Bytes)
    requires m.priorFailure.Some?
    ensures Listed([m], IntentItems) == Listed([m.(priorFailure := Some(failure))], IntentItems)
  {
    hide Items, Each;
    var other := m.(priorFailure := Some(failure));
    SameIntentSameItems(m, other);
    EachOne(m, IntentItems);
    EachOne(other, IntentItems);
  }

  // ---- The order and width of every field ----

  function Join(parts: seq<Bytes>): Bytes
  {
    if parts == [] then [] else parts[0] + Join(parts[1..])
  }

  function Encodings(items: seq<Item>): (r: seq<Bytes>)
    ensures |r| == |items| && forall i :: 0 <= i < |items| ==> r[i] == ItemBytes(items[i])
  {
    seq(|items|, i requires 0 <= i < |items| => ItemBytes(items[i]))
  }

  lemma {:induction false} ItemsJoin(items: seq<Item>)
    ensures Items(items) == Join(Encodings(items))
  {
    hide ItemBytes;
    if items != [] {
      ItemsJoin(items[1..]);
      assert Encodings(items)[1..] == Encodings(items[1..]);
    }
  }

  function U32(value: nat): Bytes
  {
    Le(value, 4)
  }

  function U64(value: nat): Bytes
  {
    Le(value, 8)
  }

  function Prefixed(text: Bytes): Bytes
  {
    U64(|text|) + text
  }

  function AllPrefixed(texts: seq<Bytes>): (r: seq<Bytes>)
    ensures |r| == |texts| && forall i :: 0 <= i < |texts| ==> r[i] == Prefixed(texts[i])
  {
    seq(|texts|, i requires 0 <= i < |texts| => Prefixed(texts[i]))
  }

  /** What an action digest is taken of. */
  lemma ActionLayout(a: ObservedAction)
    ensures Items(ActionItems(a)) == Join([
              U64(a.adapter), U64(a.session), U64(a.actor), U64(a.capability),
              Prefixed(a.operation), Prefixed(a.target), a.argumentDigest])
  {
    hide Items, Join, Le;
    ItemsJoin(ActionItems(a));
    assert Encodings(ActionItems(a)) == [
      U64(a.adapter), U64(a.session), U64(a.actor), U64(a.capability),
      Prefixed(a.operation), Prefixed(a.target), a.argumentDigest];
  }

  /** What a token's MAC is taken of: the schema number, every bound fact and the
      nonce. */
  lemma TokenLayout(d: Decision)
    ensures TokenPreimage(d) == Join([
              U32(1), d.id, U64(d.transaction), U64(d.generation), U64(d.session), U64(d.actor), U64(d.capability),
              Prefixed(d.operation), Prefixed(d.target), d.resourceScopeDigest, U64(d.expiresAt), d.actionDigest,
              d.intentSetDigest, Prefixed(d.cognitionRevision), d.policyDigest, d.requirementSetDigest,
              d.evidenceSetDigest, U64(d.profile), U64(d.resolverRegistryRevision)]) + d.token.nonce
  {
    hide Items, Join, Le;
    ItemsJoin(BindingItems(d));
    assert Encodings(BindingItems(d)) == [
      U32(1), d.id, U64(d.transaction), U64(d.generation), U64(d.session), U64(d.actor), U64(d.capability),
      Prefixed(d.operation), Prefixed(d.target), d.resourceScopeDigest, U64(d.expiresAt), d.actionDigest,
      d.intentSetDigest, Prefixed(d.cognitionRevision), d.policyDigest, d.requirementSetDigest,
      d.evidenceSetDigest, U64(d.profile), U64(d.resolverRegistryRevision)];
  }

  lemma RequirementLayout(q: Requirement)
    ensures Items(RequirementItems(q)) == Join([
              U32(q.identity.kind), Prefixed(q.identity.subject),
              U32(if q.identity.boundary == BeforeJudgment then 0 else 1), U32(if q.identity.blocking then 1 else 0),
              U32(q.status), U64(|q.evidence|)] + AllPrefixed(q.evidence))
  {
    hide Items, Join, Le;
    ItemsJoin(RequirementItems(q));
    assert Encodings(RequirementItems(q)) == [
      U32(q.identity.kind), Prefixed(q.identity.subject),
      U32(if q.identity.boundary == BeforeJudgment then 0 else 1), U32(if q.identity.blocking then 1 else 0),
      U32(q.status), U64(|q.evidence|)] + AllPrefixed(q.evidence);
  }

  lemma IntentLayout(m: Intent)
    ensures Items(IntentItems(m)) == Join(
              [U32(m.basis), U32(m.kind), U32(m.claimClass), Prefixed(m.tool), Prefixed(m.operation), U64(|m.concepts|)]
              + AllPrefixed(m.concepts) + [U64(|m.files|)] + AllPrefixed(m.files)
              + [U32(if m.priorFailure.Some? then 1 else 0)])
  {
    hide Items, Join, Le;
    ItemsJoin(IntentItems(m));
    assert Encodings(IntentItems(m)) ==
      [U32(m.basis), U32(m.kind), U32(m.claimClass), Prefixed(m.tool), Prefixed(m.operation), U64(|m.concepts|)]
      + AllPrefixed(m.concepts) + [U64(|m.files|)] + AllPrefixed(m.files)
      + [U32(if m.priorFailure.Some? then 1 else 0)];
  }

  lemma ReceiptLayout(e: Resolver.EvidenceReceipt)
    ensures Items(ReceiptItems(e)) == Join([
              U64(e.id), U32(e.requirement.kind), Prefixed(e.requirement.subject),
              U32(if e.requirement.boundary == BeforeJudgment then 0 else 1),
              U32(if e.requirement.blocking then 1 else 0), U64(e.resolverType), Prefixed(e.name), U64(e.version),
              Prefixed(e.subject), Prefixed(e.source), Prefixed(e.sourceRevision), Prefixed(e.sourcePath),
              Prefixed(e.build), e.contentDigest, U64(e.issuedAt), U64(e.expiresAt), e.policyDigest,
              U64(e.generation), U32(if e.reusable then 1 else 0)])
  {
    hide Items, Join, Le;
    ItemsJoin(ReceiptItems(e));
    assert Encodings(ReceiptItems(e)) == [
      U64(e.id), U32(e.requirement.kind), Prefixed(e.requirement.subject),
      U32(if e.requirement.boundary == BeforeJudgment then 0 else 1),
      U32(if e.requirement.blocking then 1 else 0), U64(e.resolverType), Prefixed(e.name), U64(e.version),
      Prefixed(e.subject), Prefixed(e.source), Prefixed(e.sourceRevision), Prefixed(e.sourcePath),
      Prefixed(e.build), e.contentDigest, U64(e.issuedAt), U64(e.expiresAt), e.policyDigest,
      U64(e.generation), U32(if e.reusable then 1 else 0)];
  }

  /** A counted list is its length and its records in order. */
  lemma {:induction false} ListedLayout<T>(records: seq<T>, items: T -> seq<Item>)
    ensures Listed(records, items)
            == U32(|records|) + Join(seq(|records|, i requires 0 <= i < |records| => Items(items(records[i]))))
  {
    hide Le, Items;
    EachJoin(records, items);
  }

  lemma {:induction false} EachJoin<T>(records: seq<T>, items: T -> seq<Item>)
    ensures Each(records, items) == Join(seq(|records|, i requires 0 <= i < |records| => Items(items(records[i]))))
  {
    hide Items;
    if records != [] {
      EachJoin(records[1..], items);
      var parts := seq(|records|, i requires 0 <= i < |records| => Items(items(records[i])));
      var rest := seq(|records| - 1, i requires 0 <= i < |records| - 1 => Items(items(records[1..][i])));
      assert parts[1..] == rest;
    }
  }
}
