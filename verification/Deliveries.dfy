/** What one native delivery consists of, and the constructors that refuse to put mismatched pieces
    together (crates/cs-mail-application/src/correspondence.rs and aliases.rs). */
module Deliveries {
  import opened Wrappers
  import opened Primitives
  import opened Conversations
  import opened SourceGraph
  import A = Aliases
  import L = Lanes
  import Admission

  const NINETY_DAYS: U64 := 90 * 24 * 60 * 60 * 1000
  const MAX_CIPHERTEXT: nat := 24 * 1_048_576 + 16

  /** `rest` stands for the header fields nothing here looks at but equality still compares. */
  datatype Binding = Binding(
    wireVersion: nat, protocolVersion: nat, message: MessageId, sender: Identity, recipient: Identity,
    relationship: nat, declarations: Declarations, validUntil: Time, capability: Option<LaneId>, rest: nat)

  datatype Envelope = Envelope(senderKey: nat, recipientKey: nat, length: nat, rest: nat)
  datatype ContentCopy = ContentCopy(binding: Binding, envelope: Envelope, createdAt: Time, expiresAt: Time)

  /** Key bytes are one number; zero is the all-zero key. */
  datatype EndpointKey = EndpointKey(reference: nat, bytes: nat)
  datatype Recovery = Recovery(sender: EndpointKey, ciphertext: ContentCopy)

  datatype Package = Package(
    manifest: Manifest, senderCopy: ContentCopy, recipientCopy: ContentCopy,
    senderRecovery: Recovery, recipientRecovery: Recovery)

  datatype AdmissionBasis =
    | AliasLane(alias: AliasId, revision: U64)
    | ConversationReply(source: MessageId)
    | RequestAnswer(request: nat)
    | InitialRequest(request: nat)
    | RequestFollowup(request: nat)
    | AcceptedRelationship(version: U64)
    | ExpressLane(lane: LaneId, version: U64)

  datatype Provenance =
    | AliasPermission(basis: Admission.Basis)
    | NativeAdmission(admission: AdmissionBasis)
    | RequestProvenance(request: nat)
    | ReplyProvenance
    | DevelopmentAssignment(operation: nat)

  datatype Transport = Native | External

  datatype Route = Route(
    transport: Transport, message: MessageId, alias: AliasId, aliasRevision: U64, sender: Identity,
    recipient: Identity, conversation: ConversationId, at: Time, provenance: Provenance)

  datatype Record = Record(
    receiving: Route, senderKey: EndpointKey, manifest: Manifest, author: Identity,
    admission: AdmissionBasis, committedAt: Time)

  datatype Delivery = Delivery(record: Record, package: Package)
  datatype Transition = Transition(conversation: Conversation, delivery: Delivery, lane: Option<L.Lane>)

  // ---- checked constructors ----

  function CheckRoute(r: Route): Result<Route, CorrespondenceError> {
    if || r.message == 0 || r.sender == 0 || r.recipient == 0 || r.sender == r.recipient
       || (&& r.provenance.AliasPermission?
           && (r.provenance.basis.SenderLane? || r.provenance.basis.PairedSender?) && r.provenance.basis.id == 0)
       || (r.provenance.RequestProvenance? && r.provenance.request == 0)
       || (r.provenance.DevelopmentAssignment? && r.provenance.operation == 0)
    then Failure(Invalid)
    else Success(r)
  }

  /** `ReceivingAuthorization::delivered`. */
  function Delivered(a: Admission.Authorization, message: MessageId): Result<Route, CorrespondenceError> {
    CheckRoute(Route(Native, message, a.alias, a.aliasRevision, a.sender, a.recipient, a.conversation,
                     a.authorizedAt, AliasPermission(a.basis)))
  }

  /** `DeliveredRoute::native`. */
  function NativeRoute(
    alias: A.Alias, sender: Identity, conversation: ConversationId, message: MessageId, admission: AdmissionBasis, at: Time)
    : Result<Route, CorrespondenceError>
  {
    CheckRoute(Route(Native, message, alias.id, alias.revision, sender, alias.owner, conversation, at,
                     NativeAdmission(admission)))
  }

  predicate BasisMatches(r: Route, admission: AdmissionBasis) {
    match r.provenance
    case NativeAdmission(a) => a == admission
    case RequestProvenance(request) =>
      (admission.InitialRequest? || admission.RequestFollowup?) && admission.request == request
    case DevelopmentAssignment(_) => true
    case AliasPermission(Standing(version)) => admission == AcceptedRelationship(version)
    case AliasPermission(SenderLane(id, version)) => admission == AdmissionBasis.ExpressLane(id, version)
    case AliasPermission(PairedSender(id, version, _)) => admission == AdmissionBasis.ExpressLane(id, version)
    case AliasPermission(AliasLane(revision)) => admission == AliasLane(r.alias, revision)
    case ReplyProvenance => false
  }

  function NewRecord(r: Record): Result<Record, CorrespondenceError> {
    if || !BasisMatches(r.receiving, r.admission)
       || r.receiving.transport != Native
       || r.receiving.message != r.manifest.message
       || r.receiving.conversation != r.manifest.conversation
       || r.receiving.sender != r.author
       || r.receiving.at != r.committedAt
    then Failure(Invalid)
    else Success(r)
  }

  function NewDelivery(record: Record, package: Package): Result<Delivery, CorrespondenceError> {
    if || record.manifest != package.manifest
       || record.author != package.senderCopy.binding.sender
       || record.receiving.recipient != package.recipientCopy.binding.recipient
       || record.author != package.recipientCopy.binding.sender
       || record.senderKey != package.senderRecovery.sender
    then Failure(Invalid)
    else Success(Delivery(record, package))
  }

  function NewTransition(conversation: Conversation, delivery: Delivery, lane: Option<L.Lane>)
    : Result<Transition, CorrespondenceError>
  {
    var record := delivery.record;
    if conversation.id != record.manifest.conversation then Failure(Invalid)
    else
      var other :- Other(conversation.scope, record.author);
      if other != record.receiving.recipient then Failure(Invalid)
      else Success(Transition(conversation, delivery, lane))
  }

  // ---- the prepared package ----

  predicate RecoveryFits(copy: ContentCopy, recovery: Recovery, custody: EndpointKey) {
    && recovery.ciphertext.binding == copy.binding
    && recovery.ciphertext.createdAt == copy.createdAt
    && recovery.ciphertext.expiresAt == copy.expiresAt
    && recovery.sender.reference == copy.envelope.senderKey
    && recovery.sender.bytes != 0
    && recovery.ciphertext.envelope.senderKey == recovery.sender.reference
    && recovery.ciphertext.envelope.recipientKey == custody.reference
    && 0 < recovery.ciphertext.envelope.length <= MAX_CIPHERTEXT
  }

  predicate CopyFits(
    copy: ContentCopy, manifest: Manifest, actor: Identity, owner: Identity, key: KeyRef, relationship: nat,
    now: Time, latest: Time)
  {
    var b := copy.binding;
    && b.sender == actor && b.recipient == owner && b.message == manifest.message
    && b.relationship == relationship && b.wireVersion == 1 && b.protocolVersion == 2
    && b.declarations.authority == NativeSender(key)
    && copy.createdAt <= now < copy.expiresAt <= latest
    && now < b.validUntil <= latest
    && 0 < copy.envelope.length <= MAX_CIPHERTEXT
    && ValidDeclarations(b.declarations)
  }

  function ValidatePrepared(
    p: Package, actor: Identity, key: KeyRef, other: Identity, relationship: nat,
    custody: Option<EndpointKey>, now: Time): Result<(), CorrespondenceError>
  {
    if custody.None? then Failure(Unavailable)
    else if now + NINETY_DAYS > U64_MAX then Failure(Invalid)
    else if || p.senderCopy.binding.(recipient := other) != p.recipientCopy.binding
            || p.senderCopy.envelope.senderKey != p.recipientCopy.envelope.senderKey
            || !RecoveryFits(p.senderCopy, p.senderRecovery, custody.value)
            || !RecoveryFits(p.recipientCopy, p.recipientRecovery, custody.value)
            || p.senderRecovery.sender != p.recipientRecovery.sender
            || !CopyFits(p.senderCopy, p.manifest, actor, actor, key, relationship, now, now + NINETY_DAYS)
            || !CopyFits(p.recipientCopy, p.manifest, actor, other, key, relationship, now, now + NINETY_DAYS)
    then Failure(Invalid)
    else Success(())
  }

  /** Message, participants and time agree across route, record, both copies and the conversation. */
  predicate Coherent(t: Transition) {
    var record, package := t.delivery.record, t.delivery.package;
    var route := record.receiving;
    && package.manifest == record.manifest
    && route.message == record.manifest.message != 0
    && package.senderCopy.binding.message == package.recipientCopy.binding.message == route.message
    && route.conversation == record.manifest.conversation == t.conversation.id
    && record.author == route.sender == package.senderCopy.binding.sender == package.recipientCopy.binding.sender
    && package.senderCopy.binding.recipient == record.author
    && package.recipientCopy.binding.recipient == route.recipient
    && Other(t.conversation.scope, record.author) == Success(route.recipient)
    && record.author != route.recipient
    && record.committedAt == route.at
    && package.senderCopy.createdAt <= record.committedAt < package.senderCopy.expiresAt
    && package.recipientCopy.createdAt <= record.committedAt < package.recipientCopy.expiresAt
    && record.senderKey == package.senderRecovery.sender == package.recipientRecovery.sender
    && route.transport == Native
    && BasisMatches(route, record.admission)
    && t.conversation.subject == record.manifest.subject
  }

  /** The lane that pays, before and after: one message, one version, the same grant. */
  predicate Spends(before: L.Lane, after: L.Lane, message: MessageId) {
    && after.grant == before.grant && CheckedNext(before.version) == Some(after.version)
    && message !in before.admitted && after.admitted == before.admitted + {message}
  }

  // ---- the prepared package, over its own fields ----

  /** Who a copy says it is from and for, and as what: this message, signed with the sender's own key, under this
      relationship, in the one wire format there is. */
  predicate Says(b: Binding, manifest: Manifest, actor: Identity, owner: Identity, key: KeyRef, relationship: nat) {
    && b.message == manifest.message && b.sender == actor && b.recipient == owner && b.relationship == relationship
    && b.wireVersion == 1 && b.protocolVersion == 2
    && ValidDeclarations(b.declarations) && b.declarations.authority == NativeSender(key)
  }

  /** A copy that is already there, has not expired, and will have within ninety days. */
  predicate Lasts(copy: ContentCopy, now: Time) {
    && copy.createdAt <= now < copy.expiresAt <= now + 7_776_000_000
    && now < copy.binding.validUntil <= now + 7_776_000_000
    && 1 <= copy.envelope.length <= 25_165_840
  }

  /** The same copy again, sealed by the same sender for the custody key. */
  predicate Sealed(copy: ContentCopy, recovery: Recovery, custody: EndpointKey) {
    var sealed := recovery.ciphertext;
    && sealed.binding == copy.binding && sealed.createdAt == copy.createdAt && sealed.expiresAt == copy.expiresAt
    && copy.envelope.senderKey == recovery.sender.reference == sealed.envelope.senderKey && recovery.sender.bytes != 0
    && sealed.envelope.recipientKey == custody.reference && 1 <= sealed.envelope.length <= 25_165_840
  }

  /** A package is ready to send when its two copies say the same but for whom they are addressed to, each lasts, and each
      is sealed for the custody key by one sender's key; without a custody key nothing can be said of it yet. */
  lemma PreparedExactly(
    p: Package, actor: Identity, key: KeyRef, other: Identity, relationship: nat, custody: Option<EndpointKey>, now: Time)
    ensures ValidatePrepared(p, actor, key, other, relationship, custody, now).Success? <==>
              && custody.Some? && now + 7_776_000_000 <= 0xFFFF_FFFF_FFFF_FFFF
              && Says(p.senderCopy.binding, p.manifest, actor, actor, key, relationship)
              && Says(p.recipientCopy.binding, p.manifest, actor, other, key, relationship)
              && p.senderCopy.binding.(recipient := other) == p.recipientCopy.binding
              && Lasts(p.senderCopy, now) && Lasts(p.recipientCopy, now)
              && Sealed(p.senderCopy, p.senderRecovery, custody.value)
              && Sealed(p.recipientCopy, p.recipientRecovery, custody.value)
              && p.senderRecovery.sender == p.recipientRecovery.sender
    ensures custody == None ==> ValidatePrepared(p, actor, key, other, relationship, custody, now) == Failure(Unavailable)
    ensures custody.Some? ==> ValidatePrepared(p, actor, key, other, relationship, custody, now) in {Success(()), Failure(Invalid)}
  {
  }

  /** A route says of a delivery what its authorization or its alias says, as they stand. */
  lemma RoutesExactly(
    a: Admission.Authorization, alias: A.Alias, sender: Identity, conversation: ConversationId, message: MessageId,
    admission: AdmissionBasis, at: Time)
    ensures Delivered(a, message).Success? <==>
              && message != 0 && a.sender != 0 && a.recipient != 0 && a.sender != a.recipient
              && (a.basis.SenderLane? || a.basis.PairedSender? ==> a.basis.id != 0)
    ensures Delivered(a, message).Success? ==>
              var r := Delivered(a, message).value;
              && r.transport == Native && r.message == message && r.alias == a.alias && r.aliasRevision == a.aliasRevision
              && r.sender == a.sender && r.recipient == a.recipient && r.conversation == a.conversation
              && r.at == a.authorizedAt && r.provenance == AliasPermission(a.basis)
    ensures NativeRoute(alias, sender, conversation, message, admission, at).Success? <==>
              message != 0 && sender != 0 && alias.owner != 0 && sender != alias.owner
    ensures NativeRoute(alias, sender, conversation, message, admission, at).Success? ==>
              var r := NativeRoute(alias, sender, conversation, message, admission, at).value;
              && r.transport == Native && r.message == message && r.alias == alias.id && r.aliasRevision == alias.revision
              && r.sender == sender && r.recipient == alias.owner && r.conversation == conversation
              && r.at == at && r.provenance == NativeAdmission(admission)
  {
  }
}
