/** Signed correspondence commands (crates/cs-mail-application/src/correspondence.rs): every mutation is
    one coherent change or one recorded refusal, decided against a protected snapshot. */
module Correspondence {
  import opened Wrappers
  import opened Primitives
  import opened Conversations
  import G = SourceGraph
  import D = Deliveries
  import A = Aliases
  import P = Permission
  import L = Lanes
  import C = AliasCommands
  import Admission

  const MAX_ROUTE_QUERY: nat := 100

  datatype Command =
    | Mailbox(after: nat)
    | Create(id: ConversationId, other: Identity, subject: nat)
    | ChangePolicy(id: ConversationId, revision: U64, action: PolicyAction)
    | Policy(id: ConversationId)
    | Assess(manifest: G.Manifest)
    | Send(alias: AliasId, package: D.Package)
    | SendToAlias(alias: AliasId, package: D.Package)
    | ReceivingRoutes(messages: seq<MessageId>)
    | Fetch(message: MessageId)
    | Resolve(source: G.Selection)
    | DeleteCopies(id: ConversationId)

  datatype AuditAction =
    | Created(id: ConversationId)
    | PolicyChanged(id: ConversationId, expectedRevision: U64, action: PolicyAction)
    | Delivered(message: MessageId)
    | CopiesDeletedIn(id: ConversationId)

  /** Everything the signature covers; a collision-free digest of it is the content itself. */
  datatype Content = Content(
    product: string, account: nat, persona: Identity, key: KeyRef, operation: nat, command: Command)
  type Digest = Content
  datatype Request = Request(content: Content, signature: nat)

  datatype SourceState = Available | Gone | Denied

  datatype Response =
    | Routes(routes: seq<D.Route>, scopes: seq<C.SenderScope>)
    | Refused(operation: nat, digest: Digest, reason: CorrespondenceError)
    | Entries(entries: seq<(nat, D.Record)>, nextAfter: nat)
    | ConversationIs(conversation: Conversation)
    | Assessed(reuse: Result<(), CorrespondenceError>, sources: seq<SourceState>)
    | Committed(message: MessageId)
    | MessageIs(record: D.Record, copy: D.ContentCopy)
    | NotRetained
    | AccessDenied
    | CopiesDeleted

  datatype Receipt = Receipt(
    actor: Identity, key: KeyRef, action: AuditAction, digest: Digest, outcome: Response,
    authorizedAt: Time, policies: G.Observed)

  datatype Routed = Routed(
    alias: A.Alias, senderScope: Option<C.SenderScope>, recipientActive: bool,
    senderCovers: Time -> bool, recipientCovers: Time -> bool)

  datatype Authority = Authority(
    personaKey: (string, Identity, KeyRef, Time) -> Option<nat>, signedBy: (Request, nat) -> bool)

  datatype Context = Context(
    authority: Authority, routed: Option<Routed>, receivingRoutes: seq<D.Route>, senderScopes: seq<C.SenderScope>,
    receiverContact: Option<Relationship>, mailbox: seq<(nat, D.Record, Time)>,
    custodyKey: Option<D.EndpointKey>, contact: Option<Relationship>, lane: Option<L.Lane>,
    conversations: map<ConversationId, Conversation>, messages: map<MessageId, D.Record>,
    retained: map<(MessageId, Identity), Time>, fetchedCopy: Option<D.ContentCopy>, prior: Option<Receipt>)

  datatype Change =
    | ConversationChange(conversation: Conversation)
    | DeliveryChange(transition: D.Transition)
    | DeleteChange(id: ConversationId)
    | RefusalRecorded

  datatype Effects = Effects(change: Change, receipt: Receipt)
  datatype Decision = Decision(response: Response, effects: Option<Effects>)

  /** The local variables of the dispatch, before the final assembly. */
  datatype Draft = Draft(
    response: Response, conversation: Option<Conversation>, delivery: Option<D.Delivery>,
    lane: Option<L.Lane>, deleted: Option<ConversationId>, policies: G.Observed)

  type Fallible<T> = Result<T, CorrespondenceError>

  function Audit(c: Command): Option<AuditAction> {
    match c
    case Create(id, _, _) => Some(Created(id))
    case ChangePolicy(id, revision, action) => Some(PolicyChanged(id, revision, action))
    case Send(_, p) => Some(Delivered(p.manifest.message))
    case SendToAlias(_, p) => Some(Delivered(p.manifest.message))
    case DeleteCopies(id) => Some(CopiesDeletedIn(id))
    case _ => None
  }

  function Graph(c: Context): G.Graph {
    G.Graph(c.conversations, map id | id in c.messages :: c.messages[id].manifest)
  }

  function Owned(c: Context, id: ConversationId, actor: Identity): Fallible<Conversation> {
    G.Owned(Graph(c), id, actor)
  }

  // ---- contact and answers ----

  /** The received message that lets this actor answer in this conversation, if any. */
  function AnswerBasis(c: Context, r: Relationship, id: ConversationId, actor: Identity, other: Identity)
    : Option<D.AdmissionBasis>
  {
    if r.sender != actor || r.recipient != other || id !in c.conversations then None
    else match ReplySource(c.conversations[id], actor, r.epoch)
      case None => None
      case Some(source) => Some(D.ConversationReply(source))
  }

  function Contact(c: Context, actor: Identity, other: Identity, id: Option<ConversationId>, now: Time): Fallible<Relationship> {
    if c.contact.None? then Failure(Unauthorized)
    else
      var r := c.contact.value;
      if && r.sender == actor && r.recipient == other && !ReplyRestricted(r)
         && (|| r.state.Accepted?
             || (id.Some? && AnswerBasis(c, r, id.value, actor, other).Some?)
             || (&& c.lane.Some? && c.lane.value.grant.sender == actor && c.lane.value.grant.recipient == other
                 && c.lane.value.grant.subject.Native? && L.IsCurrent(c.lane.value, now)))
      then Success(r)
      else Failure(Unauthorized)
  }

  function Evidence(c: Context): Option<L.Evidence> {
    if c.contact.Some? then Some(L.NativeEvidence(c.contact.value.reference)) else None
  }

  function AdmissionFacts(c: Context, route: Routed, persona: Identity, package: D.Package, at: Time): Admission.Context {
    Admission.Context(
      route.alias, Admission.Authenticated(persona), c.contact, route.senderScope, c.lane,
      package.recipientCopy.binding.declarations, Evidence(c), None,
      route.recipientActive && route.senderCovers(at) && route.recipientCovers(at),
      false, package.manifest.conversation)
  }

  /** May this package enter by the named address on its own permission, without answering anything? */
  function DirectAuthority(c: Context, persona: Identity, alias: AliasId, package: D.Package, at: Time)
    : Option<Admission.Authorization>
  {
    if c.routed.None? || c.routed.value.alias.id != alias then None
    else match Admission.Admit(AdmissionFacts(c, c.routed.value, persona, package, at), at)
      case Authorize(a) =>
        if a.basis.SenderLane? && package.recipientCopy.binding.capability != Some(a.basis.id) then None else Some(a)
      case _ => None
  }

  // ---- the direct route ----

  function ConsumePaired(a: Admission.Authorization, message: MessageId, d: Declarations): Fallible<Option<L.Lane>> {
    if a.paired.None? then Success(None)
    else
      var (lane, evidence) := a.paired.value;
      match L.Consume(lane, message, Some(lane.grant.id), d, evidence, a.authorizedAt)
      case Failure(_) => Failure(Unauthorized)
      case Success((next, seen)) => if seen then Failure(Unauthorized) else Success(Some(next))
  }

  function ConsumeSenderLane(c: Context, package: D.Package, now: Time): Fallible<L.Lane> {
    if c.lane.None? || Evidence(c).None? then Failure(Unauthorized)
    else
      var b := package.recipientCopy.binding;
      match L.Consume(c.lane.value, package.manifest.message, b.capability, b.declarations, Evidence(c).value, now)
      case Failure(_) => Failure(Unauthorized)
      case Success((next, seen)) => if seen then Failure(Conflict) else Success(next)
  }

  /** The recorded admission, naming a lane's version before it is spent, and the lane to write. */
  function DirectAdmission(c: Context, alias: AliasId, package: D.Package, a: Admission.Authorization, now: Time)
    : Fallible<(D.AdmissionBasis, Option<L.Lane>)>
  {
    match a.basis
    case AliasLane(revision) => Success((D.AliasLane(alias, revision), None))
    case PairedSender(id, version, _) =>
      var lane :- ConsumePaired(a, package.manifest.message, package.recipientCopy.binding.declarations);
      Success((D.AdmissionBasis.ExpressLane(id, version), lane))
    case Standing(version) => Success((D.AcceptedRelationship(version), None))
    case SenderLane(id, version) =>
      var lane :- ConsumeSenderLane(c, package, now);
      Success((D.AdmissionBasis.ExpressLane(id, version), Some(lane)))
  }

  /** The conversation the package joins: the retained one, or a new one between the two personas. */
  function DirectConversation(c: Context, actor: Identity, destination: Identity, m: G.Manifest): Fallible<Conversation> {
    var scope :- MakeScope(actor, destination);
    BindSubject(if m.conversation in c.conversations then c.conversations[m.conversation] else New(m.conversation, scope),
                m.subject)
  }

  function DirectPolicies(c: Context, actor: Identity, m: G.Manifest, current: Conversation): Fallible<G.Observed> {
    if m.conversation in c.conversations then G.Policies(Graph(c), m, actor)
    else if m.sources != [] then Failure(PolicyUnresolved)
    else Success(map[m.conversation := current.revision])
  }

  /** The receiver may answer, unless they have blocked or revoked the sender. */
  function Received(c: Context, current: Conversation, destination: Identity, message: MessageId): Fallible<Conversation> {
    if c.receiverContact.Some? && ReplyRestricted(c.receiverContact.value) then Success(current)
    else Receive(current, destination, message, if c.receiverContact.Some? then c.receiverContact.value.epoch else 0)
  }

  /** Build the route, the record and the delivery through their checked constructors. */
  function Deliver(
    c: Context, actor: Identity, package: D.Package, current: Conversation, destination: Identity,
    route: Fallible<D.Route>, admission: D.AdmissionBasis, lane: Option<L.Lane>, policies: G.Observed, now: Time)
    : Fallible<Draft>
  {
    var m := package.manifest;
    var conversation :- Received(c, current, destination, m.message);
    var receiving :- route;
    var record :- D.NewRecord(D.Record(receiving, package.senderRecovery.sender, m, actor, admission, now));
    var delivery :- D.NewDelivery(record, package);
    Success(Draft(Committed(m.message), Some(conversation), Some(delivery), lane, None, policies))
  }

  function DirectRelationship(c: Context, package: D.Package): nat {
    if c.contact.Some? then c.contact.value.reference else package.recipientCopy.binding.relationship
  }

  /** The checks of the direct route, up to the source graph. */
  function DirectPreparation(c: Context, actor: Identity, key: KeyRef, alias: AliasId, package: D.Package, now: Time)
    : Fallible<(Conversation, Identity, G.Observed)>
  {
    if c.routed.None? || c.routed.value.alias.id != alias then Failure(Unauthorized)
    else
      var m := package.manifest;
      var destination := c.routed.value.alias.owner;
      var current :- DirectConversation(c, actor, destination, m);
      var other :- Other(current.scope, actor);
      if other != destination || m.message in c.messages then Failure(Conflict)
      else
        var _ :- D.ValidatePrepared(package, actor, key, destination, DirectRelationship(c, package), c.custodyKey, now);
        var policies :- DirectPolicies(c, actor, m, current);
        Success((current, destination, policies))
  }

  function DirectSend(
    c: Context, actor: Identity, key: KeyRef, alias: AliasId, package: D.Package, a: Admission.Authorization, now: Time)
    : Fallible<Draft>
  {
    var (current, destination, policies) :- DirectPreparation(c, actor, key, alias, package, now);
    var (admission, lane) :- DirectAdmission(c, alias, package, a, now);
    Deliver(c, actor, package, current, destination, D.Delivered(a, package.manifest.message), admission, lane, policies, now)
  }

  // ---- the answer route ----

  /** An answer's admission; here the recorded version is the lane's version after it is spent. */
  function AdmitMessage(c: Context, r: Relationship, actor: Identity, destination: Identity, package: D.Package, now: Time)
    : Fallible<(D.AdmissionBasis, Option<L.Lane>)>
  {
    var b := package.recipientCopy.binding;
    var answer := AnswerBasis(c, r, package.manifest.conversation, actor, destination);
    if r.state.Accepted? then Success((D.AcceptedRelationship(r.version), None))
    else if b.capability.None? && answer.Some? then Success((answer.value, None))
    else if c.lane.None? || !c.lane.value.grant.subject.Native? then Failure(Unauthorized)
    else
      var lane := c.lane.value;
      var evidence := L.NativeEvidence(lane.grant.subject.handle);
      if L.Authorizes(lane, actor, destination, b.capability, b.declarations, evidence, now).Failure?
      then Failure(Unauthorized)
      else match L.Consume(lane, package.manifest.message, b.capability, b.declarations, evidence, now)
        case Failure(_) => Failure(Unauthorized)
        case Success((next, seen)) =>
          if seen then Failure(Conflict)
          else Success((D.AdmissionBasis.ExpressLane(next.grant.id, next.version), Some(next)))
  }

  /** Who an answer goes to and by which relationship, once nothing forbids answering. */
  function AnswerPreparation(c: Context, actor: Identity, key: KeyRef, alias: AliasId, package: D.Package, now: Time)
    : Fallible<(Conversation, Identity, Relationship)>
  {
    var m := package.manifest;
    if m.message in c.messages then Failure(Conflict)
    else
      var own :- Owned(c, m.conversation, actor);
      var current :- BindSubject(own, m.subject);
      var destination :- Other(current.scope, actor);
      if c.routed.None? || c.routed.value.alias.id != alias || c.routed.value.alias.owner != destination
      then Failure(Unauthorized)
      else if c.contact.None? || AnswerBasis(c, c.contact.value, m.conversation, actor, destination).None?
      then Failure(Unauthorized)
      else if A.CheckConversation(c.routed.value.alias, actor, m.conversation, now).Failure? then Failure(Unauthorized)
      else
        var r :- Contact(c, actor, destination, Some(m.conversation), now);
        var _ :- D.ValidatePrepared(package, actor, key, destination, r.reference, c.custodyKey, now);
        Success((current, destination, r))
  }

  function AnswerSend(c: Context, actor: Identity, key: KeyRef, alias: AliasId, package: D.Package, now: Time): Fallible<Draft> {
    var m := package.manifest;
    var (current, destination, r) :- AnswerPreparation(c, actor, key, alias, package, now);
    var (admission, lane) :- AdmitMessage(c, r, actor, destination, package, now);
    var policies :- G.Policies(Graph(c), m, actor);
    Deliver(c, actor, package, current, destination,
            D.NativeRoute(c.routed.value.alias, actor, m.conversation, m.message, admission, now),
            admission, lane, policies, now)
  }

  // ---- reads ----

  function StateOf(c: Context, source: MessageId, actor: Identity, now: Time): SourceState {
    if source !in c.messages || Owned(c, c.messages[source].manifest.conversation, actor).Failure? then Denied
    else if (source, actor) in c.retained && now < c.retained[(source, actor)] then Available
    else Gone
  }

  function FetchMessage(c: Context, message: MessageId, actor: Identity, now: Time): Response {
    match StateOf(c, message, actor, now)
    case Denied => AccessDenied
    case Gone => NotRetained
    case Available => if c.fetchedCopy.Some? then MessageIs(c.messages[message], c.fetchedCopy.value) else NotRetained
  }

  function AssessManifest(c: Context, m: G.Manifest, actor: Identity, now: Time): Fallible<Response> {
    var own :- Owned(c, m.conversation, actor);
    var destination :- Other(own.scope, actor);
    match G.Policies(Graph(c), m, actor)
    case Failure(e) => Success(Assessed(Failure(e), []))
    case Success(_) =>
      Success(Assessed(Success(()), seq(|m.sources|, i requires 0 <= i < |m.sources| =>
                                        StateOf(c, m.sources[i].message, destination, now))))
  }

  function ResolveSource(c: Context, s: G.Selection, actor: Identity, now: Time): Fallible<Response> {
    match StateOf(c, s.message, actor, now)
    case Denied => Success(AccessDenied)
    case Gone => Success(NotRetained)
    case Available =>
      if !G.Fits(s, c.messages[s.message].manifest) then Failure(Invalid)
      else Success(FetchMessage(c, s.message, actor, now))
  }

  function Unexpired(mailbox: seq<(nat, D.Record, Time)>, now: Time): seq<(nat, D.Record)> {
    if mailbox == [] then []
    else (if now < mailbox[0].2 then [(mailbox[0].0, mailbox[0].1)] else []) + Unexpired(mailbox[1..], now)
  }

  // ---- the dispatch ----

  function Reading(response: Response): Draft {
    Draft(response, None, None, None, None, map[])
  }

  function SendDraft(c: Context, content: Content, alias: AliasId, package: D.Package, now: Time): Fallible<Draft> {
    match DirectAuthority(c, content.persona, alias, package, now)
    case Some(a) => DirectSend(c, content.persona, content.key, alias, package, a, now)
    case None =>
      if content.command.SendToAlias? then Failure(Unauthorized)
      else AnswerSend(c, content.persona, content.key, alias, package, now)
  }

  function CreateDraft(c: Context, actor: Identity, id: ConversationId, other: Identity, subject: nat, now: Time): Fallible<Draft> {
    var _ :- Contact(c, actor, other, None, now);
    if id in c.conversations then Failure(Conflict)
    else
      var scope :- MakeScope(actor, other);
      var conversation :- BindSubject(New(id, scope), Some(subject));
      Success(Draft(ConversationIs(conversation), Some(conversation), None, None, None, map[]))
  }

  function Prepare(c: Context, content: Content, now: Time): Fallible<Draft> {
    var actor := content.persona;
    match content.command
    case ReceivingRoutes(messages) =>
      if |messages| > MAX_ROUTE_QUERY then Failure(Invalid)
      else Success(Reading(Routes(c.receivingRoutes, c.senderScopes)))
    case Mailbox(after) =>
      Success(Reading(Entries(Unexpired(c.mailbox, now),
                              if c.mailbox == [] then after else c.mailbox[|c.mailbox| - 1].0)))
    case Create(id, other, subject) => CreateDraft(c, actor, id, other, subject, now)
    case ChangePolicy(id, revision, action) =>
      var own :- Owned(c, id, actor);
      var next :- Conversations.Change(own, actor, revision, action);
      Success(Draft(ConversationIs(next), Some(next), None, None, None, map[id := next.revision]))
    case Policy(id) =>
      var own :- Owned(c, id, actor);
      Success(Reading(ConversationIs(own)))
    case Assess(m) =>
      var response :- AssessManifest(c, m, actor, now);
      Success(Reading(response))
    case Send(alias, package) => SendDraft(c, content, alias, package, now)
    case SendToAlias(alias, package) => SendDraft(c, content, alias, package, now)
    case Fetch(message) => Success(Reading(FetchMessage(c, message, actor, now)))
    case Resolve(s) =>
      var response :- ResolveSource(c, s, actor, now);
      Success(Reading(response))
    case DeleteCopies(id) =>
      var _ :- Owned(c, id, actor);
      Success(Draft(CopiesDeleted, None, None, None, Some(id), map[]))
  }

  /** The only combinations of local results that make a change; any other mixture is refused. */
  function Assemble(d: Draft): Fallible<Option<Change>> {
    match (d.delivery, d.conversation, d.deleted, d.lane)
    case (Some(delivery), Some(conversation), None, lane) =>
      var t :- D.NewTransition(conversation, delivery, lane);
      Success(Some(DeliveryChange(t)))
    case (None, Some(conversation), None, None) => Success(Some(ConversationChange(conversation)))
    case (None, None, Some(id), None) => Success(Some(DeleteChange(id)))
    case (None, None, None, None) => Success(None)
    case _ => Failure(Invalid)
  }

  /** What is made of a prepared draft: one change, and one receipt for a mutation. */
  function Concluded(content: Content, d: Draft, now: Time): Fallible<Decision> {
    var change :- Assemble(d);
    var action := Audit(content.command);
    Success(Decision(d.response,
                     if action.None? || change.None? then None
                     else Some(Effects(change.value,
                                       Receipt(content.persona, content.key, action.value, content, d.response, now, d.policies)))))
  }

  function Execute(content: Content, c: Context, now: Time): Fallible<Decision> {
    var d :- Prepare(c, content, now);
    Concluded(content, d, now)
  }

  function Authenticate(r: Request, c: Context, now: Time): Fallible<()> {
    match c.authority.personaKey(r.content.product, r.content.persona, r.content.key, now)
    case None => Failure(Unauthorized)
    case Some(key) =>
      if r.content.product == "" || r.content.account == 0 || r.content.persona == 0 || r.content.operation == 0
      then Failure(Invalid)
      else if !c.authority.signedBy(r, key) then Failure(Unauthorized)
      else Success(())
  }

  predicate OutcomeFits(content: Content, outcome: Response) {
    match (content.command, outcome)
    case (Create(id, _, _), ConversationIs(c)) => c.id == id && Contains(c.scope, content.persona)
    case (ChangePolicy(id, _, _), ConversationIs(c)) => c.id == id && Contains(c.scope, content.persona)
    case (Send(_, p), Committed(id)) => p.manifest.message == id
    case (SendToAlias(_, p), Committed(id)) => p.manifest.message == id
    case (DeleteCopies(_), CopiesDeleted) => true
    case (_, Refused(operation, digest, _)) =>
      Audit(content.command).Some? && operation == content.operation && digest == content
    case _ => false
  }

  function Replay(content: Content, c: Context): Fallible<Option<Decision>> {
    if c.prior.None? then Success(None)
    else
      var prior := c.prior.value;
      if || prior.digest != content || Audit(content.command) != Some(prior.action)
         || prior.actor != content.persona || prior.key != content.key
      then Failure(Conflict)
      else if !OutcomeFits(content, prior.outcome) then Failure(Invalid)
      else Success(Some(Decision(prior.outcome, None)))
  }

  function Refusal(content: Content, action: AuditAction, reason: CorrespondenceError, now: Time): Decision {
    var response := Refused(content.operation, content, reason);
    Decision(response, Some(Effects(RefusalRecorded,
                                    Receipt(content.persona, content.key, action, content, response, now, map[]))))
  }

  function Decide(r: Request, c: Context, now: Time): Fallible<Decision> {
    var _ :- Authenticate(r, c, now);
    var replayed :- Replay(r.content, c);
    if replayed.Some? then Success(replayed.value)
    else match Execute(r.content, c, now)
      case Success(d) => Success(d)
      case Failure(reason) =>
        if reason.PolicyUnresolved? || reason.Unavailable? || Audit(r.content.command).None? then Failure(reason)
        else Success(Refusal(r.content, Audit(r.content.command).value, reason, now))
  }

  // ---- the records a context is loaded from ----

  /** Maps are keyed by their entity's own id and every record has passed its own validator. */
  predicate Loaded(c: Context) {
    && (forall id :: id in c.conversations ==> c.conversations[id].id == id && Conversations.Accepts(c.conversations[id]))
    && (forall id :: id in c.messages ==> c.messages[id].manifest.message == id)
    && (c.lane.Some? ==> L.ValidLane(c.lane.value))
    && (c.routed.Some? ==> A.Accepts(c.routed.value.alias) && P.LanesValid(c.routed.value.alias.permission))
  }

  /** Manifests cannot name an empty message. */
  predicate ValidCommand(command: Command) {
    command.Send? || command.SendToAlias? ==> command.package.manifest.message != 0
  }

  // ---- once the checks pass, building a delivery cannot fail, and what it builds is coherent ----

  /** The context a delivery may not contradict. */
  predicate Extends(c: Context, t: D.Transition) {
    && t.delivery.record.manifest.message !in c.messages
    && (t.conversation.id in c.conversations ==>
          var before := c.conversations[t.conversation.id];
          && t.conversation.scope == before.scope && t.conversation.policy == before.policy
          && t.conversation.revision == before.revision && t.conversation.proposer == before.proposer
          && (before.subject.Some? ==> t.conversation.subject == before.subject))
    && (t.conversation.id !in c.conversations ==>
          && t.delivery.record.manifest.sources == []
          && t.conversation.policy == AcrossRelationships && t.conversation.revision == 0 && t.conversation.proposer == None)
    && Conversations.Accepts(t.conversation)
    && (t.lane.Some? <==> t.delivery.record.admission.ExpressLane?)
  }

  /** What a delivery leaves its receiver to answer by. The conversation remembers this message as the last its receiver
      got, at the epoch of the receiver's own contact (0 without one), and forgets nobody else's; but a receiver who has
      blocked or revoked the sender gets nothing to answer by. */
  predicate Remembers(c: Context, t: D.Transition) {
    var route := t.delivery.record.receiving;
    var former := if t.conversation.id in c.conversations then c.conversations[t.conversation.id].received else map[];
    match c.receiverContact
    case None => RememberedAs(former, t.conversation.received, route, 0)
    case Some(r) =>
      if r.state == RelationshipState.Blocked || r.state == Revoked then t.conversation.received == former
      else RememberedAs(former, t.conversation.received, route, r.epoch)
  }

  predicate RememberedAs(
    former: map<Identity, Conversations.Received>, received: map<Identity, Conversations.Received>, route: D.Route, epoch: U64)
  {
    && received.Keys == former.Keys + {route.recipient}
    && received[route.recipient].message == route.message && received[route.recipient].epoch == epoch
    && forall other :: other in former && other != route.recipient ==> received[other] == former[other]
  }

  /** The conversation a package may join: its own id and subject, between its own two personas. */
  predicate Joins(c: Context, current: Conversation, m: G.Manifest, actor: Identity, destination: Identity) {
    && current.id == m.conversation && current.subject == m.subject && Conversations.Accepts(current)
    && Other(current.scope, actor) == Success(destination)
    && (if m.conversation in c.conversations
        then var before := c.conversations[m.conversation];
             current == before.(subject := m.subject) && (before.subject.Some? ==> current == before)
        else && m.sources == [] && current.received == map[]
             && current.policy == AcrossRelationships && current.revision == 0 && current.proposer == None)
  }

  /** The route this delivery needs: its message, its conversation, its people, its moment. */
  predicate RouteFor(route: D.Route, m: G.Manifest, actor: Identity, destination: Identity, admission: D.AdmissionBasis, now: Time) {
    && route.transport == D.Native && route.message == m.message && route.conversation == m.conversation
    && route.sender == actor && route.recipient == destination && route.at == now
    && D.BasisMatches(route, admission)
  }

  lemma ReceivingCannotFail(
    c: Context, current: Conversation, m: G.Manifest, actor: Identity, destination: Identity)
    requires Joins(c, current, m, actor, destination) && m.message != 0
    ensures Received(c, current, destination, m.message).Success?
    ensures var next := Received(c, current, destination, m.message).value;
            && next == current.(received := next.received) && Conversations.Accepts(next)
  {
  }

  /** The conversation a delivery writes, over the records alone. */
  lemma ReceivingRemembers(
    c: Context, current: Conversation, actor: Identity, destination: Identity, delivery: D.Delivery, lane: Option<L.Lane>)
    requires Joins(c, current, delivery.record.manifest, actor, destination)
    requires delivery.record.receiving.message == delivery.record.manifest.message
    requires delivery.record.receiving.recipient == destination
    requires Received(c, current, destination, delivery.record.manifest.message).Success?
    ensures Remembers(c, D.Transition(Received(c, current, destination, delivery.record.manifest.message).value, delivery, lane))
  {
  }

  lemma RecordingCannotFail(
    package: D.Package, actor: Identity, key: KeyRef, destination: Identity, relationship: nat,
    custody: Option<D.EndpointKey>, route: D.Route, admission: D.AdmissionBasis, now: Time)
    requires D.ValidatePrepared(package, actor, key, destination, relationship, custody, now).Success?
    requires RouteFor(route, package.manifest, actor, destination, admission, now)
    ensures var record := D.Record(route, package.senderRecovery.sender, package.manifest, actor, admission, now);
            D.NewRecord(record) == Success(record)
            && D.NewDelivery(record, package) == Success(D.Delivery(record, package))
  {
  }

  /** A prepared package, recorded on its own route in its own conversation, is coherent. */
  lemma PreparedIsCoherent(
    package: D.Package, actor: Identity, key: KeyRef, destination: Identity, relationship: nat,
    custody: Option<D.EndpointKey>, route: D.Route, admission: D.AdmissionBasis, now: Time, conversation: Conversation,
    lane: Option<L.Lane>)
    requires D.ValidatePrepared(package, actor, key, destination, relationship, custody, now).Success?
    requires RouteFor(route, package.manifest, actor, destination, admission, now) && package.manifest.message != 0
    requires conversation.id == package.manifest.conversation && conversation.subject == package.manifest.subject
    requires Other(conversation.scope, actor) == Success(destination)
    ensures var record := D.Record(route, package.senderRecovery.sender, package.manifest, actor, admission, now);
            var t := D.Transition(conversation, D.Delivery(record, package), lane);
            D.Coherent(t) && D.NewTransition(conversation, D.Delivery(record, package), lane) == Success(t)
  {
    assert package.senderCopy.binding.(recipient := destination) == package.recipientCopy.binding;
  }

  lemma BuildingCannotFail(
    c: Context, actor: Identity, key: KeyRef, relationship: nat, package: D.Package, current: Conversation,
    destination: Identity, route: D.Route, admission: D.AdmissionBasis, lane: Option<L.Lane>, policies: G.Observed, now: Time)
    requires package.manifest.message != 0 && package.manifest.message !in c.messages
    requires D.ValidatePrepared(package, actor, key, destination, relationship, c.custodyKey, now).Success?
    requires Joins(c, current, package.manifest, actor, destination)
    requires RouteFor(route, package.manifest, actor, destination, admission, now)
    requires lane.Some? <==> admission.ExpressLane?
    ensures var d := Deliver(c, actor, package, current, destination, Success(route), admission, lane, policies, now);
            && d.Success?
            && d.value.response == Committed(package.manifest.message)
            && d.value.delivery.Some? && d.value.conversation.Some? && d.value.deleted.None?
            && d.value.lane == lane && d.value.policies == policies
            && (var t := D.Transition(d.value.conversation.value, d.value.delivery.value, lane);
                && Assemble(d.value) == Success(Some(DeliveryChange(t)))
                && D.Coherent(t) && Extends(c, t) && Remembers(c, t)
                && t.delivery == D.Delivery(D.Record(route, package.senderRecovery.sender, package.manifest, actor, admission, now),
                                            package))
  {
    ReceivingCannotFail(c, current, package.manifest, actor, destination);
    RecordingCannotFail(package, actor, key, destination, relationship, c.custodyKey, route, admission, now);
    var conversation := Received(c, current, destination, package.manifest.message).value;
    PreparedIsCoherent(package, actor, key, destination, relationship, c.custodyKey, route, admission, now, conversation, lane);
    var delivery := D.Delivery(D.Record(route, package.senderRecovery.sender, package.manifest, actor, admission, now), package);
    assert Deliver(c, actor, package, current, destination, Success(route), admission, lane, policies, now) ==
           Success(Draft(Committed(package.manifest.message), Some(conversation), Some(delivery), lane, None, policies));
    ExtendsContext(c, current, package.manifest, actor, destination, conversation, delivery, lane);
    ReceivingRemembers(c, current, actor, destination, delivery, lane);
  }

  lemma ExtendsContext(
    c: Context, current: Conversation, m: G.Manifest, actor: Identity, destination: Identity,
    conversation: Conversation, delivery: D.Delivery, lane: Option<L.Lane>)
    requires Joins(c, current, m, actor, destination) && m.message !in c.messages
    requires conversation == current.(received := conversation.received) && Conversations.Accepts(conversation)
    requires delivery.record.manifest == m && (lane.Some? <==> delivery.record.admission.ExpressLane?)
    ensures Extends(c, D.Transition(conversation, delivery, lane))
  {
  }

  /** A direct authority is an admission of this very message: nothing stands in its way, its basis is a live
      permission, and it names the alias, the people, the conversation and the moment truly. A sender's own lane
      is spent only when the signed package names it; a paired lane is the alias's own and needs no such mention. */
  lemma DirectAuthorityIsFaithful(c: Context, persona: Identity, alias: AliasId, package: D.Package, at: Time)
    requires Loaded(c) && DirectAuthority(c, persona, alias, package, at).Some?
    ensures var a := DirectAuthority(c, persona, alias, package, at).value;
            var facts := AdmissionFacts(c, c.routed.value, persona, package, at);
            && Admission.Unobstructed(facts, persona, at) && Admission.Live(facts, persona, at, a.basis)
            && Admission.Faithful(facts, persona, at, a)
    ensures var a := DirectAuthority(c, persona, alias, package, at).value;
            && c.routed.Some? && c.routed.value.alias.id == alias
            && a.sender == persona != 0 && a.recipient == c.routed.value.alias.owner != 0 && a.sender != a.recipient
            && a.conversation == package.manifest.conversation && a.authorizedAt == at && a.alias == alias
            && (a.basis.PairedSender? <==> a.paired.Some?)
            && (a.basis.SenderLane? ==> c.lane.Some? && c.lane.value.grant.id == a.basis.id
                                        && c.lane.value.version == a.basis.version
                                        && package.recipientCopy.binding.capability == Some(a.basis.id))
            && (a.paired.Some? ==> L.ValidLane(a.paired.value.0) && a.paired.value.0.grant.id == a.basis.id
                                   && a.paired.value.0.version == a.basis.version
                                   && c.routed.value.alias.permission.state.Senders?
                                   && a.paired.value.0 in c.routed.value.alias.permission.state.lanes)
            && (a.basis.SenderLane? || a.basis.PairedSender? ==> a.basis.id != 0)
  {
    Admission.AuthorizationIsSound(AdmissionFacts(c, c.routed.value, persona, package, at), at);
  }

  /** The lane a direct delivery writes: none unless the admission is an express lane, and then the lane
      the authorization rests on, spent by this very message, with the version recorded before spending. */
  lemma DirectLane(c: Context, actor: Identity, alias: AliasId, package: D.Package, now: Time)
    requires Loaded(c)
    requires DirectAuthority(c, actor, alias, package, now).Some?
    requires DirectAdmission(c, alias, package, DirectAuthority(c, actor, alias, package, now).value, now).Success?
    ensures var a := DirectAuthority(c, actor, alias, package, now).value;
            var (admission, lane) := DirectAdmission(c, alias, package, a, now).value;
            && (lane.Some? <==> admission.ExpressLane?)
            && (a.paired.Some? ==> lane.Some? && D.Spends(a.paired.value.0, lane.value, package.manifest.message)
                                   && L.Advances(a.paired.value.0, lane.value, package.manifest.message, now))
            && (a.basis.SenderLane? ==> c.lane.Some? && lane.Some? && D.Spends(c.lane.value, lane.value, package.manifest.message))
            && (lane.Some? ==> L.ValidLane(lane.value) && admission.lane == lane.value.grant.id
                               && CheckedNext(admission.version) == Some(lane.value.version))
  {
    DirectAuthorityIsFaithful(c, actor, alias, package, now);
    var a := DirectAuthority(c, actor, alias, package, now).value;
    var m, b := package.manifest.message, package.recipientCopy.binding;
    if a.basis.PairedSender? {
      var (lane, evidence) := a.paired.value;
      L.ConsumeIsOneStep(lane, m, Some(lane.grant.id), b.declarations, evidence, a.authorizedAt);
    } else if a.basis.SenderLane? {
      L.ConsumeIsOneStep(c.lane.value, m, b.capability, b.declarations, Evidence(c).value, now);
    }
  }

  lemma DirectPreparationJoins(c: Context, actor: Identity, key: KeyRef, alias: AliasId, package: D.Package, now: Time)
    requires Loaded(c) && DirectPreparation(c, actor, key, alias, package, now).Success?
    ensures var (current, destination, policies) := DirectPreparation(c, actor, key, alias, package, now).value;
            && destination == c.routed.value.alias.owner && package.manifest.message !in c.messages
            && Joins(c, current, package.manifest, actor, destination)
            && D.ValidatePrepared(package, actor, key, destination, DirectRelationship(c, package), c.custodyKey, now).Success?
  {
  }

  lemma DirectRoute(c: Context, actor: Identity, alias: AliasId, package: D.Package, now: Time)
    requires Loaded(c) && package.manifest.message != 0
    requires DirectAuthority(c, actor, alias, package, now).Some?
    requires DirectAdmission(c, alias, package, DirectAuthority(c, actor, alias, package, now).value, now).Success?
    ensures var a := DirectAuthority(c, actor, alias, package, now).value;
            var admission := DirectAdmission(c, alias, package, a, now).value.0;
            var route := D.Delivered(a, package.manifest.message);
            && route.Success?
            && RouteFor(route.value, package.manifest, actor, c.routed.value.alias.owner, admission, now)
            && route.value.alias == alias && route.value.provenance == D.AliasPermission(a.basis)
  {
    DirectAuthorityIsFaithful(c, actor, alias, package, now);
  }

  /** What a finished draft delivers. */
  predicate Delivers(c: Context, d: Draft, actor: Identity, alias: AliasId, package: D.Package, now: Time) {
    && d.response == Committed(package.manifest.message)
    && d.delivery.Some? && d.conversation.Some? && d.deleted.None?
    && d.delivery.value.package == package
    && (var t := D.Transition(d.conversation.value, d.delivery.value, d.lane);
        && Assemble(d) == Success(Some(DeliveryChange(t)))
        && D.Coherent(t) && Extends(c, t) && Remembers(c, t)
        && t.delivery.record.author == actor && t.delivery.record.committedAt == now
        && t.delivery.record.receiving.alias == alias
        && c.routed.Some? && t.delivery.record.receiving.recipient == c.routed.value.alias.owner)
  }

  /** The direct route fails only in its explicit checks, never in building what they allow; and what it
      builds is coherent, new to the store, and pays with a lane exactly when its admission names one. */
  lemma DirectSendExactly(c: Context, actor: Identity, key: KeyRef, alias: AliasId, package: D.Package, now: Time)
    requires Loaded(c) && package.manifest.message != 0
    requires DirectAuthority(c, actor, alias, package, now).Some?
    ensures var a := DirectAuthority(c, actor, alias, package, now).value;
            var d := DirectSend(c, actor, key, alias, package, a, now);
            && (d.Success? <==> && DirectPreparation(c, actor, key, alias, package, now).Success?
                                && DirectAdmission(c, alias, package, a, now).Success?)
            && (d.Success? ==> && Delivers(c, d.value, actor, alias, package, now)
                               && d.value.delivery.value.record.receiving.provenance == D.AliasPermission(a.basis))
  {
    var a := DirectAuthority(c, actor, alias, package, now).value;
    if DirectPreparation(c, actor, key, alias, package, now).Success? && DirectAdmission(c, alias, package, a, now).Success? {
      var (current, destination, policies) := DirectPreparation(c, actor, key, alias, package, now).value;
      var (admission, lane) := DirectAdmission(c, alias, package, a, now).value;
      DirectPreparationJoins(c, actor, key, alias, package, now);
      DirectRoute(c, actor, alias, package, now);
      DirectLane(c, actor, alias, package, now);
      BuildingCannotFail(c, actor, key, DirectRelationship(c, package), package, current, destination,
                         D.Delivered(a, package.manifest.message).value, admission, lane, policies, now);
    }
  }

  /** The lane this delivery spends, when it was admitted on a sender paired with the alias. */
  predicate SpendsPaired(c: Context, route: D.Route, lane: Option<L.Lane>, id: LaneId, version: U64, revision: U64) {
    && c.routed.Some? && route.alias == c.routed.value.alias.id && route.recipient == c.routed.value.alias.owner
    && revision == c.routed.value.alias.permission.revision && c.routed.value.alias.permission.state.Senders?
    && lane.Some? && L.ValidLane(lane.value)
    && exists before :: && before in c.routed.value.alias.permission.state.lanes
                        && before.grant.id == id && before.version == version
                        && D.Spends(before, lane.value, route.message)
                        && L.Advances(before, lane.value, route.message, route.at)
  }

  lemma PairedAdmission(c: Context, actor: Identity, alias: AliasId, package: D.Package, now: Time)
    requires Loaded(c) && package.manifest.message != 0
    requires DirectAuthority(c, actor, alias, package, now).Some?
    requires DirectAuthority(c, actor, alias, package, now).value.basis.PairedSender?
    requires DirectAdmission(c, alias, package, DirectAuthority(c, actor, alias, package, now).value, now).Success?
    ensures var a := DirectAuthority(c, actor, alias, package, now).value;
            var route := D.Delivered(a, package.manifest.message);
            && route.Success?
            && SpendsPaired(c, route.value, DirectAdmission(c, alias, package, a, now).value.1,
                            a.basis.id, a.basis.version, a.basis.permissionRevision)
  {
    var a := DirectAuthority(c, actor, alias, package, now).value;
    DirectAuthorityIsFaithful(c, actor, alias, package, now);
    DirectLane(c, actor, alias, package, now);
    DirectRoute(c, actor, alias, package, now);
    assert a.paired.value.0 in c.routed.value.alias.permission.state.lanes;
  }

  /** What a delivery records and spends agree: on a paired sender, one lane of the very permission it was
      admitted on, spent by this message. */
  predicate PaysAsRecorded(c: Context, route: D.Route, lane: Option<L.Lane>) {
    match route.provenance
    case AliasPermission(PairedSender(id, version, revision)) => SpendsPaired(c, route, lane, id, version, revision)
    case _ => true
  }

  /** A direct draft is on the route its authorization made, records its admission, writes the lane that pays, and observes
      what the source graph let it reuse. */
  lemma DirectSendParts(c: Context, actor: Identity, key: KeyRef, alias: AliasId, package: D.Package,
                        a: Admission.Authorization, now: Time)
    requires DirectSend(c, actor, key, alias, package, a, now).Success?
    ensures var d := DirectSend(c, actor, key, alias, package, a, now).value;
            && DirectAdmission(c, alias, package, a, now).Success? && D.Delivered(a, package.manifest.message).Success?
            && d.delivery.Some? && d.lane == DirectAdmission(c, alias, package, a, now).value.1
            && d.delivery.value.record.receiving == D.Delivered(a, package.manifest.message).value
            && d.delivery.value.record.admission == DirectAdmission(c, alias, package, a, now).value.0
            && (if package.manifest.conversation in c.conversations
                then G.Policies(Graph(c), package.manifest, actor) == Success(d.policies)
                else d.policies == map[package.manifest.conversation := 0])
  {
  }

  lemma RoutePays(c: Context, actor: Identity, alias: AliasId, package: D.Package, now: Time)
    requires Loaded(c) && package.manifest.message != 0
    requires DirectAuthority(c, actor, alias, package, now).Some?
    requires DirectAdmission(c, alias, package, DirectAuthority(c, actor, alias, package, now).value, now).Success?
    ensures var a := DirectAuthority(c, actor, alias, package, now).value;
            var route := D.Delivered(a, package.manifest.message);
            route.Success? && PaysAsRecorded(c, route.value, DirectAdmission(c, alias, package, a, now).value.1)
  {
    DirectRoute(c, actor, alias, package, now);
    if DirectAuthority(c, actor, alias, package, now).value.basis.PairedSender? { PairedAdmission(c, actor, alias, package, now); }
  }

  lemma DirectSendPays(c: Context, actor: Identity, key: KeyRef, alias: AliasId, package: D.Package, now: Time)
    requires Loaded(c) && package.manifest.message != 0
    requires DirectAuthority(c, actor, alias, package, now).Some?
    requires DirectSend(c, actor, key, alias, package, DirectAuthority(c, actor, alias, package, now).value, now).Success?
    ensures var d := DirectSend(c, actor, key, alias, package, DirectAuthority(c, actor, alias, package, now).value, now).value;
            d.delivery.Some? && PaysAsRecorded(c, d.delivery.value.record.receiving, d.lane)
  {
    DirectSendParts(c, actor, key, alias, package, DirectAuthority(c, actor, alias, package, now).value, now);
    RoutePays(c, actor, alias, package, now);
  }

  // ---- the answer route ----

  lemma AnswerLane(c: Context, r: Relationship, actor: Identity, destination: Identity, package: D.Package, now: Time)
    requires Loaded(c) && AdmitMessage(c, r, actor, destination, package, now).Success?
    ensures var (admission, lane) := AdmitMessage(c, r, actor, destination, package, now).value;
            && (lane.Some? <==> admission.ExpressLane?)
            && (lane.Some? ==> && c.lane.Some? && L.ValidLane(lane.value)
                               && D.Spends(c.lane.value, lane.value, package.manifest.message)
                               && admission.lane == lane.value.grant.id && admission.version == lane.value.version)
  {
    if c.lane.Some? && c.lane.value.grant.subject.Native? {
      var b, evidence := package.recipientCopy.binding, L.NativeEvidence(c.lane.value.grant.subject.handle);
      if L.Consume(c.lane.value, package.manifest.message, b.capability, b.declarations, evidence, now).Success? {
        L.ConsumeIsOneStep(c.lane.value, package.manifest.message, b.capability, b.declarations, evidence, now);
      }
    }
  }

  lemma AnswerPreparationJoins(c: Context, actor: Identity, key: KeyRef, alias: AliasId, package: D.Package, now: Time)
    requires Loaded(c) && package.manifest.message != 0
    requires AnswerPreparation(c, actor, key, alias, package, now).Success?
    ensures var (current, destination, r) := AnswerPreparation(c, actor, key, alias, package, now).value;
            && c.routed.Some? && c.routed.value.alias.id == alias && c.routed.value.alias.owner == destination
            && package.manifest.message !in c.messages && package.manifest.conversation in c.conversations
            && Joins(c, current, package.manifest, actor, destination)
            && D.ValidatePrepared(package, actor, key, destination, r.reference, c.custodyKey, now).Success?
            && forall admission ::
                 var route := D.NativeRoute(c.routed.value.alias, actor, package.manifest.conversation,
                                            package.manifest.message, admission, now);
                 && route.Success? && RouteFor(route.value, package.manifest, actor, destination, admission, now)
                 && route.value.alias == alias && route.value.provenance == D.NativeAdmission(admission)
  {
  }

  /** The answer route fails only in its checks, in admission or in the source graph; and what it builds
      is coherent, joins a retained conversation, and records the lane's version after spending. */
  lemma AnswerSendExactly(c: Context, actor: Identity, key: KeyRef, alias: AliasId, package: D.Package, now: Time)
    requires Loaded(c) && package.manifest.message != 0
    ensures var d := AnswerSend(c, actor, key, alias, package, now);
            && (d.Success? <==>
                  && AnswerPreparation(c, actor, key, alias, package, now).Success?
                  && (var (current, destination, r) := AnswerPreparation(c, actor, key, alias, package, now).value;
                      AdmitMessage(c, r, actor, destination, package, now).Success?)
                  && G.Policies(Graph(c), package.manifest, actor).Success?)
            && (d.Success? ==>
                  && Delivers(c, d.value, actor, alias, package, now)
                  && package.manifest.conversation in c.conversations
                  && (var record := d.value.delivery.value.record;
                      record.receiving.provenance == D.NativeAdmission(record.admission))
                  && (d.value.lane.Some? ==> d.value.delivery.value.record.admission.version == d.value.lane.value.version))
  {
    if AnswerPreparation(c, actor, key, alias, package, now).Success? {
      var (current, destination, r) := AnswerPreparation(c, actor, key, alias, package, now).value;
      AnswerPreparationJoins(c, actor, key, alias, package, now);
      if AdmitMessage(c, r, actor, destination, package, now).Success? && G.Policies(Graph(c), package.manifest, actor).Success? {
        var (admission, lane) := AdmitMessage(c, r, actor, destination, package, now).value;
        AnswerLane(c, r, actor, destination, package, now);
        var route := D.NativeRoute(c.routed.value.alias, actor, package.manifest.conversation, package.manifest.message, admission, now);
        BuildingCannotFail(c, actor, key, r.reference, package, current, destination, route.value, admission, lane,
                           G.Policies(Graph(c), package.manifest, actor).value, now);
      }
    }
  }

  /** An answer's draft is on its alias's own route as it stands, records its admission, writes the lane that pays, and
      observes what the source graph let it reuse. */
  lemma AnswerSendParts(c: Context, actor: Identity, key: KeyRef, alias: AliasId, package: D.Package, now: Time)
    requires AnswerSend(c, actor, key, alias, package, now).Success?
    ensures var d := AnswerSend(c, actor, key, alias, package, now).value;
            && c.routed.Some? && c.contact.Some? && d.delivery.Some?
            && d.delivery.value.record.receiving.aliasRevision == c.routed.value.alias.revision
            && AdmitMessage(c, c.contact.value, actor, c.routed.value.alias.owner, package, now) ==
               Success((d.delivery.value.record.admission, d.lane))
            && G.Policies(Graph(c), package.manifest, actor) == Success(d.policies)
  {
  }

  /** A send takes the direct route whenever the address admits it on its own permission; if it does not, it can still be an
      answer, unless it was meant for the address alone. */
  lemma SendTakesItsRoute(c: Context, content: Content, alias: AliasId, package: D.Package, now: Time)
    ensures match DirectAuthority(c, content.persona, alias, package, now)
            case Some(a) =>
              SendDraft(c, content, alias, package, now) == DirectSend(c, content.persona, content.key, alias, package, a, now)
            case None =>
              SendDraft(c, content, alias, package, now) ==
              (match content.command
               case SendToAlias(_, _) => Failure(Unauthorized)
               case _ => AnswerSend(c, content.persona, content.key, alias, package, now))
  {
  }

  // ---- decisions ----

  predicate IsMutation(command: Command) {
    Audit(command).Some?
  }

  /** A draft that delivers concludes in that delivery. */
  lemma SendConcludes(c: Context, content: Content, d: Draft, now: Time)
    requires content.command.Send? || content.command.SendToAlias?
    requires Delivers(c, d, content.persona, content.command.alias, content.command.package, now)
    ensures var r := Concluded(content, d, now);
            && r.Success? && r.value.response == d.response && r.value.effects.Some?
            && r.value.effects.value.receipt.outcome == d.response
            && r.value.effects.value.change == DeliveryChange(D.Transition(d.conversation.value, d.delivery.value, d.lane))
  {
  }

  /** Whichever route a send takes, what it prepares delivers. */
  lemma SendDraftDelivers(c: Context, content: Content, alias: AliasId, package: D.Package, now: Time)
    requires Loaded(c) && package.manifest.message != 0 && SendDraft(c, content, alias, package, now).Success?
    ensures Delivers(c, SendDraft(c, content, alias, package, now).value, content.persona, alias, package, now)
  {
    if DirectAuthority(c, content.persona, alias, package, now).Some? {
      DirectSendExactly(c, content.persona, content.key, alias, package, now);
    } else {
      AnswerSendExactly(c, content.persona, content.key, alias, package, now);
    }
  }

  /** Executing a send concludes the very draft its route made. */
  lemma SendExecutes(content: Content, c: Context, now: Time)
    requires Loaded(c) && ValidCommand(content.command)
    requires content.command.Send? || content.command.SendToAlias?
    requires Execute(content, c, now).Success?
    ensures var d := SendDraft(c, content, content.command.alias, content.command.package, now);
            && d.Success? && Delivers(c, d.value, content.persona, content.command.alias, content.command.package, now)
            && Execute(content, c, now).value.response == d.value.response
            && Execute(content, c, now).value.effects.Some?
            && Execute(content, c, now).value.effects.value.receipt.outcome == d.value.response
            && Execute(content, c, now).value.effects.value.change ==
               DeliveryChange(D.Transition(d.value.conversation.value, d.value.delivery.value, d.value.lane))
  {
    SendDraftDelivers(c, content, content.command.alias, content.command.package, now);
    SendConcludes(c, content, SendDraft(c, content, content.command.alias, content.command.package, now).value, now);
  }

  lemma SendIsOneDelivery(content: Content, c: Context, now: Time)
    requires Loaded(c) && ValidCommand(content.command)
    requires content.command.Send? || content.command.SendToAlias?
    requires Execute(content, c, now).Success?
    ensures var d := Execute(content, c, now).value;
            && d.response == Committed(content.command.package.manifest.message)
            && d.effects.Some? && d.effects.value.change.DeliveryChange?
            && (var t := d.effects.value.change.transition;
                && t.delivery.package == content.command.package
                && D.Coherent(t) && Extends(c, t) && Remembers(c, t)
                && t.delivery.record.author == content.persona && t.delivery.record.committedAt == now
                && t.delivery.record.receiving.alias == content.command.alias)
  {
    SendExecutes(content, c, now);
  }

  lemma DirectDeliveryPays(content: Content, c: Context, now: Time)
    requires Loaded(c) && ValidCommand(content.command)
    requires content.command.Send? || content.command.SendToAlias?
    requires DirectAuthority(c, content.persona, content.command.alias, content.command.package, now).Some?
    requires Execute(content, c, now).Success?
    ensures var e := Execute(content, c, now).value.effects;
            && e.Some? && e.value.change.DeliveryChange?
            && PaysAsRecorded(c, e.value.change.transition.delivery.record.receiving, e.value.change.transition.lane)
  {
    SendExecutes(content, c, now);
    DirectSendPays(c, content.persona, content.key, content.command.alias, content.command.package, now);
  }

  /** Every delivery decided pays as it records, whichever route it took. */
  lemma DeliveryPaysAsRecorded(content: Content, c: Context, now: Time)
    requires Loaded(c) && ValidCommand(content.command)
    requires content.command.Send? || content.command.SendToAlias?
    requires Execute(content, c, now).Success?
    ensures var e := Execute(content, c, now).value.effects;
            && e.Some? && e.value.change.DeliveryChange?
            && PaysAsRecorded(c, e.value.change.transition.delivery.record.receiving, e.value.change.transition.lane)
  {
    var alias, package := content.command.alias, content.command.package;
    if DirectAuthority(c, content.persona, alias, package, now).Some? {
      DirectDeliveryPays(content, c, now);
    } else {
      SendIsOneDelivery(content, c, now);
      AnswerSendExactly(c, content.persona, content.key, alias, package, now);
    }
  }

  /** Neither route drafts anything the alias does not accept. */
  lemma DraftsOnlyAccepted(c: Context, content: Content, alias: AliasId, package: D.Package, now: Time)
    requires Loaded(c) && package.manifest.message != 0 && SendDraft(c, content, alias, package, now).Success?
    ensures && c.routed.Some? && c.routed.value.alias.id == alias
            && A.AcceptsMail(c.routed.value.alias, content.persona, package.manifest.conversation, now)
  {
    if DirectAuthority(c, content.persona, alias, package, now).Some? {
      DirectAuthorityIsFaithful(c, content.persona, alias, package, now);
    } else {
      AnswerSendExactly(c, content.persona, content.key, alias, package, now);
    }
  }

  /** On either route the alias itself accepts the sender in that conversation at that moment. */
  lemma DeliveryWasAccepted(content: Content, c: Context, now: Time)
    requires Loaded(c) && ValidCommand(content.command)
    requires content.command.Send? || content.command.SendToAlias?
    requires Execute(content, c, now).Success?
    ensures && c.routed.Some? && c.routed.value.alias.id == content.command.alias
            && A.AcceptsMail(c.routed.value.alias, content.persona, content.command.package.manifest.conversation, now)
    ensures var e := Execute(content, c, now).value.effects;
            && e.Some? && e.value.change.DeliveryChange?
            && var record := e.value.change.transition.delivery.record;
               && record.receiving.alias == content.command.alias && record.manifest == content.command.package.manifest
               && record.receiving.recipient == c.routed.value.alias.owner
               && record.author == content.persona && record.committedAt == now
  {
    SendExecutes(content, c, now);
    DraftsOnlyAccepted(c, content, content.command.alias, content.command.package, now);
  }

  /** No delivery reuses what the source graph forbids: in a retained conversation the whole ancestry is
      reusable there, and a conversation that does not exist yet is begun without sources. */
  lemma DeliveriesRespectPolicies(content: Content, c: Context, now: Time)
    requires Loaded(c) && ValidCommand(content.command)
    requires content.command.Send? || content.command.SendToAlias?
    requires Execute(content, c, now).Success?
    ensures var m := content.command.package.manifest;
            if m.conversation in c.conversations then G.Reusable(Graph(c), m, content.persona) else m.sources == []
  {
    var alias, package := content.command.alias, content.command.package;
    G.PoliciesExact(Graph(c), package.manifest, content.persona);
    if DirectAuthority(c, content.persona, alias, package, now).Some? {
      DirectSendRespects(c, content.persona, content.key, alias, package, now);
    } else {
      AnswerSendExactly(c, content.persona, content.key, alias, package, now);
    }
  }

  lemma DirectSendRespects(c: Context, actor: Identity, key: KeyRef, alias: AliasId, package: D.Package, now: Time)
    requires Loaded(c) && package.manifest.message != 0
    requires DirectAuthority(c, actor, alias, package, now).Some?
    requires DirectSend(c, actor, key, alias, package, DirectAuthority(c, actor, alias, package, now).value, now).Success?
    ensures if package.manifest.conversation in c.conversations
            then G.Policies(Graph(c), package.manifest, actor).Success? else package.manifest.sources == []
  {
    DirectSendExactly(c, actor, key, alias, package, now);
  }

  /** A change of its own kind, and an outcome that fits. */
  predicate ChangesOnce(content: Content, d: Decision) {
    && OutcomeFits(content, d.response) && d.effects.Some?
    && d.effects.value.receipt.outcome == d.response
    && match d.effects.value.change
       case ConversationChange(next) =>
         (content.command.Create? || content.command.ChangePolicy?) && next.id == content.command.id
       case DeliveryChange(_) => content.command.Send? || content.command.SendToAlias?
       case DeleteChange(id) => content.command == DeleteCopies(id)
       case RefusalRecorded => false
  }

  lemma SendChangesOnce(content: Content, c: Context, now: Time)
    requires Loaded(c) && ValidCommand(content.command) && Execute(content, c, now).Success?
    requires content.command.Send? || content.command.SendToAlias?
    ensures ChangesOnce(content, Execute(content, c, now).value)
  {
    SendExecutes(content, c, now);
  }

  lemma PolicyChangesOnce(content: Content, c: Context, now: Time)
    requires Loaded(c) && content.command.ChangePolicy? && Execute(content, c, now).Success?
    ensures ChangesOnce(content, Execute(content, c, now).value)
  {
    var id := content.command.id;
    OperationsKeepIdentity(c.conversations[id], content.persona, content.command.revision, content.command.action, None, 1, 0);
  }

  lemma CreateChangesOnce(content: Content, c: Context, now: Time)
    requires content.command.Create? && Execute(content, c, now).Success?
    ensures ChangesOnce(content, Execute(content, c, now).value)
  {
  }

  /** An executed mutation makes exactly one change, of its own kind, and its outcome fits its replay check. */
  lemma MutationChangesOnce(content: Content, c: Context, now: Time)
    requires Loaded(c) && ValidCommand(content.command) && Execute(content, c, now).Success?
    ensures Execute(content, c, now).value.effects.Some? <==> IsMutation(content.command)
    ensures IsMutation(content.command) ==> ChangesOnce(content, Execute(content, c, now).value)
  {
    match content.command
    case Send(_, _) => SendChangesOnce(content, c, now);
    case SendToAlias(_, _) => SendChangesOnce(content, c, now);
    case ChangePolicy(_, _, _) => PolicyChangesOnce(content, c, now);
    case Create(_, _, _) => CreateChangesOnce(content, c, now);
    case _ =>
  }

  /** A recorded refusal, and when there is one. */
  lemma RefusalsAreRecorded(r: Request, c: Context, now: Time)
    requires c.prior.None? && Authenticate(r, c, now).Success? && Execute(r.content, c, now).Failure?
    ensures var reason := Execute(r.content, c, now).error;
            if !IsMutation(r.content.command) || reason.PolicyUnresolved? || reason.Unavailable?
            then Decide(r, c, now) == Failure(reason)
            else && Decide(r, c, now) == Success(Refusal(r.content, Audit(r.content.command).value, reason, now))
                 && OutcomeFits(r.content, Decide(r, c, now).value.response)
  {
  }

  /** Every decided mutation leaves exactly one receipt of its own, for exactly one change of its own kind
      or one refusal; an unresolved policy or an unavailable custody key records nothing; reads never do. */
  lemma MutationsAreRecordedOnce(r: Request, c: Context, now: Time)
    requires Loaded(c) && ValidCommand(r.content.command) && c.prior.None?
    requires Authenticate(r, c, now).Success?
    ensures Decide(r, c, now).Success? && IsMutation(r.content.command) ==>
              var d := Decide(r, c, now).value;
              && d.effects.Some?
              && d.effects.value.receipt ==
                 Receipt(r.content.persona, r.content.key, Audit(r.content.command).value, r.content, d.response, now,
                         d.effects.value.receipt.policies)
              && OutcomeFits(r.content, d.response)
              && (d.effects.value.change.RefusalRecorded? <==> Execute(r.content, c, now).Failure?)
    ensures IsMutation(r.content.command) ==>
              (Decide(r, c, now).Failure? <==>
                 && Execute(r.content, c, now).Failure?
                 && (Execute(r.content, c, now).error.PolicyUnresolved? || Execute(r.content, c, now).error.Unavailable?))
    ensures !IsMutation(r.content.command) && Decide(r, c, now).Success? ==> Decide(r, c, now).value.effects.None?
  {
    if Execute(r.content, c, now).Success? {
      MutationChangesOnce(r.content, c, now);
      if IsMutation(r.content.command) { ExecutedReceipt(r.content, c, now); }
      assert Decide(r, c, now) == Execute(r.content, c, now);
    } else {
      RefusalsAreRecorded(r, c, now);
    }
  }

  lemma ExecutedReceipt(content: Content, c: Context, now: Time)
    requires Execute(content, c, now).Success? && Execute(content, c, now).value.effects.Some?
    ensures var d := Execute(content, c, now).value;
            && IsMutation(content.command)
            && d.effects.value.receipt ==
               Receipt(content.persona, content.key, Audit(content.command).value, content, d.response, now,
                       d.effects.value.receipt.policies)
  {
  }

  /** Exact replay: with a committed receipt on file, success or refusal, the same request gets the same
      response and no effects whatever else has changed, for exactly as long as it authenticates. */
  lemma ReplayReturnsResponse(r: Request, c: Context, now: Time, later: Context, again: Time)
    requires Loaded(c) && ValidCommand(r.content.command) && c.prior.None?
    requires Decide(r, c, now).Success? && Decide(r, c, now).value.effects.Some?
    requires later.prior == Some(Decide(r, c, now).value.effects.value.receipt)
    ensures Authenticate(r, later, again).Success? <==>
              Decide(r, later, again) == Success(Decision(Decide(r, c, now).value.response, None))
  {
    MutationsAreRecordedOnce(r, c, now);
  }

  // ---- the checks, over the records' own fields ----

  /** The actor takes part in this retained conversation. */
  predicate TakesPart(c: Context, id: ConversationId, actor: Identity) {
    id in c.conversations && (c.conversations[id].scope.low == actor || c.conversations[id].scope.high == actor)
  }

  /** The graph a manifest is checked against is the store's own: its conversations, and every message's manifest. */
  lemma GraphExactly(c: Context, id: MessageId)
    ensures Graph(c).conversations == c.conversations
    ensures id in Graph(c).messages <==> id in c.messages
    ensures id in c.messages ==> Graph(c).messages[id] == c.messages[id].manifest
  {
  }

  /** The message the receiver last got here, while their contact is the same one and in the same epoch. */
  lemma AnswerBasisExactly(
    c: Context, r: Relationship, id: ConversationId, actor: Identity, other: Identity, source: MessageId)
    ensures AnswerBasis(c, r, id, actor, other) == Some(D.ConversationReply(source)) <==>
              && r.sender == actor && r.recipient == other
              && id in c.conversations && actor in c.conversations[id].received
              && c.conversations[id].received[actor].message == source
              && c.conversations[id].received[actor].epoch == r.epoch
    ensures AnswerBasis(c, r, id, actor, other).Some? ==> AnswerBasis(c, r, id, actor, other).value.ConversationReply?
  {
  }

  /** Something to answer here, under the relationship's present epoch. */
  predicate MayAnswer(c: Context, r: Relationship, id: ConversationId, actor: Identity) {
    && id in c.conversations && actor in c.conversations[id].received
    && c.conversations[id].received[actor].epoch == r.epoch
  }

  /** A contact serves its own two people until it is blocked or revoked, and only while it is accepted, or there is
      something to answer, or a native lane between the same two is in force. */
  lemma ContactExactly(c: Context, actor: Identity, other: Identity, id: Option<ConversationId>, now: Time)
    ensures Contact(c, actor, other, id, now).Success? <==>
              && c.contact.Some?
              && var r := c.contact.value;
                 && r.sender == actor && r.recipient == other && r.state != RelationshipState.Blocked && r.state != Revoked
                 && (|| r.state == Accepted
                     || (id.Some? && MayAnswer(c, r, id.value, actor))
                     || (&& c.lane.Some? && c.lane.value.grant.sender == actor && c.lane.value.grant.recipient == other
                         && c.lane.value.grant.subject.Native? && Admission.InForce(c.lane.value, now)))
    ensures Contact(c, actor, other, id, now).Success? ==> c.contact == Some(Contact(c, actor, other, id, now).value)
  {
  }

  /** On what the direct route is open: the facts are the alias's own, the sender's contact and scope, what the package
      declares to its recipient, and whether the recipient is active and both sides are covered; and a sender's own lane
      counts only if the package names it. */
  lemma DirectAuthorityExactly(
    c: Context, persona: Identity, alias: AliasId, package: D.Package, at: Time, a: Admission.Authorization,
    facts: Admission.Context)
    requires c.routed.Some? && facts.alias == c.routed.value.alias && facts.senderScope == c.routed.value.senderScope
    requires facts.authentication == Admission.Authenticated(persona) && facts.relationship == c.contact
    requires facts.lane == c.lane && facts.declarations == package.recipientCopy.binding.declarations
    requires facts.laneEvidence == if c.contact == None then None else Some(L.NativeEvidence(c.contact.value.reference))
    requires facts.domainEvidence == None && !facts.reviewRequired && facts.conversation == package.manifest.conversation
    requires facts.covered <==>
               c.routed.value.recipientActive && c.routed.value.senderCovers(at) && c.routed.value.recipientCovers(at)
    ensures DirectAuthority(c, persona, alias, package, at) == Some(a) <==>
              && c.routed.value.alias.id == alias && Admission.Admit(facts, at) == Admission.Authorize(a)
              && (a.basis.SenderLane? ==> package.recipientCopy.binding.capability == Some(a.basis.id))
  {
    assert facts == AdmissionFacts(c, c.routed.value, persona, package, at);
  }

  /** The admission a direct delivery records names its basis, and a lane by the version it had before it is spent; a lane
      that has paid for this message already pays for nothing. */
  lemma DirectAdmissionExactly(c: Context, alias: AliasId, package: D.Package, a: Admission.Authorization, now: Time)
    ensures match a.basis
            case AliasLane(revision) =>
              DirectAdmission(c, alias, package, a, now) == Success((D.AdmissionBasis.AliasLane(alias, revision), None))
            case Standing(version) =>
              DirectAdmission(c, alias, package, a, now) == Success((D.AcceptedRelationship(version), None))
            case PairedSender(id, version, _) =>
              a.paired.Some? ==>
                (var (lane, evidence) := a.paired.value;
                 var spent := L.Consume(lane, package.manifest.message, Some(lane.grant.id),
                                        package.recipientCopy.binding.declarations, evidence, a.authorizedAt);
                 if spent.Success? && !spent.value.1
                 then DirectAdmission(c, alias, package, a, now) ==
                      Success((D.AdmissionBasis.ExpressLane(id, version), Some(spent.value.0)))
                 else DirectAdmission(c, alias, package, a, now) == Failure(Unauthorized))
            case SenderLane(id, version) =>
              if c.lane == None || c.contact == None
              then DirectAdmission(c, alias, package, a, now) == Failure(Unauthorized)
              else var spent := L.Consume(c.lane.value, package.manifest.message, package.recipientCopy.binding.capability,
                                          package.recipientCopy.binding.declarations,
                                          L.NativeEvidence(c.contact.value.reference), now);
                   DirectAdmission(c, alias, package, a, now) ==
                   (if spent.Failure? then Failure(Unauthorized)
                    else if spent.value.1 then Failure(Conflict)
                    else Success((D.AdmissionBasis.ExpressLane(id, version), Some(spent.value.0))))
  {
  }

  /** An answer rests on the accepted relationship, else on the message answered unless the package names a lane, else on
      its native lane; and a lane is recorded by the version it has after it is spent. */
  lemma AdmitMessageExactly(
    c: Context, r: Relationship, actor: Identity, destination: Identity, package: D.Package, now: Time)
    ensures var b := package.recipientCopy.binding;
            var id := package.manifest.conversation;
            var admitted := AdmitMessage(c, r, actor, destination, package, now);
            && (r.state == Accepted ==> admitted == Success((D.AcceptedRelationship(r.version), None)))
            && (r.state != Accepted && b.capability == None && r.sender == actor && r.recipient == destination
                && MayAnswer(c, r, id, actor) ==>
                  admitted == Success((D.ConversationReply(c.conversations[id].received[actor].message), None)))
            && (r.state != Accepted && admitted.Success? && admitted.value.1 == None ==>
                  b.capability == None && r.sender == actor && r.recipient == destination && MayAnswer(c, r, id, actor))
  {
  }

  lemma AnswerByLaneExactly(
    c: Context, r: Relationship, actor: Identity, destination: Identity, package: D.Package, now: Time)
    requires c.lane.Some? && c.lane.value.grant.subject.Native? && r.state != Accepted
    requires package.recipientCopy.binding.capability.Some?
    ensures var b := package.recipientCopy.binding;
            var evidence := L.NativeEvidence(c.lane.value.grant.subject.handle);
            var spent := L.Consume(c.lane.value, package.manifest.message, b.capability, b.declarations, evidence, now);
            AdmitMessage(c, r, actor, destination, package, now) ==
            (if L.Authorizes(c.lane.value, actor, destination, b.capability, b.declarations, evidence, now).Failure?
                || spent.Failure? then Failure(Unauthorized)
             else if spent.value.1 then Failure(Conflict)
             else Success((D.AdmissionBasis.ExpressLane(spent.value.0.grant.id, spent.value.0.version), Some(spent.value.0))))
  {
  }

  /** The conversation a direct package may join: any of these two people's that has no other subject, or a new one without
      sources. */
  lemma DirectPreparationExactly(c: Context, actor: Identity, key: KeyRef, alias: AliasId, package: D.Package, now: Time)
    requires Loaded(c) && c.routed.Some?
    ensures var m := package.manifest;
            var owner := c.routed.value.alias.owner;
            var relationship := if c.contact == None then package.recipientCopy.binding.relationship else c.contact.value.reference;
            DirectPreparation(c, actor, key, alias, package, now).Success? <==>
              && c.routed.value.alias.id == alias && actor != 0 && owner != 0 && actor != owner
              && m.subject.Some? && m.message !in c.messages
              && D.ValidatePrepared(package, actor, key, owner, relationship, c.custodyKey, now).Success?
              && (if m.conversation in c.conversations
                  then && TakesPart(c, m.conversation, actor) && TakesPart(c, m.conversation, owner)
                       && (c.conversations[m.conversation].subject == None || c.conversations[m.conversation].subject == m.subject)
                       && G.Policies(Graph(c), m, actor).Success?
                  else m.sources == [])
  {
  }

  /** An answer joins a conversation of its actor, at the address of the other side, who is not restricted there, with
      something to answer. */
  lemma AnswerPreparationExactly(c: Context, actor: Identity, key: KeyRef, alias: AliasId, package: D.Package, now: Time)
    ensures var m := package.manifest;
            AnswerPreparation(c, actor, key, alias, package, now).Success? <==>
              && m.message !in c.messages && TakesPart(c, m.conversation, actor)
              && m.subject.Some?
              && (c.conversations[m.conversation].subject == None || c.conversations[m.conversation].subject == m.subject)
              && c.routed.Some? && c.routed.value.alias.id == alias
              && TakesPart(c, m.conversation, c.routed.value.alias.owner) && c.routed.value.alias.owner != actor
              && A.AcceptsMail(c.routed.value.alias, actor, m.conversation, now)
              && c.contact.Some? && c.contact.value.sender == actor && c.contact.value.recipient == c.routed.value.alias.owner
              && c.contact.value.state != RelationshipState.Blocked && c.contact.value.state != Revoked
              && MayAnswer(c, c.contact.value, m.conversation, actor)
              && D.ValidatePrepared(package, actor, key, c.routed.value.alias.owner, c.contact.value.reference, c.custodyKey, now).Success?
  {
  }

  /** A persona opens a conversation with a contact, under a fresh id and a subject of its choice, open and unused. */
  lemma CreateExactly(content: Content, c: Context, now: Time)
    requires content.command.Create?
    ensures Execute(content, c, now).Success? <==>
              && Contact(c, content.persona, content.command.other, None, now).Success?
              && content.command.id !in c.conversations
              && content.persona != 0 && content.command.other != 0 && content.persona != content.command.other
    ensures Execute(content, c, now).Success? ==>
              && Execute(content, c, now).value.effects.Some?
              && Execute(content, c, now).value.effects.value.change.ConversationChange?
              && var made := Execute(content, c, now).value.effects.value.change.conversation;
                 && Execute(content, c, now).value.response == ConversationIs(made)
                 && made.id == content.command.id && made.subject == Some(content.command.subject)
                 && (made.scope.low == content.persona || made.scope.high == content.persona)
                 && (made.scope.low == content.command.other || made.scope.high == content.command.other)
                 && made.policy == AcrossRelationships && made.revision == 0 && made.proposer == None && made.received == map[]
  {
  }

  /** A policy command writes, answers and records the one change its participant may make. */
  lemma PolicyChangeExactly(content: Content, c: Context, now: Time)
    requires content.command.ChangePolicy?
    ensures var id := content.command.id;
            Execute(content, c, now).Success? <==>
              && TakesPart(c, id, content.persona)
              && Conversations.Change(c.conversations[id], content.persona, content.command.revision, content.command.action).Success?
    ensures Execute(content, c, now).Success? ==>
              && Execute(content, c, now).value.effects.Some?
              && Execute(content, c, now).value.effects.value.change.ConversationChange?
              && var next := Execute(content, c, now).value.effects.value.change.conversation;
                 && Conversations.Change(c.conversations[content.command.id], content.persona, content.command.revision,
                                         content.command.action) == Success(next)
                 && Execute(content, c, now).value.response == ConversationIs(next)
                 && Execute(content, c, now).value.effects.value.receipt.policies == map[content.command.id := next.revision]
  {
  }

  /** Whoever takes part may have the copies of a conversation deleted; nothing else changes. */
  lemma DeleteExactly(content: Content, c: Context, now: Time)
    requires content.command.DeleteCopies?
    ensures Execute(content, c, now).Success? <==> TakesPart(c, content.command.id, content.persona)
    ensures Execute(content, c, now).Success? ==>
              && Execute(content, c, now).value.response == CopiesDeleted
              && Execute(content, c, now).value.effects.Some?
              && Execute(content, c, now).value.effects.value.change == DeleteChange(content.command.id)
  {
  }

  // ---- reads, over the records' own fields ----

  /** A copy is there for a participant until its retention ends, and not a moment longer; to anybody else, and for a
      message that is not there, the answer is the same denial. */
  lemma StateExactly(c: Context, source: MessageId, actor: Identity, now: Time)
    ensures StateOf(c, source, actor, now) == Denied <==>
              !(source in c.messages && TakesPart(c, c.messages[source].manifest.conversation, actor))
    ensures StateOf(c, source, actor, now) == Available <==>
              && source in c.messages && TakesPart(c, c.messages[source].manifest.conversation, actor)
              && (source, actor) in c.retained && now < c.retained[(source, actor)]
  {
  }

  predicate Held(c: Context, source: MessageId, actor: Identity, now: Time) {
    && source in c.messages && TakesPart(c, c.messages[source].manifest.conversation, actor)
    && (source, actor) in c.retained && now < c.retained[(source, actor)]
  }

  /** What a reader is given: the message with its copy while it is held, the same denial whatever is withheld, and no
      source whose selection does not fit. */
  lemma FetchExactly(c: Context, message: MessageId, actor: Identity, now: Time)
    ensures FetchMessage(c, message, actor, now).MessageIs? <==> Held(c, message, actor, now) && c.fetchedCopy.Some?
    ensures FetchMessage(c, message, actor, now).MessageIs? ==>
              FetchMessage(c, message, actor, now) == MessageIs(c.messages[message], c.fetchedCopy.value)
    ensures FetchMessage(c, message, actor, now) == AccessDenied <==>
              !(message in c.messages && TakesPart(c, c.messages[message].manifest.conversation, actor))
    ensures FetchMessage(c, message, actor, now) in {AccessDenied, NotRetained}
            || FetchMessage(c, message, actor, now).MessageIs?
  {
  }

  lemma ResolveExactly(c: Context, s: G.Selection, actor: Identity, now: Time)
    ensures ResolveSource(c, s, actor, now) ==
            if Held(c, s.message, actor, now) && !G.Fits(s, c.messages[s.message].manifest) then Failure(Invalid)
            else Success(FetchMessage(c, s.message, actor, now))
  {
  }

  /** Assessing a manifest says whether it may be sent, and if so what of each source its receiver still has. */
  lemma AssessExactly(c: Context, m: G.Manifest, actor: Identity, now: Time)
    requires Loaded(c)
    ensures AssessManifest(c, m, actor, now).Success? <==> TakesPart(c, m.conversation, actor)
    ensures AssessManifest(c, m, actor, now).Success? ==>
              var assessed := AssessManifest(c, m, actor, now).value;
              var scope := c.conversations[m.conversation].scope;
              && assessed.Assessed?
              && (assessed.reuse.Success? <==> G.Policies(Graph(c), m, actor).Success?)
              && (assessed.reuse.Failure? ==>
                    assessed.sources == [] && G.Policies(Graph(c), m, actor) == Failure(assessed.reuse.error))
              && (assessed.reuse.Success? ==>
                    && |assessed.sources| == |m.sources|
                    && forall i :: 0 <= i < |m.sources| ==>
                         assessed.sources[i] ==
                         StateOf(c, m.sources[i].message, if actor == scope.low then scope.high else scope.low, now))
  {
  }

  /** The mailbox lists exactly the entries whose retention has not ended, in their order. */
  lemma {:induction false} UnexpiredExactly(mailbox: seq<(nat, D.Record, Time)>, rest: seq<(nat, D.Record, Time)>, now: Time)
    ensures Unexpired(mailbox + rest, now) == Unexpired(mailbox, now) + Unexpired(rest, now)
    ensures forall entry :: entry in Unexpired(mailbox, now) <==>
              exists i :: 0 <= i < |mailbox| && now < mailbox[i].2 && entry == (mailbox[i].0, mailbox[i].1)
  {
    if mailbox == [] {
      assert mailbox + rest == rest;
    } else {
      assert (mailbox + rest)[1..] == mailbox[1..] + rest;
      UnexpiredExactly(mailbox[1..], rest, now);
    }
  }

  /** Reading changes nothing and records nothing; a mailbox resumes after the last entry looked at, listed or not, and at
      most a hundred routes are asked about at once. */
  lemma ReadingsExactly(content: Content, c: Context, now: Time)
    ensures content.command.Mailbox? ==>
              && Execute(content, c, now).Success? && Execute(content, c, now).value.effects == None
              && Execute(content, c, now).value.response.Entries?
              && Execute(content, c, now).value.response.entries == Unexpired(c.mailbox, now)
              && Execute(content, c, now).value.response.nextAfter ==
                 (if |c.mailbox| == 0 then content.command.after else c.mailbox[|c.mailbox| - 1].0)
    ensures content.command.ReceivingRoutes? ==>
              Execute(content, c, now) ==
              (if |content.command.messages| <= 100 then Success(Decision(Routes(c.receivingRoutes, c.senderScopes), None))
               else Failure(Invalid))
    ensures content.command.Policy? ==>
              Execute(content, c, now) ==
              (if TakesPart(c, content.command.id, content.persona)
               then Success(Decision(ConversationIs(c.conversations[content.command.id]), None)) else Failure(Unauthorized))
    ensures content.command.Fetch? ==>
              Execute(content, c, now) == Success(Decision(FetchMessage(c, content.command.message, content.persona, now), None))
    ensures content.command.Resolve? ==>
              var resolved := ResolveSource(c, content.command.source, content.persona, now);
              && (Execute(content, c, now).Success? <==> resolved.Success?)
              && (resolved.Success? ==> Execute(content, c, now).value == Decision(resolved.value, None))
    ensures content.command.Assess? ==>
              var assessed := AssessManifest(c, content.command.manifest, content.persona, now);
              && (Execute(content, c, now).Success? <==> assessed.Success?)
              && (assessed.Success? ==> Execute(content, c, now).value == Decision(assessed.value, None))
  {
  }

  /** A request is taken from whoever holds the persona's current key, completely filled in. */
  lemma AuthenticateExactly(r: Request, c: Context, now: Time)
    ensures Authenticate(r, c, now).Success? <==>
              && r.content.product != "" && r.content.account != 0 && r.content.persona != 0 && r.content.operation != 0
              && var key := c.authority.personaKey(r.content.product, r.content.persona, r.content.key, now);
                 key.Some? && c.authority.signedBy(r, key.value)
  {
  }

  /** A receipt answers only the very request it was made for: the same content, persona, key and action, with an outcome of
      that command's own kind that names what the command named, or a refusal of this very content. */
  lemma ReplaysExactly(content: Content, c: Context)
    ensures c.prior == None ==> Replay(content, c) == Success(None)
    ensures c.prior.Some? ==>
              var prior := c.prior.value;
              var own := prior.digest == content && Audit(content.command) == Some(prior.action)
                         && prior.actor == content.persona && prior.key == content.key;
              && (!own ==> Replay(content, c) == Failure(Conflict))
              && (Replay(content, c).Success? <==> own && Answers(content, prior.outcome))
              && (Replay(content, c).Success? ==> Replay(content, c).value == Some(Decision(prior.outcome, None)))
  {
  }

  /** What a recorded outcome says of its command. */
  predicate Answers(content: Content, outcome: Response) {
    match outcome
    case ConversationIs(c) =>
      && (content.command.Create? || content.command.ChangePolicy?) && c.id == content.command.id
      && (c.scope.low == content.persona || c.scope.high == content.persona)
    case Committed(message) =>
      (content.command.Send? || content.command.SendToAlias?) && content.command.package.manifest.message == message
    case CopiesDeleted => content.command.DeleteCopies?
    case Refused(operation, digest, _) => IsMutation(content.command) && operation == content.operation && digest == content
    case _ => false
  }

  /** Which commands leave a receipt, and of what. */
  lemma AuditsExactly(command: Command)
    ensures IsMutation(command) <==>
              command.Create? || command.ChangePolicy? || command.Send? || command.SendToAlias? || command.DeleteCopies?
    ensures command.Create? ==> Audit(command) == Some(Created(command.id))
    ensures command.ChangePolicy? ==> Audit(command) == Some(PolicyChanged(command.id, command.revision, command.action))
    ensures command.Send? || command.SendToAlias? ==> Audit(command) == Some(Delivered(command.package.manifest.message))
    ensures command.DeleteCopies? ==> Audit(command) == Some(CopiesDeletedIn(command.id))
  {
  }
}
