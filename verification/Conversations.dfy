/** Conversations between two personas and their reuse policy
    (crates/cs-mail-correspondence/src/policy.rs). */
module Conversations {
  import opened Wrappers
  import opened Primitives

  /** AdmissionRefused, which these use cases never produce themselves, is left out. */
  datatype CorrespondenceError =
    | Invalid | Unauthorized | Conflict | PolicyRestricted | PolicyUnresolved | Unavailable

  /** An unordered pair of distinct, nonzero personas, kept sorted. */
  datatype PersonaPair = PersonaPair(low: Identity, high: Identity)
  type Scope = p: PersonaPair | 0 < p.low < p.high witness PersonaPair(1, 2)

  function MakeScope(a: Identity, b: Identity): Result<Scope, CorrespondenceError> {
    if a == 0 || b == 0 || a == b then Failure(Invalid)
    else if a < b then Success(PersonaPair(a, b))
    else Success(PersonaPair(b, a))
  }

  predicate Contains(s: Scope, actor: Identity) {
    actor == s.low || actor == s.high
  }

  function Other(s: Scope, actor: Identity): Result<Identity, CorrespondenceError> {
    if actor == s.low then Success(s.high)
    else if actor == s.high then Success(s.low)
    else Failure(Unauthorized)
  }

  datatype ReusePolicy = AcrossRelationships | OriginatingOnly
  datatype PolicyAction = Restrict | ProposeRelaxation | ApproveRelaxation
  datatype Received = Received(message: MessageId, epoch: U64)

  datatype Conversation = Conversation(
    subject: Option<nat>, id: ConversationId, scope: Scope, policy: ReusePolicy, revision: U64,
    proposer: Option<Identity>, received: map<Identity, Received>)

  /** The stored-record validator. */
  predicate Accepts(c: Conversation) {
    && (forall actor :: actor in c.received ==> Contains(c.scope, actor) && c.received[actor].message != 0)
    && (c.proposer.Some? ==>
          Contains(c.scope, c.proposer.value) && c.policy == OriginatingOnly && c.revision != 0)
  }

  function New(id: ConversationId, scope: Scope): Conversation {
    Conversation(None, id, scope, AcrossRelationships, 0, None, map[])
  }

  function BindSubject(c: Conversation, subject: Option<nat>): Result<Conversation, CorrespondenceError> {
    if subject.None? then Failure(Invalid)
    else if c.subject.Some? && c.subject != subject then Failure(Conflict)
    else Success(c.(subject := subject))
  }

  function ReplySource(c: Conversation, actor: Identity, epoch: U64): Option<MessageId> {
    if actor in c.received && c.received[actor].epoch == epoch then Some(c.received[actor].message) else None
  }

  function Receive(c: Conversation, recipient: Identity, message: MessageId, epoch: U64)
    : Result<Conversation, CorrespondenceError>
  {
    if !Contains(c.scope, recipient) || message == 0 then Failure(Invalid)
    else Success(c.(received := c.received[recipient := Received(message, epoch)]))
  }

  predicate Permits(c: Conversation, destination: Scope) {
    c.policy == AcrossRelationships || c.scope == destination
  }

  function Change(c: Conversation, actor: Identity, revision: U64, action: PolicyAction)
    : Result<Conversation, CorrespondenceError>
  {
    if !Contains(c.scope, actor) then Failure(Unauthorized)
    else if revision != c.revision then Failure(Conflict)
    else
      var next :- match action
        case Restrict => Success(c.(policy := OriginatingOnly, proposer := None))
        case ProposeRelaxation =>
          if c.policy == OriginatingOnly && c.proposer.None? then Success(c.(proposer := Some(actor))) else Failure(Conflict)
        case ApproveRelaxation =>
          if c.proposer.Some? && c.proposer.value != actor
          then Success(c.(policy := AcrossRelationships, proposer := None))
          else Failure(Conflict);
      match CheckedNext(revision)
      case None => Failure(Invalid)
      case Some(n) => Success(next.(revision := n))
  }

  /** Every operation keeps the identity and the pair, and the record stays storable. */
  lemma OperationsKeepIdentity(
    c: Conversation, actor: Identity, revision: U64, action: PolicyAction, subject: Option<nat>, message: MessageId, epoch: U64)
    requires Accepts(c)
    ensures Change(c, actor, revision, action).Success? ==>
              var n := Change(c, actor, revision, action).value;
              Accepts(n) && n.id == c.id && n.scope == c.scope && n.revision == c.revision + 1 && n.subject == c.subject
    ensures BindSubject(c, subject).Success? ==>
              var n := BindSubject(c, subject).value;
              Accepts(n) && n == c.(subject := subject) && (c.subject.Some? ==> n == c)
    ensures Receive(c, actor, message, epoch).Success? ==>
              var n := Receive(c, actor, message, epoch).value;
              Accepts(n) && n == c.(received := n.received) && ReplySource(n, actor, epoch) == Some(message)
  {
  }

  /** When a policy change succeeds and what it leaves: a restriction closes the conversation at once and drops any
      proposal; only a closed conversation without a proposal takes one, under its actor's name; and only the other side's
      approval opens it again. Every one of them moves the revision on, and nothing else. */
  lemma ChangeSucceedsExactly(c: Conversation, actor: Identity, revision: U64, action: PolicyAction)
    ensures Change(c, actor, revision, action).Success? <==>
              && (actor == c.scope.low || actor == c.scope.high) && revision == c.revision < U64_MAX
              && (action == ProposeRelaxation ==> c.policy == OriginatingOnly && c.proposer == None)
              && (action == ApproveRelaxation ==> c.proposer.Some? && c.proposer != Some(actor))
    ensures Change(c, actor, revision, action).Success? ==>
              var n := Change(c, actor, revision, action).value;
              && n.id == c.id && n.scope == c.scope && n.subject == c.subject && n.received == c.received
              && n.revision == revision + 1
              && match action
                 case Restrict => n.policy == OriginatingOnly && n.proposer == None
                 case ProposeRelaxation => n.policy == c.policy && n.proposer == Some(actor)
                 case ApproveRelaxation => n.policy == AcrossRelationships && n.proposer == None
  {
  }

  /** Where a conversation's messages may go: anywhere while it is open, and to its own pair always. */
  lemma PermitsExactly(c: Conversation, destination: Scope)
    ensures Permits(c, destination) <==>
              c.policy != OriginatingOnly || (c.scope.low == destination.low && c.scope.high == destination.high)
  {
  }

  /** Two personas make a conversation in either order, unless one is missing or they are the same; each sees the other
      one, and nobody else sees anyone. */
  lemma PairsExactly(a: Identity, b: Identity, actor: Identity)
    ensures MakeScope(a, b).Success? <==> a != 0 && b != 0 && a != b
    ensures MakeScope(a, b) == MakeScope(b, a)
    ensures MakeScope(a, b).Success? ==>
              && Other(MakeScope(a, b).value, a) == Success(b)
              && (Other(MakeScope(a, b).value, actor).Success? <==> actor == a || actor == b)
              && (Contains(MakeScope(a, b).value, actor) <==> actor == a || actor == b)
  {
  }

  /** A subject is bound once and then only matched; receiving names a participant's last message and its epoch, which
      that participant may answer while the epoch stands. */
  lemma RecordsExactly(c: Conversation, subject: Option<nat>, recipient: Identity, message: MessageId, epoch: U64, asked: U64)
    ensures BindSubject(c, subject).Success? <==> subject.Some? && (c.subject == None || c.subject == subject)
    ensures BindSubject(c, subject).Success? ==> BindSubject(c, subject).value == c.(subject := subject)
    ensures Receive(c, recipient, message, epoch).Success? <==>
              (recipient == c.scope.low || recipient == c.scope.high) && message != 0
    ensures Receive(c, recipient, message, epoch).Success? ==>
              var n := Receive(c, recipient, message, epoch).value;
              && n == c.(received := n.received) && n.received.Keys == c.received.Keys + {recipient}
              && (forall other :: other in c.received && other != recipient ==> n.received[other] == c.received[other])
              && n.received[recipient].message == message && n.received[recipient].epoch == epoch
              && ReplySource(n, recipient, asked) == (if asked == epoch then Some(message) else None)
    ensures forall source :: ReplySource(c, recipient, asked) == Some(source) <==>
              recipient in c.received && c.received[recipient].epoch == asked && c.received[recipient].message == source
  {
  }

  datatype PolicyStep = PolicyStep(actor: Identity, revision: U64, action: PolicyAction)

  function Run(c: Conversation, steps: seq<PolicyStep>): Conversation
    decreases |steps|
  {
    if steps == [] then c
    else
      var s := steps[0];
      var next := Change(c, s.actor, s.revision, s.action);
      Run(if next.Success? then next.value else c, steps[1..])
  }

  /** Nobody relaxes a restricted conversation alone: while every step of a run is one participant's,
      a restriction with no proposal by the other side still stands at the end. */
  lemma {:induction false} NoUnilateralRelaxation(c: Conversation, steps: seq<PolicyStep>, actor: Identity)
    requires Accepts(c) && c.policy == OriginatingOnly
    requires c.proposer.None? || c.proposer.value == actor
    requires forall i :: 0 <= i < |steps| ==> steps[i].actor == actor
    ensures Run(c, steps).policy == OriginatingOnly && Run(c, steps).scope == c.scope
    ensures Run(c, steps).proposer.None? || Run(c, steps).proposer.value == actor
    decreases |steps|
  {
    if steps != [] {
      var next := Change(c, actor, steps[0].revision, steps[0].action);
      NoUnilateralRelaxation(if next.Success? then next.value else c, steps[1..], actor);
    }
  }
}
