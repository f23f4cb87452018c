/** The correspondence store over whole runs: each transaction loads one snapshot, decides once, and
    persists the change and the receipt together (crates/cs-mail-application/src/correspondence.rs,
    CorrespondenceStore). */
module CorrespondenceStore {
  import opened Wrappers
  import opened Primitives
  import opened Conversations
  import D = Deliveries
  import C = Correspondence

  datatype Store = Store(
    conversations: map<ConversationId, Conversation>, messages: map<MessageId, D.Record>,
    receipts: map<(nat, nat), C.Receipt>)

  const EMPTY := Store(map[], map[], map[])

  /** The request, and the facts other services own at that moment. */
  datatype Input = Input(request: C.Request, facts: C.Context, now: Time)

  function Key(content: C.Content): (nat, nat) {
    (content.account, content.operation)
  }

  function Snapshot(st: Store, input: Input): C.Context {
    input.facts.(
    conversations := st.conversations, messages := st.messages,
    prior := if Key(input.request.content) in st.receipts then Some(st.receipts[Key(input.request.content)]) else None)
  }

  function Decide(st: Store, input: Input): C.Fallible<C.Decision> {
    C.Decide(input.request, Snapshot(st, input), input.now)
  }

  function Apply(st: Store, change: C.Change): Store {
    match change
    case ConversationChange(c) => st.(conversations := st.conversations[c.id := c])
    case DeliveryChange(t) =>
      st.(conversations := st.conversations[t.conversation.id := t.conversation],
          messages := st.messages[t.delivery.record.manifest.message := t.delivery.record])
    case DeleteChange(_) => st
    case RefusalRecorded => st
  }

  function After(st: Store, input: Input): Store {
    match Decide(st, input)
    case Failure(_) => st
    case Success(d) =>
      if d.effects.None? then st
      else
        var next := Apply(st, d.effects.value.change);
        next.(receipts := next.receipts[Key(input.request.content) := d.effects.value.receipt])
  }

  function Run(st: Store, inputs: seq<Input>): Store
    decreases |inputs|
  {
    if inputs == [] then st else Run(After(st, inputs[0]), inputs[1..])
  }

  /** The facts loaded beside the store's own rows have passed their validators too. */
  predicate ValidInput(input: Input) {
    && C.ValidCommand(input.request.content.command)
    && C.Loaded(input.facts.(conversations := map[], messages := map[]))
  }

  /** A message sits in a retained conversation between its author and its recipient, under its own
      subject, on a route that says the same. */
  predicate Placed(st: Store, r: D.Record) {
    && r.manifest.conversation in st.conversations
    && (var c := st.conversations[r.manifest.conversation];
        && Other(c.scope, r.author) == Success(r.receiving.recipient)
        && c.subject == r.manifest.subject && c.subject.Some?)
    && r.receiving.message == r.manifest.message && r.receiving.conversation == r.manifest.conversation
    && r.receiving.sender == r.author && r.receiving.at == r.committedAt
    && D.BasisMatches(r.receiving, r.admission)
  }

  predicate Inv(st: Store) {
    && (forall id :: id in st.conversations ==> st.conversations[id].id == id && Conversations.Accepts(st.conversations[id]))
    && (forall id :: id in st.messages ==> st.messages[id].manifest.message == id && Placed(st, st.messages[id]))
  }

  /** How one retained conversation may look after a transaction. */
  predicate Evolves(before: Conversation, after: Conversation) {
    && after.id == before.id && after.scope == before.scope && before.revision <= after.revision
    && (before.subject.Some? ==> after.subject == before.subject)
  }

  lemma SnapshotIsLoaded(st: Store, input: Input)
    requires Inv(st) && ValidInput(input)
    ensures C.Loaded(Snapshot(st, input))
  {
  }

  /** A message carries a subject, for no conversation binds an absent one. */
  lemma DeliveredSubject(content: C.Content, c: C.Context, now: Time)
    requires C.Loaded(c) && C.ValidCommand(content.command)
    requires content.command.Send? || content.command.SendToAlias?
    requires C.Execute(content, c, now).Success?
    ensures content.command.package.manifest.subject.Some?
  {
    C.SendIsOneDelivery(content, c, now);
  }

  /** At most one conversation moves, within its identity, and at most one message is added, placed and new. */
  predicate Small(conversations: map<ConversationId, Conversation>, messages: map<MessageId, D.Record>, change: C.Change) {
    match change
    case ConversationChange(c) => Moves(conversations, c)
    case DeliveryChange(t) =>
      && t.delivery.record.manifest.message !in messages
      && Moves(conversations, t.conversation) && t.conversation.id == t.delivery.record.manifest.conversation
      && D.Coherent(t) && t.conversation.subject.Some?
    case _ => true
  }

  predicate Moves(conversations: map<ConversationId, Conversation>, c: Conversation) {
    Conversations.Accepts(c) && (c.id in conversations ==> Evolves(conversations[c.id], c))
  }

  lemma ExtendingMoves(c: C.Context, t: D.Transition)
    requires (forall id :: id in c.conversations ==> c.conversations[id].id == id) && C.Extends(c, t)
    ensures t.delivery.record.manifest.message !in c.messages && Moves(c.conversations, t.conversation)
  {
  }

  lemma DeliveredIsSmall(content: C.Content, c: C.Context, now: Time)
    requires C.Loaded(c) && C.ValidCommand(content.command) && C.Execute(content, c, now).Success?
    requires content.command.Send? || content.command.SendToAlias?
    ensures C.Execute(content, c, now).value.effects.Some?
    ensures Small(c.conversations, c.messages, C.Execute(content, c, now).value.effects.value.change)
  {
    C.SendIsOneDelivery(content, c, now);
    DeliveredSubject(content, c, now);
    ExtendingMoves(c, C.Execute(content, c, now).value.effects.value.change.transition);
  }

  lemma PolicyIsSmall(content: C.Content, c: C.Context, now: Time)
    requires C.Loaded(c) && content.command.ChangePolicy? && C.Execute(content, c, now).Success?
    ensures C.Execute(content, c, now).value.effects.Some?
    ensures Small(c.conversations, c.messages, C.Execute(content, c, now).value.effects.value.change)
  {
    OperationsKeepIdentity(c.conversations[content.command.id], content.persona, content.command.revision,
                           content.command.action, None, 1, 0);
  }

  lemma ExecutedChangeIsSmall(content: C.Content, c: C.Context, now: Time)
    requires C.Loaded(c) && C.ValidCommand(content.command) && C.Execute(content, c, now).Success?
    requires C.Execute(content, c, now).value.effects.Some?
    ensures Small(c.conversations, c.messages, C.Execute(content, c, now).value.effects.value.change)
  {
    match content.command
    case Send(_, _) => DeliveredIsSmall(content, c, now);
    case SendToAlias(_, _) => DeliveredIsSmall(content, c, now);
    case ChangePolicy(_, _, _) => PolicyIsSmall(content, c, now);
    case Create(_, _, _) => CreatedIsSmall(content, c, now);
    case _ =>
  }

  lemma CreatedIsSmall(content: C.Content, c: C.Context, now: Time)
    requires content.command.Create? && C.Execute(content, c, now).Success?
    ensures C.Execute(content, c, now).value.effects.Some?
    ensures Small(c.conversations, c.messages, C.Execute(content, c, now).value.effects.value.change)
  {
  }

  lemma ChangeIsSmall(st: Store, input: Input, d: C.Decision)
    requires Inv(st) && ValidInput(input)
    requires Decide(st, input) == Success(d) && d.effects.Some?
    ensures Small(st.conversations, st.messages, d.effects.value.change)
  {
    var content, c := input.request.content, Snapshot(st, input);
    SnapshotIsLoaded(st, input);
    if C.Execute(content, c, input.now).Success? { ExecutedChangeIsSmall(content, c, input.now); }
  }

  /** Rewriting one conversation within its identity displaces no message. */
  lemma EvolutionKeepsPlaces(st: Store, c: Conversation)
    requires Inv(st) && Moves(st.conversations, c)
    ensures Inv(st.(conversations := st.conversations[c.id := c]))
  {
    var next := st.(conversations := st.conversations[c.id := c]);
    forall id | id in next.messages ensures Placed(next, next.messages[id]) {
      assert Placed(st, st.messages[id]);
    }
  }

  lemma DeliveryKeepsPlaces(st: Store, t: D.Transition)
    requires Inv(st) && Small(st.conversations, st.messages, C.DeliveryChange(t))
    ensures Inv(Apply(st, C.DeliveryChange(t)))
  {
    EvolutionKeepsPlaces(st, t.conversation);
    var moved, next := st.(conversations := st.conversations[t.conversation.id := t.conversation]), Apply(st, C.DeliveryChange(t));
    forall id | id in next.messages ensures Placed(next, next.messages[id]) {
      if id in st.messages && id != t.delivery.record.manifest.message { assert Placed(moved, moved.messages[id]); }
    }
  }

  /** The store keeps what it had: conversations within their identity, messages to the letter. */
  predicate Keeps(before: Store, after: Store) {
    && (forall id :: id in before.conversations ==>
          id in after.conversations && Evolves(before.conversations[id], after.conversations[id]))
    && (forall id :: id in before.messages ==> id in after.messages && after.messages[id] == before.messages[id])
    && (forall k :: k in before.receipts ==> k in after.receipts && after.receipts[k] == before.receipts[k])
  }

  lemma ApplyKeeps(st: Store, change: C.Change)
    requires Inv(st) && Small(st.conversations, st.messages, change)
    ensures Inv(Apply(st, change)) && Keeps(st, Apply(st, change))
  {
    match change
    case ConversationChange(c) => EvolutionKeepsPlaces(st, c);
    case DeliveryChange(t) => DeliveryKeepsPlaces(st, t);
    case DeleteChange(_) =>
    case RefusalRecorded =>
  }

  lemma RecordingReceipt(before: Store, st: Store, key: (nat, nat), receipt: C.Receipt)
    requires Inv(st) && Keeps(before, st) && key !in before.receipts
    ensures var next := st.(receipts := st.receipts[key := receipt]);
            Inv(next) && Keeps(before, next)
  {
    var next := st.(receipts := st.receipts[key := receipt]);
    forall id | id in next.messages ensures Placed(next, next.messages[id]) {
      assert Placed(st, st.messages[id]);
    }
  }

  lemma CommitKeeps(st: Store, change: C.Change, key: (nat, nat), receipt: C.Receipt)
    requires Inv(st) && Small(st.conversations, st.messages, change) && key !in st.receipts
    ensures var applied := Apply(st, change);
            var next := applied.(receipts := applied.receipts[key := receipt]);
            Inv(next) && Keeps(st, next)
  {
    ApplyKeeps(st, change);
    RecordingReceipt(st, Apply(st, change), key, receipt);
  }

  lemma KeepsTwice(a: Store, b: Store, c: Store)
    requires Keeps(a, b) && Keeps(b, c)
    ensures Keeps(a, c)
  {
    forall id | id in a.conversations ensures id in c.conversations && Evolves(a.conversations[id], c.conversations[id]) {
      assert Evolves(a.conversations[id], b.conversations[id]) && Evolves(b.conversations[id], c.conversations[id]);
    }
  }

  /** Every transaction keeps the store coherent, every retained conversation within its identity, and
      every message exactly as it was delivered. */
  lemma AfterKeepsInv(st: Store, input: Input)
    requires Inv(st) && ValidInput(input)
    ensures Inv(After(st, input)) && Keeps(st, After(st, input))
  {
    if Decide(st, input).Success? && Decide(st, input).value.effects.Some? {
      var d := Decide(st, input).value;
      ChangeIsSmall(st, input, d);
      CommitKeeps(st, d.effects.value.change, Key(input.request.content), d.effects.value.receipt);
    }
  }

  /** In every reachable store every message is placed; and over any further run a delivered message is
      never altered or delivered again, a conversation never changes its pair or its bound subject, and a
      receipt is never overwritten. */
  lemma {:induction false} RunKeepsMessages(st: Store, inputs: seq<Input>)
    requires Inv(st) && forall i :: 0 <= i < |inputs| ==> ValidInput(inputs[i])
    ensures Inv(Run(st, inputs)) && Keeps(st, Run(st, inputs))
    decreases |inputs|
  {
    if inputs != [] {
      AfterKeepsInv(st, inputs[0]);
      RunKeepsMessages(After(st, inputs[0]), inputs[1..]);
      KeepsTwice(st, After(st, inputs[0]), Run(st, inputs));
    }
  }

  lemma ReachableStoresAreCoherent(inputs: seq<Input>)
    requires forall i :: 0 <= i < |inputs| ==> ValidInput(inputs[i])
    ensures Inv(Run(EMPTY, inputs))
  {
    RunKeepsMessages(EMPTY, inputs);
  }

  lemma DeliveryIsNew(st: Store, input: Input, t: D.Transition)
    requires Inv(st) && ValidInput(input)
    requires Decide(st, input).Success? && Decide(st, input).value.effects.Some?
    requires Decide(st, input).value.effects.value.change == C.DeliveryChange(t)
    ensures t.delivery.record.manifest.message !in st.messages
    ensures t.delivery.record.manifest.message in After(st, input).messages
  {
    ChangeIsSmall(st, input, Decide(st, input).value);
  }

  /** At most one request ever delivers a given message: whatever runs between, no second delivery of it
      is decided. */
  lemma DeliveredAtMostOnce(st: Store, first: Input, between: seq<Input>, second: Input, t: D.Transition, u: D.Transition)
    requires Inv(st) && ValidInput(first) && ValidInput(second)
    requires forall i :: 0 <= i < |between| ==> ValidInput(between[i])
    requires Decide(st, first).Success? && Decide(st, first).value.effects.Some?
    requires Decide(st, first).value.effects.value.change == C.DeliveryChange(t)
    requires var later := Run(After(st, first), between);
             && Decide(later, second).Success? && Decide(later, second).value.effects.Some?
             && Decide(later, second).value.effects.value.change == C.DeliveryChange(u)
    ensures t.delivery.record.manifest.message != u.delivery.record.manifest.message
  {
    DeliveryIsNew(st, first, t);
    AfterKeepsInv(st, first);
    RunKeepsMessages(After(st, first), between);
    DeliveryIsNew(Run(After(st, first), between), second, u);
  }

  /** Exactly once, over any run: a request with a receipt is answered from it ever after, and presenting
      it again changes nothing. */
  lemma CommittedOnce(st: Store, input: Input, between: seq<Input>, again: Input)
    requires Inv(st) && ValidInput(input) && forall i :: 0 <= i < |between| ==> ValidInput(between[i])
    requires Decide(st, input).Success? && Decide(st, input).value.effects.Some?
    requires again.request == input.request
    ensures var later := Run(After(st, input), between);
            && After(later, again) == later
            && (Decide(later, again).Success? ==> Decide(later, again).value.response == Decide(st, input).value.response)
            && (C.Authenticate(again.request, Snapshot(later, again), again.now).Success? ==> Decide(later, again).Success?)
  {
    SnapshotIsLoaded(st, input);
    AfterKeepsInv(st, input);
    RunKeepsMessages(After(st, input), between);
    var later := Run(After(st, input), between);
    assert Key(input.request.content) in After(st, input).receipts;
    C.ReplayReturnsResponse(input.request, Snapshot(st, input), input.now, Snapshot(later, again), again.now);
  }

  // ---- what a transaction leaves, row by row ----

  /** Rows but the one under this key are as they were. */
  predicate OnlyAt<K, V(==)>(before: map<K, V>, after: map<K, V>, key: K) {
    after.Keys == before.Keys + {key} && forall k :: k in before && k != key ==> after[k] == before[k]
  }

  /** What a change and its receipt leave. */
  predicate Stores(st: Store, next: Store, change: C.Change, key: (nat, nat), receipt: C.Receipt) {
    && OnlyAt(st.receipts, next.receipts, key) && next.receipts[key] == receipt
    && match change
       case ConversationChange(c) =>
         && OnlyAt(st.conversations, next.conversations, c.id) && next.conversations[c.id] == c && next.messages == st.messages
       case DeliveryChange(t) =>
         && OnlyAt(st.conversations, next.conversations, t.conversation.id)
         && next.conversations[t.conversation.id] == t.conversation
         && OnlyAt(st.messages, next.messages, t.delivery.record.manifest.message)
         && next.messages[t.delivery.record.manifest.message] == t.delivery.record
       case _ => next.conversations == st.conversations && next.messages == st.messages
  }

  lemma ApplyStores(st: Store, change: C.Change, key: (nat, nat), receipt: C.Receipt)
    ensures var applied := Apply(st, change);
            Stores(st, applied.(receipts := applied.receipts[key := receipt]), change, key, receipt)
  {
  }

  /** A committed decision is stored whole, and nothing else moves: its receipt under the request's own key; a changed or
      new conversation as decided; a delivery's conversation and record together; for a deletion or a refusal, no row. */
  lemma CommitsExactly(st: Store, input: Input, d: C.Decision)
    requires Decide(st, input) == Success(d) && d.effects.Some?
    ensures Stores(st, After(st, input), d.effects.value.change,
                   (input.request.content.account, input.request.content.operation), d.effects.value.receipt)
  {
    ApplyStores(st, d.effects.value.change, Key(input.request.content), d.effects.value.receipt);
  }

  /** Without a change there is nothing to store. */
  lemma ReadsStoreNothing(st: Store, input: Input)
    requires Decide(st, input).Success? ==> Decide(st, input).value.effects.None?
    ensures After(st, input) == st
  {
  }

  /** The epoch a receiver may answer at: that of their own contact with the sender, 0 without one, and none at all once
      they have blocked or revoked it. */
  function AnsweringEpoch(contact: Option<Relationship>): Option<U64> {
    match contact
    case None => Some(0)
    case Some(r) => if r.state == RelationshipState.Blocked || r.state == Revoked then None else Some(r.epoch)
  }

  /** A message delivered can be answered: in the store it leaves, its receiver has it to answer by, as long as the
      contact stays in its epoch; and a receiver who has blocked or revoked the sender gets nothing new. */
  lemma ReceiverMayAnswer(st: Store, input: Input, t: D.Transition)
    requires Inv(st) && ValidInput(input)
    requires Decide(st, input).Success? && Decide(st, input).value.effects.Some?
    requires Decide(st, input).value.effects.value.change == C.DeliveryChange(t)
    ensures var id, route := t.delivery.record.manifest.conversation, t.delivery.record.receiving;
            && id in After(st, input).conversations
            && var left := After(st, input).conversations[id];
               match AnsweringEpoch(input.facts.receiverContact)
               case Some(epoch) => ReplySource(left, route.recipient, epoch) == Some(route.message)
               case None => left.received == if id in st.conversations then st.conversations[id].received else map[]
  {
    CommitsExactly(st, input, Decide(st, input).value);
    DeliveryRemembers(st, input, t);
  }

  /** Only a send that was carried out is decided as a delivery. */
  lemma DeliveryIsExecuted(content: C.Content, c: C.Context, now: Time, r: C.Request, t: D.Transition)
    requires C.Loaded(c) && C.ValidCommand(content.command) && r.content == content
    requires C.Decide(r, c, now).Success? && C.Decide(r, c, now).value.effects.Some?
    requires C.Decide(r, c, now).value.effects.value.change == C.DeliveryChange(t)
    ensures C.Execute(content, c, now).Success? && (content.command.Send? || content.command.SendToAlias?)
    ensures C.Execute(content, c, now).value.effects.Some?
    ensures C.Execute(content, c, now).value.effects.value.change == C.DeliveryChange(t)
  {
    if C.Execute(content, c, now).Success? { C.MutationChangesOnce(content, c, now); }
  }

  lemma DeliveryRemembers(st: Store, input: Input, t: D.Transition)
    requires Inv(st) && ValidInput(input)
    requires Decide(st, input).Success? && Decide(st, input).value.effects.Some?
    requires Decide(st, input).value.effects.value.change == C.DeliveryChange(t)
    ensures C.Remembers(Snapshot(st, input), t) && D.Coherent(t)
  {
    SnapshotIsLoaded(st, input);
    DeliveryIsExecuted(input.request.content, Snapshot(st, input), input.now, input.request, t);
    C.SendIsOneDelivery(input.request.content, Snapshot(st, input), input.now);
  }

  /** So the answer has its basis: whoever the message went to may answer whoever wrote it, in that conversation, by a
      contact of that epoch. */
  lemma AnswerHasItsBasis(st: Store, input: Input, t: D.Transition, later: Input, contact: Relationship)
    requires Inv(st) && ValidInput(input)
    requires Decide(st, input).Success? && Decide(st, input).value.effects.Some?
    requires Decide(st, input).value.effects.value.change == C.DeliveryChange(t)
    requires contact.sender == t.delivery.record.receiving.recipient && contact.recipient == t.delivery.record.author
    requires AnsweringEpoch(input.facts.receiverContact) == Some(contact.epoch)
    ensures C.AnswerBasis(Snapshot(After(st, input), later), contact, t.delivery.record.manifest.conversation,
                          contact.sender, contact.recipient) ==
            Some(D.ConversationReply(t.delivery.record.manifest.message))
  {
    ReceiverMayAnswer(st, input, t);
    DeliveryRemembers(st, input, t);
  }
}
