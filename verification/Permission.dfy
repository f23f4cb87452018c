/** Receiving permission (crates/cs-mail-accounts/src/alias_permission.rs): who may write to one
    address, with its own revision, independent of the address's lifecycle. */
module Permission {
  import opened Wrappers
  import opened Primitives
  import opened AliasErrors
  import L = Lanes

  const MAX_SENDERS := 32

  /** Anyone may write: an explicit, sender-free grant. */
  datatype AliasGrant = AliasGrant(alias: AliasId, recipient: Identity, establishedAt: Time)

  datatype State =
    | Closed
    | Broad(grant: AliasGrant)
    | Narrowed(grant: AliasGrant, conversations: Conversations)
    | Senders(lanes: seq<L.Lane>)

  datatype ReceivingPermission = ReceivingPermission(
    alias: AliasId, owner: Identity, revision: U64, changedAt: Time, state: State)

  predicate DistinctLanes(lanes: seq<L.Lane>) {
    forall i, j :: 0 <= i < j < |lanes| ==>
      lanes[i].grant.id != lanes[j].grant.id && lanes[i].grant.subject != lanes[j].grant.subject
  }

  predicate OwnGrant(p: ReceivingPermission, g: AliasGrant) {
    g.alias == p.alias && g.recipient == p.owner && g.establishedAt <= p.changedAt
  }

  /** The stored-record validator. */
  predicate Accepts(p: ReceivingPermission) {
    && p.owner != 0
    && (p.revision == 0 ==> p.state == Closed)
    && match p.state
       case Closed => true
       case Broad(g) => OwnGrant(p, g)
       case Narrowed(g, conversations) =>
         && OwnGrant(p, g)
         && forall c :: c in conversations ==>
              && conversations[c].conversation == c && conversations[c].alias == p.alias
              && conversations[c].sender != p.owner && conversations[c].admittedAt <= p.changedAt
       case Senders(lanes) =>
         && 0 < |lanes| <= MAX_SENDERS
         && DistinctLanes(lanes)
         && forall i :: 0 <= i < |lanes| ==>
              lanes[i].grant.recipient == p.owner && lanes[i].grant.issuedAt <= p.changedAt
  }

  /** Every sender lane on file is a record its own validator accepts. */
  predicate LanesValid(p: ReceivingPermission) {
    p.state.Senders? ==> forall lane :: lane in p.state.lanes ==> L.ValidLane(lane)
  }

  function Check(p: ReceivingPermission): Result<ReceivingPermission, AliasError> {
    if Accepts(p) then Success(p) else Failure(Invalid)
  }

  function Unpaired(alias: AliasId, owner: Identity, at: Time): Result<ReceivingPermission, AliasError> {
    Check(ReceivingPermission(alias, owner, 0, at, Closed))
  }

  function Change(p: ReceivingPermission, expected: U64, state: State, at: Time)
    : Result<ReceivingPermission, AliasError>
  {
    if p.revision != expected then Failure(Conflict)
    else if at < p.changedAt then Failure(Invalid)
    else match CheckedNext(expected)
      case None => Failure(Invalid)
      case Some(next) => Check(p.(state := state, revision := next, changedAt := at))
  }

  function Open(p: ReceivingPermission, expected: U64, at: Time): Result<ReceivingPermission, AliasError> {
    if p.owner == 0 then Failure(Invalid)
    else Change(p, expected, Broad(AliasGrant(p.alias, p.owner, at)), at)
  }

  function Remove(p: ReceivingPermission, expected: U64, at: Time): Result<ReceivingPermission, AliasError> {
    Change(p, expected, Closed, at)
  }

  function Narrow(p: ReceivingPermission, expected: U64, existing: seq<AdmittedConversation>, at: Time)
    : Result<ReceivingPermission, AliasError>
  {
    if !p.state.Broad? then Failure(Restricted)
    else if |Collect(existing)| != |existing| then Failure(Invalid)
    else Change(p, expected, Narrowed(p.state.grant, Collect(existing)), at)
  }

  function SetSenders(p: ReceivingPermission, expected: U64, lanes: seq<L.Lane>, at: Time)
    : Result<ReceivingPermission, AliasError>
  {
    Change(p, expected, Senders(lanes), at)
  }

  predicate AuthorizesAlias(p: ReceivingPermission, sender: Identity, conversation: ConversationId, at: Time) {
    && at >= p.changedAt
    && match p.state
       case Broad(_) => true
       case Narrowed(_, conversations) =>
         conversation in conversations && conversations[conversation].sender == sender
       case _ => false
  }

  /** Whom the permission itself lets write, over its fields: anyone while it is broad, the pairs it names while it is
      narrowed, and otherwise nobody. */
  lemma AuthorizesAliasExactly(p: ReceivingPermission, sender: Identity, conversation: ConversationId, at: Time)
    ensures AuthorizesAlias(p, sender, conversation, at) <==>
              && p.changedAt <= at
              && (|| p.state.Broad?
                  || (&& p.state.Narrowed? && conversation in p.state.conversations
                      && p.state.conversations[conversation].sender == sender))
  {
  }

  /** The position of the lane with this id, or |lanes|. */
  function Find(lanes: seq<L.Lane>, id: LaneId): (k: nat)
    ensures k <= |lanes|
    ensures k < |lanes| ==> lanes[k].grant.id == id
    ensures forall i :: 0 <= i < k ==> lanes[i].grant.id != id
  {
    if lanes == [] then 0
    else if lanes[0].grant.id == id then 0
    else 1 + Find(lanes[1..], id)
  }

  /** Record a sender lane's next allowance version; the grants and the revision stay. */
  function Consume(p: ReceivingPermission, lane: L.Lane): Result<ReceivingPermission, AliasError> {
    if !p.state.Senders? then Failure(AliasError.Permission)
    else
      var lanes, k := p.state.lanes, Find(p.state.lanes, lane.grant.id);
      if k == |lanes| then Failure(AliasError.Permission)
      else if lanes[k].grant != lane.grant || CheckedNext(lanes[k].version) != Some(lane.version) then Failure(Conflict)
      else Check(p.(state := Senders(lanes[k := lane])))
  }

  // ---- the validator never surprises a command whose guards passed ----

  /** The explicit guards every revision-checked change shares. */
  predicate MayChange(p: ReceivingPermission, expected: U64, at: Time) {
    p.revision == expected && p.changedAt <= at && expected < U64_MAX
  }

  /** The record a successful change leaves: one revision on, changed now, and otherwise the former one. */
  predicate Changed(p: ReceivingPermission, q: ReceivingPermission, at: Time) {
    && Accepts(q) && q.alias == p.alias && q.owner == p.owner
    && CheckedNext(p.revision) == Some(q.revision) && q.changedAt == at
  }

  lemma OpenSucceedsExactly(p: ReceivingPermission, expected: U64, at: Time)
    requires Accepts(p)
    ensures Open(p, expected, at).Success? <==> MayChange(p, expected, at)
    ensures Remove(p, expected, at).Success? <==> MayChange(p, expected, at)
    ensures Open(p, expected, at).Success? ==>
              var q := Open(p, expected, at).value;
              && Changed(p, q, at) && q.state == Broad(AliasGrant(p.alias, p.owner, at))
              && forall sender, c, now: Time :: now >= at ==> AuthorizesAlias(q, sender, c, now)
    ensures Remove(p, expected, at).Success? ==>
              var q := Remove(p, expected, at).value;
              Changed(p, q, at) && q.state == Closed && forall sender, c, now: Time :: !AuthorizesAlias(q, sender, c, now)
  {
  }

  predicate OwnEvidence(p: ReceivingPermission, existing: seq<AdmittedConversation>, at: Time) {
    && DistinctConversations(existing)
    && forall e :: e in existing ==> e.alias == p.alias && e.sender != p.owner && e.admittedAt <= at
  }

  /** One of these admitted this sender to this conversation. */
  predicate Admitted(existing: seq<AdmittedConversation>, sender: Identity, conversation: ConversationId) {
    exists e :: e in existing && e.conversation == conversation && e.sender == sender
  }

  /** Without duplicates, what is collected under a conversation is the one entry that names it. */
  lemma NarrowedPairs(existing: seq<AdmittedConversation>)
    requires |Collect(existing)| == |existing|
    ensures forall c, sender ::
              Admitted(existing, sender, c) <==> c in Collect(existing) && Collect(existing)[c].sender == sender
  {
    CollectKeys(existing);
    CollectSize(existing);
    forall e | e in existing ensures Collect(existing)[e.conversation] == e {
      var i :| 0 <= i < |existing| && existing[i] == e;
      var j :| 0 <= j < |existing| && existing[j] == Collect(existing)[e.conversation];
      assert i == j;
    }
  }

  lemma NarrowSucceedsExactly(p: ReceivingPermission, expected: U64, existing: seq<AdmittedConversation>, at: Time)
    requires Accepts(p)
    ensures Narrow(p, expected, existing, at).Success? <==>
              p.state.Broad? && OwnEvidence(p, existing, at) && MayChange(p, expected, at)
    ensures Narrow(p, expected, existing, at).Success? ==>
              var q := Narrow(p, expected, existing, at).value;
              && Changed(p, q, at) && q.state.Narrowed? && q.state.grant == p.state.grant
              && forall sender, c, now: Time :: now >= at ==>
                   (AuthorizesAlias(q, sender, c, now) <==> Admitted(existing, sender, c))
  {
    if Narrow(p, expected, existing, at).Success? { NarrowedPairs(existing); }
    CollectKeys(existing);
    CollectSize(existing);
    var m := Collect(existing);
    if Narrow(p, expected, existing, at).Success? {
      forall e | e in existing ensures e.alias == p.alias && e.sender != p.owner && e.admittedAt <= at {
        var i :| 0 <= i < |existing| && existing[i] == e;
        var j :| 0 <= j < |existing| && existing[j] == m[e.conversation];
        assert i == j;
      }
    }
  }

  predicate GrantSet(p: ReceivingPermission, lanes: seq<L.Lane>, at: Time) {
    && 0 < |lanes| <= MAX_SENDERS && DistinctLanes(lanes)
    && forall i :: 0 <= i < |lanes| ==> lanes[i].grant.recipient == p.owner && lanes[i].grant.issuedAt <= at
  }

  lemma SetSendersSucceedsExactly(p: ReceivingPermission, expected: U64, lanes: seq<L.Lane>, at: Time)
    requires Accepts(p)
    ensures SetSenders(p, expected, lanes, at).Success? <==> GrantSet(p, lanes, at) && MayChange(p, expected, at)
    ensures SetSenders(p, expected, lanes, at).Success? ==>
              var q := SetSenders(p, expected, lanes, at).value; Changed(p, q, at) && q.state == Senders(lanes)
  {
  }

  /** Consumption accepts exactly the successor of a lane it holds, changes that lane's allowance
      and nothing else, and never moves the permission's revision. */
  lemma ConsumeSucceedsExactly(p: ReceivingPermission, lane: L.Lane)
    requires Accepts(p)
    ensures Consume(p, lane).Success? <==>
              && p.state.Senders?
              && exists i :: 0 <= i < |p.state.lanes| && p.state.lanes[i].grant == lane.grant
                             && CheckedNext(p.state.lanes[i].version) == Some(lane.version)
    ensures Consume(p, lane).Success? ==>
              var q := Consume(p, lane).value;
              && Accepts(q) && q == p.(state := q.state) && q.state.Senders?
              && |q.state.lanes| == |p.state.lanes|
              && forall i :: 0 <= i < |q.state.lanes| ==>
                   && q.state.lanes[i].grant == p.state.lanes[i].grant
                   && (q.state.lanes[i] == if p.state.lanes[i].grant.id == lane.grant.id then lane else p.state.lanes[i])
  {
    if p.state.Senders? {
      var lanes, k := p.state.lanes, Find(p.state.lanes, lane.grant.id);
      forall i | 0 <= i < |lanes| && lanes[i].grant.id == lane.grant.id ensures i == k {
        assert k <= i;
      }
      if k < |lanes| && lanes[k].grant == lane.grant {
        var next := lanes[k := lane];
        forall i, j | 0 <= i < j < |next|
          ensures next[i].grant.id != next[j].grant.id && next[i].grant.subject != next[j].grant.subject
        {
          assert next[i].grant == lanes[i].grant && next[j].grant == lanes[j].grant;
        }
      }
    }
  }
}
