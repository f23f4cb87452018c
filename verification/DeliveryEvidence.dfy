/** The evidence an alias's restriction freezes (crates/cs-mail-storage-postgres/src/aliases.rs,
    `admitted_conversations`): everything ever delivered on its owner's aliases, one row for each alias, conversation
    and sender, with the earliest admission. */
module DeliveryEvidence {
  import opened Wrappers
  import opened Primitives
  import opened AliasErrors
  import Conversations
  import A = Aliases
  import M = AliasCommands
  import D = Deliveries
  import K = CorrespondenceStore

  type Rows = map<AliasId, A.Alias>

  datatype Group = Group(alias: AliasId, conversation: ConversationId, sender: Identity)

  function GroupOf(d: ConversationRecord): Group {
    Group(d.alias, d.conversation, d.sender)
  }

  function RecordOf(r: D.Record): ConversationRecord {
    ConversationRecord(r.receiving.alias, r.manifest.conversation, r.author, r.committedAt)
  }

  /** The view of deliveries: the messages the two correspondence routes recorded, and what other services recorded,
      requested deliveries and outside guests among it. */
  function View(mail: K.Store, others: seq<AdmittedConversation>): set<ConversationRecord> {
    (set m | m in mail.messages :: RecordOf(mail.messages[m])) + (set e | e in others)
  }

  predicate Delivered(ds: set<ConversationRecord>, g: Group) {
    exists d :: d in ds && GroupOf(d) == g
  }

  predicate DeliveredBy(ds: set<ConversationRecord>, g: Group, at: Time) {
    exists d :: d in ds && GroupOf(d) == g && d.admittedAt <= at
  }

  /** The groups of everything delivered on the owner's aliases; no record has a nameless author. */
  function Groups(ds: set<ConversationRecord>, aliases: Rows, owner: Identity): set<Group> {
    set d | d in ds && d.sender != 0 && d.alias in aliases && aliases[d.alias].owner == owner :: GroupOf(d)
  }

  predicate IsEarliest(ds: set<ConversationRecord>, g: Group, t: Time) {
    && (exists d :: d in ds && GroupOf(d) == g && d.admittedAt == t)
    && forall d :: d in ds && GroupOf(d) == g ==> t <= d.admittedAt
  }

  lemma {:induction false} EarliestExists(ds: set<ConversationRecord>, g: Group)
    requires Delivered(ds, g)
    ensures exists t: Time :: IsEarliest(ds, g, t)
    decreases ds
  {
    var d :| d in ds && GroupOf(d) == g;
    var rest := ds - {d};
    if Delivered(rest, g) {
      EarliestExists(rest, g);
      var t: Time :| IsEarliest(rest, g, t);
      var least: Time := if t <= d.admittedAt then t else d.admittedAt;
      forall other | other in ds && GroupOf(other) == g ensures least <= other.admittedAt {
        assert other == d || other in rest;
      }
      assert IsEarliest(ds, g, least);
    } else {
      forall other | other in ds && GroupOf(other) == g ensures d.admittedAt <= other.admittedAt {
        assert other == d || other in rest;
      }
      assert IsEarliest(ds, g, d.admittedAt);
    }
  }

  /** A group with its earliest admission. */
  ghost function Earliest(ds: set<ConversationRecord>, g: Group): (e: AdmittedConversation)
    requires Delivered(ds, g) && g.sender != 0
    ensures GroupOf(e) == g && IsEarliest(ds, g, e.admittedAt)
  {
    EarliestExists(ds, g);
    var t: Time :| IsEarliest(ds, g, t);
    ConversationRecord(g.alias, g.conversation, g.sender, t)
  }

  predicate AllDelivered(ds: set<ConversationRecord>, groups: set<Group>) {
    forall g :: g in groups ==> Delivered(ds, g) && g.sender != 0
  }

  /** One row for each group, in no particular order. */
  ghost function Listed(ds: set<ConversationRecord>, groups: set<Group>): seq<AdmittedConversation>
    requires AllDelivered(ds, groups)
  {
    if groups == {} then []
    else
      var g :| g in groups;
      [Earliest(ds, g)] + Listed(ds, groups - {g})
  }

  /** What the query returns for one owner. */
  ghost function Admitted(ds: set<ConversationRecord>, aliases: Rows, owner: Identity): seq<AdmittedConversation> {
    Listed(ds, Groups(ds, aliases, owner))
  }

  lemma {:induction false} ListedAreGroups(ds: set<ConversationRecord>, groups: set<Group>)
    requires AllDelivered(ds, groups)
    ensures forall e :: e in Listed(ds, groups) ==> GroupOf(e) in groups && e == Earliest(ds, GroupOf(e))
    ensures forall g :: g in groups ==> Earliest(ds, g) in Listed(ds, groups)
    decreases groups
  {
    if groups != {} {
      var rows := Listed(ds, groups);
      var g :| g in groups && rows == [Earliest(ds, g)] + Listed(ds, groups - {g});
      ListedAreGroups(ds, groups - {g});
      forall h | h in groups ensures Earliest(ds, h) in rows {
        if h != g { assert h in groups - {g}; }
      }
    }
  }

  lemma OneMoreOnce(e: AdmittedConversation, rest: seq<AdmittedConversation>)
    requires M.EachOnce(rest) && forall f :: f in rest ==> f.alias != e.alias || f.conversation != e.conversation
    ensures M.EachOnce([e] + rest)
  {
    var all := [e] + rest;
    forall i, j | 0 <= i < j < |all| ensures all[i].alias != all[j].alias || all[i].conversation != all[j].conversation {
      assert all[j] == rest[j - 1] && all[j] in rest;
      if i > 0 { assert all[i] == rest[i - 1]; }
    }
  }

  /** No two of these groups share an alias and a conversation. */
  predicate OneSenderEach(groups: set<Group>) {
    forall g, h :: g in groups && h in groups && g.alias == h.alias && g.conversation == h.conversation ==> g == h
  }

  lemma {:induction false} ListedOnce(ds: set<ConversationRecord>, groups: set<Group>)
    requires AllDelivered(ds, groups) && OneSenderEach(groups)
    ensures M.EachOnce(Listed(ds, groups))
    decreases groups
  {
    if groups != {} {
      var g :| g in groups && Listed(ds, groups) == [Earliest(ds, g)] + Listed(ds, groups - {g});
      ListedOnce(ds, groups - {g});
      ListedAreGroups(ds, groups - {g});
      OneMoreOnce(Earliest(ds, g), Listed(ds, groups - {g}));
    }
  }

  predicate EarliestOf(ds: set<ConversationRecord>, e: AdmittedConversation) {
    && e in ds
    && forall d :: d in ds && d.alias == e.alias && d.conversation == e.conversation && d.sender == e.sender ==>
         e.admittedAt <= d.admittedAt
  }

  /** What the query returns: of everything delivered on this owner's own aliases by somebody named, the earliest record of
      each alias, conversation and sender, and nothing else. */
  lemma AdmittedExactly(ds: set<ConversationRecord>, aliases: Rows, owner: Identity, e: AdmittedConversation)
    ensures e in Admitted(ds, aliases, owner) <==>
              EarliestOf(ds, e) && e.sender != 0 && e.alias in aliases && aliases[e.alias].owner == owner
  {
    var groups := Groups(ds, aliases, owner);
    ListedAreGroups(ds, groups);
    var g := Group(e.alias, e.conversation, e.sender);
    if e in Admitted(ds, aliases, owner) {
      var d :| d in ds && GroupOf(d) == g && d.admittedAt == e.admittedAt;
      assert d == e;
      var grouped :| grouped in ds && grouped.sender != 0 && grouped.alias in aliases && aliases[grouped.alias].owner == owner
                     && GroupOf(grouped) == g;
    }
    if EarliestOf(ds, e) && e.sender != 0 && e.alias in aliases && aliases[e.alias].owner == owner {
      assert GroupOf(e) in groups && IsEarliest(ds, g, e.admittedAt);
      var first := Earliest(ds, g);
      var d :| d in ds && GroupOf(d) == g && d.admittedAt == first.admittedAt;
      assert first.admittedAt == e.admittedAt && first == e;
    }
  }

  // ---- what is recorded about deliveries ----

  /** The message was received by the owner of an alias that existed then. */
  predicate Routed(aliases: Rows, r: D.Record) {
    && r.receiving.alias in aliases
    && aliases[r.receiving.alias].owner == r.receiving.recipient
    && aliases[r.receiving.alias].createdAt <= r.committedAt
  }

  /** Every message sits in its conversation, on a row of its recipient's. */
  predicate Traced(aliases: Rows, mail: K.Store) {
    forall m :: m in mail.messages ==> K.Placed(mail, mail.messages[m]) && Routed(aliases, mail.messages[m])
  }

  /** The record's sender is the participant of a retained conversation who is not the alias's owner. */
  predicate Faces(aliases: Rows, mail: K.Store, d: ConversationRecord) {
    && d.conversation in mail.conversations && d.alias in aliases
    && Conversations.Other(mail.conversations[d.conversation].scope, d.sender) == Success(aliases[d.alias].owner)
  }

  /** What other services record keeps to the pair of a retained conversation, and to one sender in any other. */
  predicate OthersAgree(aliases: Rows, mail: K.Store, others: seq<AdmittedConversation>) {
    && (forall e :: e in others && e.alias in aliases && e.conversation in mail.conversations ==> Faces(aliases, mail, e))
    && (forall e, f :: e in others && f in others && e.alias == f.alias && e.conversation == f.conversation ==>
          e.sender == f.sender)
  }

  lemma MessageFaces(aliases: Rows, mail: K.Store, m: MessageId)
    requires Traced(aliases, mail) && m in mail.messages
    ensures Faces(aliases, mail, RecordOf(mail.messages[m])) && mail.messages[m].author != 0
    ensures aliases[RecordOf(mail.messages[m]).alias].createdAt <= mail.messages[m].committedAt
  {
    assert K.Placed(mail, mail.messages[m]) && Routed(aliases, mail.messages[m]);
  }

  lemma FacingIsOneSender(aliases: Rows, mail: K.Store, d: ConversationRecord, e: ConversationRecord)
    requires Faces(aliases, mail, d) && Faces(aliases, mail, e) && d.alias == e.alias && d.conversation == e.conversation
    ensures d.sender == e.sender != aliases[d.alias].owner
  {
  }

  /** One alias, one conversation, one sender: a conversation has two participants, and the owner is one. */
  lemma OneSenderDelivers(aliases: Rows, mail: K.Store, others: seq<AdmittedConversation>, g: Group, h: Group)
    requires Traced(aliases, mail) && OthersAgree(aliases, mail, others)
    requires Delivered(View(mail, others), g) && Delivered(View(mail, others), h)
    requires g.alias in aliases && g.alias == h.alias && g.conversation == h.conversation
    ensures g == h
  {
    var d :| d in View(mail, others) && GroupOf(d) == g;
    var e :| e in View(mail, others) && GroupOf(e) == h;
    if g.conversation in mail.conversations {
      ViewFaces(aliases, mail, others, d);
      ViewFaces(aliases, mail, others, e);
      FacingIsOneSender(aliases, mail, d, e);
    } else {
      OnlyOthers(aliases, mail, others, d);
      OnlyOthers(aliases, mail, others, e);
    }
  }

  lemma ViewFaces(aliases: Rows, mail: K.Store, others: seq<AdmittedConversation>, d: ConversationRecord)
    requires Traced(aliases, mail) && OthersAgree(aliases, mail, others)
    requires d in View(mail, others) && d.alias in aliases && d.conversation in mail.conversations
    ensures Faces(aliases, mail, d)
  {
    if d !in others {
      var m :| m in mail.messages && RecordOf(mail.messages[m]) == d;
      MessageFaces(aliases, mail, m);
    }
  }

  lemma OnlyOthers(aliases: Rows, mail: K.Store, others: seq<AdmittedConversation>, d: ConversationRecord)
    requires Traced(aliases, mail) && d in View(mail, others) && d.conversation !in mail.conversations
    ensures d in others
  {
    forall m | m in mail.messages ensures RecordOf(mail.messages[m]) != d {
      MessageFaces(aliases, mail, m);
    }
  }

  // ---- the evidence of one alias ----

  /** Whatever was delivered, no conversation is evidenced twice for one alias: the check for duplicates in a
      restriction or a replacement never fires. */
  lemma EvidenceIsDistinct(aliases: Rows, mail: K.Store, owner: Identity, others: seq<AdmittedConversation>, id: AliasId)
    requires Traced(aliases, mail) && OthersAgree(aliases, mail, others)
    ensures DistinctConversations(M.OnRoute(Admitted(View(mail, others), aliases, owner), id))
  {
    var ds := View(mail, others);
    var groups := Groups(ds, aliases, owner);
    forall g, h | g in groups && h in groups && g.alias == h.alias && g.conversation == h.conversation ensures g == h {
      OneSenderDelivers(aliases, mail, others, g, h);
    }
    ListedOnce(ds, groups);
    M.OnRouteIsDistinct(Listed(ds, groups), id);
  }

  predicate Names(existing: seq<AdmittedConversation>, conversation: ConversationId, sender: Identity) {
    exists e :: e in existing && e.conversation == conversation && e.sender == sender
  }

  /** No record in the view lacks an author. */
  lemma SendersAreNamed(aliases: Rows, mail: K.Store, others: seq<AdmittedConversation>, d: ConversationRecord)
    requires Traced(aliases, mail) && d in View(mail, others)
    ensures d.sender != 0
  {
    if d !in others {
      var m :| m in mail.messages && RecordOf(mail.messages[m]) == d;
      MessageFaces(aliases, mail, m);
    }
  }

  /** The evidence for an alias names exactly those who wrote to it, where they wrote. */
  lemma EvidenceNames(aliases: Rows, mail: K.Store, others: seq<AdmittedConversation>, g: Group)
    requires Traced(aliases, mail) && g.alias in aliases
    ensures Names(M.OnRoute(Admitted(View(mail, others), aliases, aliases[g.alias].owner), g.alias), g.conversation, g.sender)
            <==> Delivered(View(mail, others), g)
  {
    var ds := View(mail, others);
    var groups := Groups(ds, aliases, aliases[g.alias].owner);
    ListedAreGroups(ds, groups);
    M.OnRouteSelects(Listed(ds, groups), g.alias);
    if Delivered(ds, g) {
      var d :| d in ds && GroupOf(d) == g;
      SendersAreNamed(aliases, mail, others, d);
      assert g in groups;
      var e := Earliest(ds, g);
      assert e in M.OnRoute(Listed(ds, groups), g.alias);
    }
  }

  /** Restricted on this evidence, an alias accepts exactly those who wrote to it, where they wrote. */
  lemma RestrictionMeans(aliases: Rows, mail: K.Store, others: seq<AdmittedConversation>, id: AliasId, expected: U64, at: Time,
                         sender: Identity, conversation: ConversationId, now: Time)
    requires Traced(aliases, mail) && id in aliases && at <= now
    requires var own := M.OnRoute(Admitted(View(mail, others), aliases, aliases[id].owner), id);
             A.Restrict(aliases[id], expected, own, at).Success?
    ensures var own := M.OnRoute(Admitted(View(mail, others), aliases, aliases[id].owner), id);
            A.AcceptsMail(A.Restrict(aliases[id], expected, own, at).value, sender, conversation, now) <==>
              Delivered(View(mail, others), Group(id, conversation, sender))
  {
    var own := M.OnRoute(Admitted(View(mail, others), aliases, aliases[id].owner), id);
    A.RestrictedAcceptsEvidence(aliases[id], expected, own, at, sender, conversation, now);
    EvidenceNames(aliases, mail, others, Group(id, conversation, sender));
  }

  // ---- when the evidence is in order ----

  predicate Fits(a: A.Alias, e: ConversationRecord, at: Time) {
    e.sender != a.owner && a.createdAt <= e.admittedAt <= at
  }

  /** Everyone who wrote to the alias had done so by then. */
  ghost predicate AllDeliveredBy(ds: set<ConversationRecord>, id: AliasId, at: Time) {
    forall g: Group :: Delivered(ds, g) && g.alias == id ==> DeliveredBy(ds, g, at)
  }

  /** What other services recorded on the alias is not its owner's own, nor older than the alias. */
  predicate OthersFit(a: A.Alias, others: seq<AdmittedConversation>) {
    forall e :: e in others && e.alias == a.id ==> e.sender != a.owner && a.createdAt <= e.admittedAt
  }

  lemma EarliestFits(a: A.Alias, ds: set<ConversationRecord>, g: Group, at: Time)
    requires Delivered(ds, g) && g.sender != 0
    ensures Fits(a, Earliest(ds, g), at) <==>
              && g.sender != a.owner && (forall d :: d in ds && GroupOf(d) == g ==> a.createdAt <= d.admittedAt)
              && DeliveredBy(ds, g, at)
  {
    var e := Earliest(ds, g);
    var d :| d in ds && GroupOf(d) == g && d.admittedAt == e.admittedAt;
  }

  /** The groups of the alias are those of the view, each fitting if its records do. */
  lemma ListedFit(aliases: Rows, mail: K.Store, others: seq<AdmittedConversation>, id: AliasId, at: Time)
    requires Traced(aliases, mail) && id in aliases && aliases[id].id == id
    ensures (forall e :: e in Admitted(View(mail, others), aliases, aliases[id].owner) && e.alias == id ==>
               Fits(aliases[id], e, at))
            <==> AllDeliveredBy(View(mail, others), id, at) && OthersFit(aliases[id], others)
  {
    var a, ds := aliases[id], View(mail, others);
    var groups := Groups(ds, aliases, a.owner);
    ListedAreGroups(ds, groups);
    if AllDeliveredBy(ds, id, at) && OthersFit(a, others) {
      forall e | e in Listed(ds, groups) && e.alias == id ensures Fits(a, e, at) {
        ViewFits(aliases, mail, others, id, GroupOf(e));
        EarliestFits(a, ds, GroupOf(e), at);
      }
    }
    if forall e :: e in Listed(ds, groups) && e.alias == id ==> Fits(a, e, at) {
      forall d | d in ds && d.alias == id
        ensures DeliveredBy(ds, GroupOf(d), at) && d.sender != a.owner && a.createdAt <= d.admittedAt
      {
        SendersAreNamed(aliases, mail, others, d);
        assert GroupOf(d) in groups;
        EarliestFits(a, ds, GroupOf(d), at);
      }
    }
  }

  lemma ViewFits(aliases: Rows, mail: K.Store, others: seq<AdmittedConversation>, id: AliasId, g: Group)
    requires Traced(aliases, mail) && id in aliases && aliases[id].id == id && OthersFit(aliases[id], others)
    requires g.alias == id && Delivered(View(mail, others), g)
    ensures g.sender != aliases[id].owner
    ensures forall d :: d in View(mail, others) && GroupOf(d) == g ==> aliases[id].createdAt <= d.admittedAt
  {
    forall d | d in View(mail, others) && GroupOf(d) == g
      ensures d.sender != aliases[id].owner && aliases[id].createdAt <= d.admittedAt
    {
      if d !in others {
        var m :| m in mail.messages && RecordOf(mail.messages[m]) == d;
        MessageFaces(aliases, mail, m);
        FacingIsOneSender(aliases, mail, d, d);
      }
    }
  }

  /** A restriction is refused only for the alias's phase or revision, when the clock stands before what was delivered,
      or for what another service recorded: the evidence itself is always in order. */
  lemma RestrictionSucceedsExactly(aliases: Rows, mail: K.Store, others: seq<AdmittedConversation>, id: AliasId,
                                   expected: U64, at: Time)
    requires Traced(aliases, mail) && OthersAgree(aliases, mail, others)
    requires id in aliases && aliases[id].id == id && A.Accepts(aliases[id])
    ensures var own := M.OnRoute(Admitted(View(mail, others), aliases, aliases[id].owner), id);
            A.Restrict(aliases[id], expected, own, at).Success? <==>
              && aliases[id].lifecycle.Active? && A.MayUpdate(aliases[id], expected, at)
              && AllDeliveredBy(View(mail, others), id, at) && OthersFit(aliases[id], others)
  {
    var rows := Admitted(View(mail, others), aliases, aliases[id].owner);
    EvidenceIsDistinct(aliases, mail, aliases[id].owner, others, id);
    M.OnRouteSelects(rows, id);
    ListedFit(aliases, mail, others, id, at);
    A.RestrictSucceedsExactly(aliases[id], expected, M.OnRoute(rows, id), at);
  }
}
