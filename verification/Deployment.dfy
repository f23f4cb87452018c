/** The alias store and the correspondence store together (crates/cs-mail-storage-postgres/src/correspondence.rs
    and aliases.rs): a delivery reads its alias from the very row a management command writes, and writes the
    lane it spent back into that row in the same transaction; and the evidence a restriction freezes is what the
    deliveries recorded. */
module Deployment {
  import opened Wrappers
  import opened Primitives
  import A = Aliases
  import P = Permission
  import M = AliasCommands
  import L = Lanes
  import S = AliasStore
  import D = Deliveries
  import C = Correspondence
  import K = CorrespondenceStore
  import V = DeliveryEvidence

  datatype World = World(routes: S.Store, mail: K.Store)

  const EMPTY := World(S.EMPTY, K.EMPTY)

  datatype Event = Manage(input: S.Input) | Correspond(sending: K.Input)

  /** A management command reads its evidence from the recorded deliveries; those which other services record,
      requested ones and outside guests' among them, come with the request's facts. */
  ghost function Evidenced(w: World, input: S.Input): S.Input {
    input.(facts := input.facts.(existing :=
      V.Admitted(V.View(w.mail, input.facts.existing), w.routes.aliases, input.request.owner)))
  }

  // ---- transactions ----

  /** The alias a request names is loaded from its row. */
  function Facing(w: World, input: K.Input): K.Input {
    var routed := input.facts.routed;
    input.(facts := input.facts.(routed :=
      if routed.Some? && routed.value.alias.id in w.routes.aliases
      then Some(routed.value.(alias := w.routes.aliases[routed.value.alias.id])) else None))
  }

  /** The delivery this transaction commits, if it commits one. */
  function Delivering(w: World, input: K.Input): Option<D.Transition> {
    match K.Decide(w.mail, Facing(w, input))
    case Failure(_) => None
    case Success(d) =>
      if d.effects.Some? && d.effects.value.change.DeliveryChange? then Some(d.effects.value.change.transition) else None
  }

  /** What `persist_paired_lane` is asked to write: nothing unless the delivery rests on a paired sender. */
  function SpendingOf(t: D.Transition): Option<S.Spending> {
    var route := t.delivery.record.receiving;
    match route.provenance
    case AliasPermission(PairedSender(id, version, revision)) =>
      if t.lane.Some? && L.ValidLane(t.lane.value)
      then Some(S.Spending(route.alias, route.recipient, revision, id, version, t.lane.value)) else None
    case _ => None
  }

  /** The spending of a correspondence transaction, if it has one. */
  function Spent(w: World, input: K.Input): Option<S.Spending> {
    match Delivering(w, input)
    case None => None
    case Some(t) => SpendingOf(t)
  }

  /** One transaction: both stores move together, and a lane that cannot be written back undoes it all. */
  ghost function Apply(w: World, e: Event): World {
    match e
    case Manage(input) => w.(routes := S.After(w.routes, Evidenced(w, input)))
    case Correspond(input) =>
      var mail := K.After(w.mail, Facing(w, input));
      match Spent(w, input)
      case None => w.(mail := mail)
      case Some(s) =>
        match S.Persist(w.routes, s)
        case Failure(_) => w
        case Success(row) => World(S.Put(w.routes, row), mail)
  }

  ghost function Run(w: World, events: seq<Event>): World
    decreases |events|
  {
    if events == [] then w else Run(Apply(w, events[0]), events[1..])
  }

  /** Both stores are sound, and every message was received by the owner of an alias that existed then. */
  ghost predicate Inv(w: World) {
    S.Inv(w.routes) && K.Inv(w.mail) && V.Traced(w.routes.aliases, w.mail)
  }

  /** All that is asked of the facts other services own: commands name a message, and a lane of the sender's own
      is a valid record. Nothing is asked of the alias, which comes from the store. */
  predicate ValidFacts(e: Event) {
    e.Correspond? ==>
      && C.ValidCommand(e.sending.request.content.command)
      && (e.sending.facts.lane.Some? ==> L.ValidLane(e.sending.facts.lane.value))
  }

  /** The rows a reachable store serves satisfy what the correspondence service expects of an alias. */
  lemma FacingIsValid(w: World, input: K.Input)
    requires Inv(w) && ValidFacts(Correspond(input))
    ensures K.ValidInput(Facing(w, input))
  {
  }

  /** A delivery is the execution of a send, on facts that have passed their validators. */
  lemma DeliveringExecutes(w: World, input: K.Input)
    requires Inv(w) && ValidFacts(Correspond(input)) && Delivering(w, input).Some?
    ensures var content, c := input.request.content, K.Snapshot(w.mail, Facing(w, input));
            && C.Loaded(c) && C.ValidCommand(content.command)
            && (content.command.Send? || content.command.SendToAlias?)
            && C.Execute(content, c, input.now).Success?
            && var e := C.Execute(content, c, input.now).value.effects;
               e.Some? && e.value.change == C.DeliveryChange(Delivering(w, input).value)
  {
    var f := Facing(w, input);
    var content, c := f.request.content, K.Snapshot(w.mail, f);
    FacingIsValid(w, input);
    K.SnapshotIsLoaded(w.mail, f);
    assert C.Execute(content, c, f.now).Success?;
    C.MutationChangesOnce(content, c, f.now);
  }

  /** A delivery on a paired sender names the row it was admitted on, at its present revision and version. */
  lemma SpentIsOnFile(w: World, input: K.Input)
    requires Inv(w) && ValidFacts(Correspond(input)) && Delivering(w, input).Some?
    ensures var t := Delivering(w, input).value;
            C.PaysAsRecorded(K.Snapshot(w.mail, Facing(w, input)), t.delivery.record.receiving, t.lane)
  {
    DeliveringExecutes(w, input);
    C.DeliveryPaysAsRecorded(input.request.content, K.Snapshot(w.mail, Facing(w, input)), input.now);
  }

  lemma PaidRowPersists(st: S.Store, s: S.Spending, before: L.Lane, message: MessageId)
    requires s.alias in st.aliases && A.Accepts(st.aliases[s.alias])
    requires var row := st.aliases[s.alias];
             && s.recipient == row.owner && s.permissionRevision == row.permission.revision
             && row.permission.state.Senders? && before in row.permission.state.lanes
    requires before.grant.id == s.lane && before.version == s.version && D.Spends(before, s.paid, message)
    ensures S.Persist(st, s).Success?
    ensures var next := S.Persist(st, s).value.permission;
            next.state.Senders? && s.paid in next.state.lanes
  {
    PaidLaneIsHeld(st.aliases[s.alias].permission, before, s.paid, message);
    PaidRowIsValid(st.aliases[s.alias], s.paid);
  }

  lemma PaidLaneIsHeld(p: P.ReceivingPermission, before: L.Lane, paid: L.StoredLane, message: MessageId)
    requires P.Accepts(p) && p.state.Senders? && before in p.state.lanes && D.Spends(before, paid, message)
    ensures P.Consume(p, paid).Success? && P.Consume(p, paid).value.state.Senders?
    ensures paid in P.Consume(p, paid).value.state.lanes
  {
    P.ConsumeSucceedsExactly(p, paid);
    var i :| 0 <= i < |p.state.lanes| && p.state.lanes[i] == before;
    assert P.Consume(p, paid).value.state.lanes[i] == paid;
  }

  lemma PaidRowIsValid(row: A.Alias, paid: L.StoredLane)
    requires A.Accepts(row) && P.Consume(row.permission, paid).Success?
    ensures A.Accepts(row.(permission := P.Consume(row.permission, paid).value))
  {
    P.ConsumeSucceedsExactly(row.permission, paid);
    assert A.PermissionFits(row.(permission := P.Consume(row.permission, paid).value));
  }

  /** What a delivery pays persists, in a store that serves the alias it was admitted on. */
  lemma PaidTransitionPersists(st: S.Store, c: C.Context, t: D.Transition)
    requires S.RowsSound(st) && C.PaysAsRecorded(c, t.delivery.record.receiving, t.lane)
    requires c.routed.Some? ==> c.routed.value.alias.id in st.aliases && st.aliases[c.routed.value.alias.id] == c.routed.value.alias
    ensures SpendingOf(t).Some? <==> t.delivery.record.receiving.provenance.AliasPermission?
                                     && t.delivery.record.receiving.provenance.basis.PairedSender?
    ensures SpendingOf(t).Some? ==>
              && S.Persist(st, SpendingOf(t).value).Success?
              && var next := S.Persist(st, SpendingOf(t).value).value.permission;
                 next.state.Senders? && t.lane.value in next.state.lanes
  {
    var route := t.delivery.record.receiving;
    if route.provenance.AliasPermission? && route.provenance.basis.PairedSender? {
      var basis := route.provenance.basis;
      assert C.SpendsPaired(c, route, t.lane, basis.id, basis.version, basis.permissionRevision);
      var before :| before in c.routed.value.alias.permission.state.lanes
                    && before.grant.id == basis.id && before.version == basis.version
                    && D.Spends(before, t.lane.value, route.message);
      PaidRowPersists(st, SpendingOf(t).value, before, route.message);
    }
  }

  /** The spending is on file exactly when the delivery rests on a paired sender, and it always persists: the
      version conflict that would undo a delivery cannot happen inside its own transaction. */
  lemma SpendingNeverConflicts(w: World, input: K.Input)
    requires Inv(w) && ValidFacts(Correspond(input)) && Delivering(w, input).Some?
    ensures var t := Delivering(w, input).value;
            && (Spent(w, input).Some? <==> t.delivery.record.receiving.provenance.AliasPermission?
                                           && t.delivery.record.receiving.provenance.basis.PairedSender?)
            && (Spent(w, input).Some? ==>
                  && S.Persist(w.routes, Spent(w, input).value).Success?
                  && var next := S.Persist(w.routes, Spent(w, input).value).value.permission;
                     next.state.Senders? && t.lane.value in next.state.lanes)
  {
    SpentIsOnFile(w, input);
    PaidTransitionPersists(w.routes, K.Snapshot(w.mail, Facing(w, input)), Delivering(w, input).value);
  }

  lemma CorrespondProjects(w: World, input: K.Input)
    requires Inv(w) && ValidFacts(Correspond(input))
    ensures Apply(w, Correspond(input)) ==
            World(if Spent(w, input).Some? then S.Apply(w.routes, S.Spend(Spent(w, input).value)) else w.routes,
                  K.After(w.mail, Facing(w, input)))
  {
    if Spent(w, input).Some? { SpendingNeverConflicts(w, input); }
  }

  /** One joint transaction is one transaction of each store, or of one of them. */
  lemma ApplyProjects(w: World, e: Event) returns (routes: seq<S.Event>, mail: seq<K.Input>)
    requires Inv(w) && ValidFacts(e)
    ensures forall i :: 0 <= i < |mail| ==> K.ValidInput(mail[i])
    ensures Apply(w, e) == World(S.Run(w.routes, routes), K.Run(w.mail, mail))
    ensures e.Manage? ==> routes == [S.Manage(Evidenced(w, e.input))] && mail == []
    ensures e.Correspond? ==> mail == [Facing(w, e.sending)] && |routes| <= 1
    ensures e.Correspond? && routes != [] ==> routes[0].Spend?
  {
    if e.Manage? {
      routes, mail := [S.Manage(Evidenced(w, e.input))], [];
      OneRoute(w.routes, routes[0]);
    } else {
      FacingIsValid(w, e.sending);
      CorrespondProjects(w, e.sending);
      mail := [Facing(w, e.sending)];
      OneMail(w.mail, mail[0]);
      var spent := Spent(w, e.sending);
      routes := if spent.Some? then [S.Spend(spent.value)] else [];
      if spent.Some? { OneRoute(w.routes, routes[0]); }
    }
  }

  lemma OneRoute(st: S.Store, e: S.Event)
    ensures S.Run(st, [e]) == S.Apply(st, e)
  {
    assert [e][1..] == [];
    assert S.Run(S.Apply(st, e), []) == S.Apply(st, e);
  }

  lemma OneMail(st: K.Store, input: K.Input)
    ensures K.Run(st, [input]) == K.After(st, input)
  {
    assert [input][1..] == [];
    assert K.Run(K.After(st, input), []) == K.After(st, input);
  }

  lemma {:induction false} RoutesConcat(st: S.Store, a: seq<S.Event>, b: seq<S.Event>)
    ensures S.Run(st, a + b) == S.Run(S.Run(st, a), b)
    decreases |a|
  {
    if a == [] {
      assert a + b == b;
    } else {
      assert (a + b)[1..] == a[1..] + b;
      RoutesConcat(S.Apply(st, a[0]), a[1..], b);
    }
  }

  lemma {:induction false} MailConcat(st: K.Store, a: seq<K.Input>, b: seq<K.Input>)
    ensures K.Run(st, a + b) == K.Run(K.Run(st, a), b)
    decreases |a|
  {
    if a == [] {
      assert a + b == b;
    } else {
      assert (a + b)[1..] == a[1..] + b;
      MailConcat(K.After(st, a[0]), a[1..], b);
    }
  }

  /** Rows keep their owner and birth, so what was routed stays routed. */
  lemma RoutedStays(routes: S.Store, events: seq<S.Event>, r: D.Record)
    requires S.Inv(routes) && V.Routed(routes.aliases, r)
    ensures V.Routed(S.Run(routes, events).aliases, r)
  {
    var steps := S.IssuedForever(routes, events, r.receiving.alias);
  }

  /** The only message a transaction can add is the one it delivers. */
  lemma AddedIsDelivered(w: World, input: K.Input, m: MessageId)
    requires Inv(w) && ValidFacts(Correspond(input))
    requires m in K.After(w.mail, Facing(w, input)).messages && m !in w.mail.messages
    ensures Delivering(w, input).Some?
    ensures K.After(w.mail, Facing(w, input)).messages[m] == Delivering(w, input).value.delivery.record
  {
  }

  lemma DeliveredIsRouted(w: World, input: K.Input)
    requires Inv(w) && ValidFacts(Correspond(input)) && Delivering(w, input).Some?
    ensures V.Routed(w.routes.aliases, Delivering(w, input).value.delivery.record)
  {
    DeliveringExecutes(w, input);
    C.DeliveryWasAccepted(input.request.content, K.Snapshot(w.mail, Facing(w, input)), input.now);
  }

  /** All messages were received on these rows. */
  predicate AllRouted(aliases: map<AliasId, A.Alias>, mail: K.Store) {
    forall m :: m in mail.messages ==> V.Routed(aliases, mail.messages[m])
  }

  lemma CorrespondRouted(w: World, input: K.Input, mail: K.Store)
    requires Inv(w) && ValidFacts(Correspond(input)) && mail == K.After(w.mail, Facing(w, input))
    ensures K.Inv(mail) && AllRouted(w.routes.aliases, mail)
  {
    FacingIsValid(w, input);
    K.AfterKeepsInv(w.mail, Facing(w, input));
    forall m | m in mail.messages ensures V.Routed(w.routes.aliases, mail.messages[m]) {
      if m !in w.mail.messages {
        AddedIsDelivered(w, input, m);
        DeliveredIsRouted(w, input);
      }
    }
  }

  lemma RoutesKeepTraced(routes: S.Store, events: seq<S.Event>, mail: K.Store)
    requires S.Inv(routes) && K.Inv(mail) && AllRouted(routes.aliases, mail)
    ensures S.Inv(S.Run(routes, events)) && V.Traced(S.Run(routes, events).aliases, mail)
  {
    S.RunKeepsInv(routes, events);
    forall m | m in mail.messages ensures V.Routed(S.Run(routes, events).aliases, mail.messages[m]) {
      RoutedStays(routes, events, mail.messages[m]);
    }
  }

  lemma ApplyKeepsInv(w: World, e: Event)
    requires Inv(w) && ValidFacts(e)
    ensures Inv(Apply(w, e))
  {
    var routes, mail := ApplyProjects(w, e);
    var next := Apply(w, e);
    if e.Correspond? {
      CorrespondProjects(w, e.sending);
      CorrespondRouted(w, e.sending, next.mail);
    }
    RoutesKeepTraced(w.routes, routes, next.mail);
  }

  lemma {:induction false} RunKeepsInv(w: World, events: seq<Event>)
    requires Inv(w) && forall i :: 0 <= i < |events| ==> ValidFacts(events[i])
    ensures Inv(Run(w, events))
    decreases |events|
  {
    if events != [] {
      ApplyKeepsInv(w, events[0]);
      RunKeepsInv(Apply(w, events[0]), events[1..]);
    }
  }

  /** One transaction before a run that is known. */
  lemma ProjectsOneMore(w: World, next: World, last: World, r: seq<S.Event>, m: seq<K.Input>, rs: seq<S.Event>, ms: seq<K.Input>)
    requires next == World(S.Run(w.routes, r), K.Run(w.mail, m))
    requires last == World(S.Run(next.routes, rs), K.Run(next.mail, ms))
    ensures last == World(S.Run(w.routes, r + rs), K.Run(w.mail, m + ms))
  {
    RoutesConcat(w.routes, r, rs);
    MailConcat(w.mail, m, ms);
  }

  /** Any joint run is a run of each store on its own, so every run law of either holds of the two together, with
      nothing assumed about the aliases a delivery is admitted on. */
  lemma {:induction false} RunProjects(w: World, events: seq<Event>) returns (routes: seq<S.Event>, mail: seq<K.Input>)
    requires Inv(w) && forall i :: 0 <= i < |events| ==> ValidFacts(events[i])
    ensures forall i :: 0 <= i < |mail| ==> K.ValidInput(mail[i])
    ensures Run(w, events) == World(S.Run(w.routes, routes), K.Run(w.mail, mail))
    decreases |events|
  {
    if events == [] {
      routes, mail := [], [];
    } else {
      var r, m := ApplyProjects(w, events[0]);
      ApplyKeepsInv(w, events[0]);
      var rs, ms := RunProjects(Apply(w, events[0]), events[1..]);
      ProjectsOneMore(w, Apply(w, events[0]), Run(w, events), r, m, rs, ms);
      routes, mail := r + rs, m + ms;
    }
  }

  /** In every reachable world both stores are sound and every message keeps its place and its text. */
  lemma ReachableWorldsAreSound(events: seq<Event>, more: seq<Event>)
    requires forall i :: 0 <= i < |events| ==> ValidFacts(events[i])
    requires forall i :: 0 <= i < |more| ==> ValidFacts(more[i])
    ensures Inv(Run(EMPTY, events))
    ensures K.Keeps(Run(EMPTY, events).mail, Run(Run(EMPTY, events), more).mail)
  {
    RunKeepsInv(EMPTY, events);
    var rs, ms := RunProjects(Run(EMPTY, events), more);
    K.RunKeepsMessages(Run(EMPTY, events).mail, ms);
  }

  /** A retired alias, or one past its deadline, receives nothing more over any joint run, on either route. */
  lemma NothingEntersADeadRoute(w: World, events: seq<Event>, id: AliasId, input: K.Input)
    requires Inv(w) && forall i :: 0 <= i < |events| ==> ValidFacts(events[i])
    requires id in w.routes.aliases
    requires var l := w.routes.aliases[id].lifecycle; l.Retired? || (l.Replaced? && l.until <= input.now)
    requires ValidFacts(Correspond(input))
    ensures var later := Run(w, events);
            Delivering(later, input).Some? ==> Delivering(later, input).value.delivery.record.receiving.alias != id
  {
    var later := Run(w, events);
    var routes, mail := RunProjects(w, events);
    RunKeepsInv(w, events);
    if Delivering(later, input).Some? && Delivering(later, input).value.delivery.record.receiving.alias == id {
      var sender := input.request.content.persona;
      var conversation := Delivering(later, input).value.delivery.record.manifest.conversation;
      S.DeadRoutesStayDead(w.routes, routes, id, sender, conversation, input.now);
      DeliveredWasAccepted(later, input);
      assert false;
    }
  }

  /** Both routes ask the alias itself: a delivery's alias accepts its sender in its conversation, now. */
  lemma DeliveredWasAccepted(w: World, input: K.Input)
    requires Inv(w) && ValidFacts(Correspond(input)) && Delivering(w, input).Some?
    ensures var t := Delivering(w, input).value;
            var id := t.delivery.record.receiving.alias;
            && id in w.routes.aliases
            && A.AcceptsMail(w.routes.aliases[id], input.request.content.persona, t.delivery.record.manifest.conversation, input.now)
  {
    DeliveringExecutes(w, input);
    C.DeliveryWasAccepted(input.request.content, K.Snapshot(w.mail, Facing(w, input)), input.now);
  }

  // ---- restrictions freeze what was delivered ----

  /** What a committed restriction writes. */
  lemma RestrictedRow(r: M.SignedCommand, c: M.Context, scope: M.SigningScope, domain: string, at: Time)
    requires r.command.Restrict? && M.Decide(r, c, scope, domain, at).Success?
    requires M.Decide(r, c, scope, domain, at).value.effects.Some?
    requires M.Decide(r, c, scope, domain, at).value.receipt.outcome.Changed?
    ensures r.command.id in c.aliases
    ensures var row := A.Restrict(c.aliases[r.command.id], r.command.expected, M.OnRoute(c.existing, r.command.id), at);
            && row.Success? && row.value.id == c.aliases[r.command.id].id && row.value.lifecycle.Restricted?
            && M.Decide(r, c, scope, domain, at).value.effects.value.aliases == [row.value]
  {
  }

  /** A restriction commits. */
  ghost predicate Restricts(w: World, input: S.Input) {
    && input.request.command.Restrict?
    && var d := S.Decide(w.routes, Evidenced(w, input));
       d.Success? && d.value.effects.Some? && d.value.receipt.outcome.Changed?
  }

  lemma RestrictionWrites(w: World, input: S.Input)
    requires Inv(w) && Restricts(w, input)
    ensures var id, aliases := input.request.command.id, w.routes.aliases;
            && id in aliases && aliases[id].owner == input.request.owner
            && var own := M.OnRoute(V.Admitted(V.View(w.mail, input.facts.existing), aliases, aliases[id].owner), id);
               var row := A.Restrict(aliases[id], input.request.command.expected, own, input.at);
               && row.Success? && row.value.lifecycle.Restricted?
               && id in S.After(w.routes, Evidenced(w, input)).aliases
               && S.After(w.routes, Evidenced(w, input)).aliases[id] == row.value
  {
    var i, id := Evidenced(w, input), input.request.command.id;
    var c := S.Snapshot(w.routes, i);
    RestrictedRow(i.request, c, i.scope, i.domain, i.at);
    var row := A.Restrict(c.aliases[id], i.request.command.expected, M.OnRoute(c.existing, id), i.at).value;
    S.OneRowCommitted(w.routes, i, row);
  }

  /** A committed restriction freezes exactly what was delivered: whoever may write afterwards has written to that
      alias in that conversation, and everyone who has still may. */
  lemma RestrictionFreezesDeliveries(w: World, input: S.Input, sender: Identity, conversation: ConversationId, now: Time)
    requires Inv(w) && Restricts(w, input) && input.at <= now
    ensures var id, after := input.request.command.id, Apply(w, Manage(input)).routes.aliases;
            var g := V.Group(id, conversation, sender);
            && id in after && after[id].lifecycle.Restricted?
            && (A.AcceptsMail(after[id], sender, conversation, now) <==> V.Delivered(V.View(w.mail, input.facts.existing), g))
  {
    RestrictionWrites(w, input);
    V.RestrictionMeans(w.routes.aliases, w.mail, input.facts.existing, input.request.command.id,
                       input.request.command.expected, input.at, sender, conversation, now);
  }

  /** And it stays frozen: over any joint run while the route is open, a pair is accepted exactly if it had
      delivered before the restriction or the run approved it. */
  lemma FrozenWhileOpen(w: World, input: S.Input, events: seq<Event>, sender: Identity, conversation: ConversationId, now: Time)
    returns (steps: seq<A.Step>)
    requires Inv(w) && Restricts(w, input) && forall i :: 0 <= i < |events| ==> ValidFacts(events[i])
    ensures var id, after := input.request.command.id, Run(Apply(w, Manage(input)), events).routes.aliases;
            var g := V.Group(id, conversation, sender);
            && id in after && id in Apply(w, Manage(input)).routes.aliases
            && after[id] == A.Run(Apply(w, Manage(input)).routes.aliases[id], steps)
            && (A.StillOpen(after[id], now) && after[id].changedAt <= now && input.at <= now ==>
                  (A.AcceptsMail(after[id], sender, conversation, now) <==>
                     || V.Delivered(V.View(w.mail, input.facts.existing), g)
                     || A.Approved(Apply(w, Manage(input)).routes.aliases[id], steps, sender, conversation)))
  {
    var next, id := Apply(w, Manage(input)), input.request.command.id;
    RestrictionWrites(w, input);
    ApplyKeepsInv(w, Manage(input));
    var routes, mail := RunProjects(next, events);
    steps := S.IssuedForever(next.routes, routes, id);
    var row := next.routes.aliases[id];
    if A.StillOpen(A.Run(row, steps), now) && A.Run(row, steps).changedAt <= now && input.at <= now {
      RestrictionFreezesDeliveries(w, input, sender, conversation, now);
      A.RestrictionOnlyGrows(row, steps, sender, conversation, now);
    }
  }
}
