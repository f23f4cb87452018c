/** The allowance of a paired sender over whole runs of a deployment: what was delivered on a lane of an alias's
    permission, however deliveries, commands and other aliases' traffic interleave. */
module PairedLanes {
  import opened Wrappers
  import opened Primitives
  import A = Aliases
  import P = Permission
  import L = Lanes
  import S = AliasStore
  import D = Deliveries
  import C = Correspondence
  import K = CorrespondenceStore
  import W = Deployment

  /** The alias's permission has a lane in this place. */
  predicate Holds(aliases: map<AliasId, A.Alias>, id: AliasId, k: nat) {
    id in aliases && aliases[id].permission.state.Senders? && k < |aliases[id].permission.state.lanes|
  }

  function LaneAt(aliases: map<AliasId, A.Alias>, id: AliasId, k: nat): L.Lane
    requires Holds(aliases, id, k)
  {
    aliases[id].permission.state.lanes[k]
  }

  /** What a committed delivery paid on this lane of this alias, if it did. */
  function PaidIn(t: D.Transition, id: AliasId, lane: LaneId): seq<L.Payment> {
    match W.SpendingOf(t)
    case None => []
    case Some(s) =>
      if s.alias == id && s.paid.grant.id == lane
      then [L.Payment(t.delivery.record.receiving.message, t.delivery.record.receiving.at, s.paid)] else []
  }

  function PaidBy(w: W.World, e: W.Event, id: AliasId, lane: LaneId): seq<L.Payment> {
    match e
    case Manage(_) => []
    case Correspond(input) =>
      match W.Delivering(w, input)
      case None => []
      case Some(t) => PaidIn(t, id, lane)
  }

  /** The payments of a run, in order. */
  ghost function PaidOver(w: W.World, events: seq<W.Event>, id: AliasId, lane: LaneId): seq<L.Payment>
    decreases |events|
  {
    if events == [] then [] else PaidBy(w, events[0], id, lane) + PaidOver(W.Apply(w, events[0]), events[1..], id, lane)
  }

  /** Writing back a spent lane, seen from any lane of the permission. */
  lemma ConsumedLane(p: P.ReceivingPermission, paid: L.StoredLane, before: L.Lane, k: nat)
    requires P.Accepts(p) && p.state.Senders? && before in p.state.lanes && k < |p.state.lanes|
    requires before.grant == paid.grant && P.Consume(p, paid).Success?
    ensures var q := P.Consume(p, paid).value;
            && q.state.Senders? && k < |q.state.lanes| && q.revision == p.revision
            && (if p.state.lanes[k].grant.id == paid.grant.id
                then p.state.lanes[k] == before && q.state.lanes[k] == paid else q.state.lanes[k] == p.state.lanes[k])
  {
    P.ConsumeSucceedsExactly(p, paid);
    var i :| 0 <= i < |p.state.lanes| && p.state.lanes[i] == before;
    assert p.state.lanes[k].grant.id == paid.grant.id ==> i == k || i < k || k < i;
  }

  /** Seen from any lane of the permission: its own payment, or none. */
  lemma LanePaid(p: P.ReceivingPermission, paid: L.StoredLane, before: L.Lane, k: nat, message: MessageId, at: Time)
    requires P.Accepts(p) && p.state.Senders? && before in p.state.lanes && k < |p.state.lanes|
    requires L.Advances(before, paid, message, at) && P.Consume(p, paid).Success?
    ensures var q, l := P.Consume(p, paid).value, p.state.lanes[k];
            var ps := if paid.grant.id == l.grant.id then [L.Payment(message, at, paid)] else [];
            && q.state.Senders? && k < |q.state.lanes| && q.revision == p.revision
            && L.Paid(l, ps) && L.Last(l, ps) == q.state.lanes[k]
  {
    ConsumedLane(p, paid, before, k);
    if p.state.lanes[k].grant.id == paid.grant.id { OnePayment(before, [L.Payment(message, at, paid)]); }
  }

  lemma OnePayment(l: L.Lane, ps: seq<L.Payment>)
    requires |ps| == 1 && L.Advances(l, ps[0].after, ps[0].message, ps[0].at)
    ensures L.Paid(l, ps) && L.Last(l, ps) == ps[0].after
  {
    assert L.Paid(ps[0].after, ps[1..]);
  }

  /** The lane a paired delivery was admitted on, in the row it names. */
  lemma AdmittedLane(c: C.Context, t: D.Transition) returns (before: L.Lane)
    requires C.PaysAsRecorded(c, t.delivery.record.receiving, t.lane) && W.SpendingOf(t).Some?
    ensures var s, route := W.SpendingOf(t).value, t.delivery.record.receiving;
            && c.routed.Some? && c.routed.value.alias.id == s.alias && c.routed.value.alias.permission.state.Senders?
            && before in c.routed.value.alias.permission.state.lanes
            && L.Advances(before, s.paid, route.message, route.at)
  {
    var route := t.delivery.record.receiving;
    var basis := route.provenance.basis;
    assert C.SpendsPaired(c, route, t.lane, basis.id, basis.version, basis.permissionRevision);
    before :| before in c.routed.value.alias.permission.state.lanes && before.grant.id == basis.id
              && D.Spends(before, t.lane.value, route.message) && L.Advances(before, t.lane.value, route.message, route.at);
  }

  /** A delivery's spending, persisted, is one payment on the lane it was admitted on and none on any other. */
  lemma DeliveryPaysLane(st: S.Store, before: L.Lane, t: D.Transition, id: AliasId, k: nat)
    requires S.RowsSound(st) && Holds(st.aliases, id, k) && W.SpendingOf(t).Some?
    requires var s, route := W.SpendingOf(t).value, t.delivery.record.receiving;
             && S.Persist(st, s).Success? && s.alias in st.aliases && st.aliases[s.alias].permission.state.Senders?
             && before in st.aliases[s.alias].permission.state.lanes && L.Advances(before, s.paid, route.message, route.at)
    ensures var after := S.Put(st, S.Persist(st, W.SpendingOf(t).value).value).aliases;
            var l := LaneAt(st.aliases, id, k);
            && Holds(after, id, k) && after[id].permission.revision == st.aliases[id].permission.revision
            && L.Paid(l, PaidIn(t, id, l.grant.id)) && L.Last(l, PaidIn(t, id, l.grant.id)) == LaneAt(after, id, k)
  {
    var s, route := W.SpendingOf(t).value, t.delivery.record.receiving;
    S.PersistedPermission(st, s);
    if id == s.alias { LanePaid(st.aliases[id].permission, s.paid, before, k, route.message, route.at); }
  }

  lemma CorrespondPays(w: W.World, input: K.Input, id: AliasId, k: nat)
    requires W.Inv(w) && W.ValidFacts(W.Correspond(input)) && Holds(w.routes.aliases, id, k)
    ensures var after := W.Apply(w, W.Correspond(input)).routes.aliases;
            var l := LaneAt(w.routes.aliases, id, k);
            var ps := PaidBy(w, W.Correspond(input), id, l.grant.id);
            && Holds(after, id, k) && after[id].permission.revision == w.routes.aliases[id].permission.revision
            && L.Paid(l, ps) && L.Last(l, ps) == LaneAt(after, id, k)
  {
    W.CorrespondProjects(w, input);
    if W.Spent(w, input).Some? {
      W.SpentIsOnFile(w, input);
      W.SpendingNeverConflicts(w, input);
      var before := AdmittedLane(K.Snapshot(w.mail, W.Facing(w, input)), W.Delivering(w, input).value);
      DeliveryPaysLane(w.routes, before, W.Delivering(w, input).value, id, k);
    }
  }

  /** A command that leaves the permission's revision alone leaves its lanes alone. */
  lemma ManageKeepsLane(st: S.Store, input: S.Input, id: AliasId, k: nat)
    requires S.Inv(st) && Holds(st.aliases, id, k)
    ensures id in S.After(st, input).aliases
    ensures S.After(st, input).aliases[id].permission.revision == st.aliases[id].permission.revision ==>
              Holds(S.After(st, input).aliases, id, k) && LaneAt(S.After(st, input).aliases, id, k) == LaneAt(st.aliases, id, k)
  {
    S.ManagedPermission(st, input, id);
  }

  /** One transaction that leaves the permission's revision alone pays on a lane what it delivered on it. */
  lemma EventPays(w: W.World, e: W.Event, id: AliasId, k: nat)
    requires W.Inv(w) && W.ValidFacts(e) && Holds(w.routes.aliases, id, k)
    requires id in W.Apply(w, e).routes.aliases
    requires W.Apply(w, e).routes.aliases[id].permission.revision == w.routes.aliases[id].permission.revision
    ensures var after := W.Apply(w, e).routes.aliases;
            var l := LaneAt(w.routes.aliases, id, k);
            var ps := PaidBy(w, e, id, l.grant.id);
            && Holds(after, id, k) && L.Paid(l, ps) && L.Last(l, ps) == LaneAt(after, id, k)
  {
    if e.Manage? {
      ManageKeepsLane(w.routes, W.Evidenced(w, e.input), id, k);
    } else {
      CorrespondPays(w, e.sending, id, k);
    }
  }

  lemma RevisionGrows(w: W.World, events: seq<W.Event>, id: AliasId)
    requires W.Inv(w) && id in w.routes.aliases && forall i :: 0 <= i < |events| ==> W.ValidFacts(events[i])
    ensures id in W.Run(w, events).routes.aliases
    ensures W.Run(w, events).routes.aliases[id].permission.revision >= w.routes.aliases[id].permission.revision
  {
    var routes, mail := W.RunProjects(w, events);
    S.RevisionsGrow(w.routes, routes, id);
  }

  lemma OneGrows(w: W.World, e: W.Event, next: W.World, id: AliasId)
    requires W.Inv(w) && W.ValidFacts(e) && id in w.routes.aliases && next == W.Apply(w, e)
    ensures W.Inv(next) && id in next.routes.aliases
    ensures next.routes.aliases[id].permission.revision >= w.routes.aliases[id].permission.revision
  {
    var routes, mail := W.ApplyProjects(w, e);
    S.RevisionsGrow(w.routes, routes, id);
    W.ApplyKeepsInv(w, e);
  }

  /** What is paid before, and then by the rest of a run. */
  lemma PaysFirst(w: W.World, e: W.Event, next: W.World, id: AliasId, k: nat)
    requires W.Inv(w) && W.ValidFacts(e) && Holds(w.routes.aliases, id, k) && next == W.Apply(w, e)
    requires id in next.routes.aliases
    requires next.routes.aliases[id].permission.revision == w.routes.aliases[id].permission.revision
    ensures Holds(next.routes.aliases, id, k)
    ensures var l := LaneAt(w.routes.aliases, id, k);
            var ps := PaidBy(w, e, id, l.grant.id);
            && L.Paid(l, ps) && L.Last(l, ps) == LaneAt(next.routes.aliases, id, k)
            && LaneAt(next.routes.aliases, id, k).grant == l.grant
  {
    EventPays(w, e, id, k);
    var l := LaneAt(w.routes.aliases, id, k);
    GrantStays(l, PaidBy(w, e, id, l.grant.id));
  }

  lemma PaymentsJoin(l: L.Lane, first: seq<L.Payment>, middle: L.Lane, rest: seq<L.Payment>, last: L.Lane)
    requires L.Paid(l, first) && L.Last(l, first) == middle && L.Paid(middle, rest) && L.Last(middle, rest) == last
    ensures L.Paid(l, first + rest) && L.Last(l, first + rest) == last
  {
    L.PaidConcat(l, first, rest);
  }

  lemma GrantStays(l: L.Lane, ps: seq<L.Payment>)
    requires L.Paid(l, ps)
    ensures L.Last(l, ps).grant == l.grant
    decreases |ps|
  {
    if ps != [] {
      GrantStays(ps[0].after, ps[1..]);
      assert ps[1..] != [] ==> L.Last(ps[0].after, ps[1..]) == ps[|ps| - 1].after;
    }
  }

  /** The first transaction of such a run, when the rest of it ends there too. */
  lemma FirstOfRun(w: W.World, e: W.Event, next: W.World, rest: seq<W.Event>, last: W.World, first: seq<L.Payment>,
                   id: AliasId, k: nat)
    requires W.Inv(w) && W.ValidFacts(e) && forall i :: 0 <= i < |rest| ==> W.ValidFacts(rest[i])
    requires Holds(w.routes.aliases, id, k) && next == W.Apply(w, e) && last == W.Run(next, rest)
    requires first == PaidBy(w, e, id, LaneAt(w.routes.aliases, id, k).grant.id)
    requires id in last.routes.aliases
    requires last.routes.aliases[id].permission.revision == w.routes.aliases[id].permission.revision
    ensures W.Inv(next) && Holds(next.routes.aliases, id, k)
    ensures next.routes.aliases[id].permission.revision == last.routes.aliases[id].permission.revision
    ensures var l := LaneAt(w.routes.aliases, id, k);
            && L.Paid(l, first) && L.Last(l, first) == LaneAt(next.routes.aliases, id, k)
            && LaneAt(next.routes.aliases, id, k).grant == l.grant
  {
    OneGrows(w, e, next, id);
    RevisionGrows(next, rest, id);
    PaysFirst(w, e, next, id, k);
  }

  lemma {:induction false} RunPaysTo(w: W.World, events: seq<W.Event>, last: W.World, ps: seq<L.Payment>, id: AliasId, k: nat)
    requires W.Inv(w) && Holds(w.routes.aliases, id, k) && forall i :: 0 <= i < |events| ==> W.ValidFacts(events[i])
    requires last == W.Run(w, events) && ps == PaidOver(w, events, id, LaneAt(w.routes.aliases, id, k).grant.id)
    requires id in last.routes.aliases
    requires last.routes.aliases[id].permission.revision == w.routes.aliases[id].permission.revision
    ensures Holds(last.routes.aliases, id, k) && L.Paid(LaneAt(w.routes.aliases, id, k), ps)
    ensures L.Last(LaneAt(w.routes.aliases, id, k), ps) == LaneAt(last.routes.aliases, id, k)
    decreases |events|
  {
    if events != [] {
      var next, rest := W.Apply(w, events[0]), events[1..];
      var l := LaneAt(w.routes.aliases, id, k);
      var first, more := PaidBy(w, events[0], id, l.grant.id), PaidOver(next, rest, id, l.grant.id);
      FirstOfRun(w, events[0], next, rest, last, first, id, k);
      RunPaysTo(next, rest, last, more, id, k);
      PaymentsJoin(l, first, LaneAt(next.routes.aliases, id, k), more, LaneAt(last.routes.aliases, id, k));
    }
  }

  /** Over any joint run that leaves the permission's revision where it was, a lane of it has been paid exactly by what
      the run delivered on it, one payment after the other. */
  lemma RunPays(w: W.World, events: seq<W.Event>, id: AliasId, k: nat)
    requires W.Inv(w) && Holds(w.routes.aliases, id, k) && forall i :: 0 <= i < |events| ==> W.ValidFacts(events[i])
    requires id in W.Run(w, events).routes.aliases
    requires W.Run(w, events).routes.aliases[id].permission.revision == w.routes.aliases[id].permission.revision
    ensures Holds(W.Run(w, events).routes.aliases, id, k)
    ensures var l := LaneAt(w.routes.aliases, id, k);
            var ps := PaidOver(w, events, id, l.grant.id);
            L.Paid(l, ps) && L.Last(l, ps) == LaneAt(W.Run(w, events).routes.aliases, id, k)
  {
    RunPaysTo(w, events, W.Run(w, events), PaidOver(w, events, id, LaneAt(w.routes.aliases, id, k).grant.id), id, k);
  }

  /** So the limit holds, whatever interleaves: no message is paid twice, no window takes more than the granted
      maximum, and no stretch of one interval more than twice the maximum. */
  lemma LimitsHold(w: W.World, events: seq<W.Event>, id: AliasId, k: nat, start: Time)
    requires W.Inv(w) && Holds(w.routes.aliases, id, k) && forall i :: 0 <= i < |events| ==> W.ValidFacts(events[i])
    requires id in W.Run(w, events).routes.aliases
    requires W.Run(w, events).routes.aliases[id].permission.revision == w.routes.aliases[id].permission.revision
    ensures var l := LaneAt(w.routes.aliases, id, k);
            var ps := PaidOver(w, events, id, l.grant.id);
            && (forall i, j :: 0 <= i < j < |ps| ==> ps[i].message != ps[j].message)
            && (forall i :: 0 <= i < |ps| ==> ps[i].message !in l.admitted)
            && L.InWindow(ps, start) + (if start == l.windowStart then l.inWindow else 0) <= l.grant.maxMessages
            && L.InSpan(ps, start, l.grant.interval) <= 2 * l.grant.maxMessages - if l.inWindow > 0 then 1 else 0
  {
    var l := LaneAt(w.routes.aliases, id, k);
    var ps := PaidOver(w, events, id, l.grant.id);
    RunPays(w, events, id, k);
    assert L.ValidLane(l) by { assert P.LanesValid(w.routes.aliases[id].permission); }
    L.MessagesArePaidOnce(l, ps);
    L.WindowsKeepTheLimit(l, ps, start);
    L.AnySpanKeepsTwiceTheLimit(l, ps, start);
  }
}
