/** The alias store over whole runs: the documented contract (one protected snapshot, one decision,
    all of its effects or none; crates/cs-mail-application/src/aliases.rs) over the rows
    crates/cs-mail-storage-postgres/src/aliases.rs keeps. Rows are never deleted, so the identifiers and
    addresses that are reserved are those of every row ever written, plus the external directory's. */
module AliasStore {
  import opened Wrappers
  import opened Primitives
  import opened AliasErrors
  import A = Aliases
  import P = Permission
  import L = Lanes
  import C = AliasCommands

  /** `issued` lists the identifiers in the order their rows were first written. */
  datatype Store = Store(
    aliases: map<AliasId, A.Alias>, receipts: map<(nat, nat), C.Receipt>, issued: seq<AliasId>)

  const EMPTY := Store(map[], map[], [])

  /** One transaction's input: the request and everything the store reads from elsewhere. */
  datatype Input = Input(
    request: C.SignedCommand, facts: C.Context, directory: set<A.MemberAddress>,
    scope: C.SigningScope, domain: string, at: Time)

  function OwnedBy(aliases: map<AliasId, A.Alias>, owner: Identity): map<AliasId, A.Alias> {
    map id | id in aliases && aliases[id].owner == owner :: aliases[id]
  }

  function Addresses(aliases: map<AliasId, A.Alias>): set<A.MemberAddress> {
    set id | id in aliases :: aliases[id].address
  }

  function Key(r: C.SignedCommand): (nat, nat) {
    (r.account, r.operation)
  }

  function Snapshot(st: Store, input: Input): C.Context {
    input.facts.(
    aliases := OwnedBy(st.aliases, input.request.owner),
    reservedIds := st.aliases.Keys,
    reservedAddresses := Addresses(st.aliases) + input.directory,
    prior := if Key(input.request) in st.receipts then Some(st.receipts[Key(input.request)]) else None)
  }

  function Put(st: Store, a: A.Alias): Store {
    st.(aliases := st.aliases[a.id := a], issued := if a.id in st.aliases then st.issued else st.issued + [a.id])
  }

  function PutAll(st: Store, aliases: seq<A.Alias>): Store
    decreases |aliases|
  {
    if aliases == [] then st else PutAll(Put(st, aliases[0]), aliases[1..])
  }

  /** The upsert's own guard: a row keeps its owner and its address. */
  predicate RowsAgree(st: Store, aliases: seq<A.Alias>) {
    forall i :: 0 <= i < |aliases| ==>
      aliases[i].id in st.aliases ==>
        && st.aliases[aliases[i].id].owner == aliases[i].owner
        && st.aliases[aliases[i].id].address == aliases[i].address
  }

  function Commit(st: Store, key: (nat, nat), effects: C.Effects): Store {
    var next := PutAll(st, effects.aliases);
    next.(receipts := next.receipts[key := effects.receipt])
  }

  function Decide(st: Store, input: Input): Result<C.Decision, AliasError> {
    C.Decide(input.request, Snapshot(st, input), input.scope, input.domain, input.at)
  }

  function After(st: Store, input: Input): Store {
    match Decide(st, input)
    case Failure(_) => st
    case Success(d) => if d.effects.None? then st else Commit(st, Key(input.request), d.effects.value)
  }

  /** What a committed delivery writes back: the paired lane it spent, against the very row, permission and
      lane version its admission named. */
  datatype Spending = Spending(
    alias: AliasId, recipient: Identity, permissionRevision: U64, lane: LaneId, version: U64, paid: L.StoredLane)

  /** `persist_paired_lane`. */
  function Persist(st: Store, s: Spending): Result<A.Alias, AliasError> {
    if s.lane != s.paid.grant.id || CheckedNext(s.version) != Some(s.paid.version) then Failure(Conflict)
    else if s.alias !in st.aliases then Failure(Conflict)
    else
      var row := st.aliases[s.alias];
      if row.owner != s.recipient || row.permission.revision != s.permissionRevision then Failure(Conflict)
      else
        var permission :- P.Consume(row.permission, s.paid);
        A.WithPermission(row, permission)
  }

  /** The two transactions that write these rows: a management command, and a delivery's spending. */
  datatype Event = Manage(input: Input) | Spend(spending: Spending)

  function Apply(st: Store, e: Event): Store {
    match e
    case Manage(input) => After(st, input)
    case Spend(s) =>
      match Persist(st, s)
      case Success(row) => Put(st, row)
      case Failure(_) => st
  }

  function Run(st: Store, events: seq<Event>): Store
    decreases |events|
  {
    if events == [] then st else Run(Apply(st, events[0]), events[1..])
  }

  // ---- the invariant ----

  ghost function Position(issued: seq<AliasId>, id: AliasId): (k: nat)
    requires id in issued
    ensures k < |issued| && issued[k] == id
  {
    if issued[0] == id then 0 else 1 + Position(issued[1..], id)
  }

  predicate RowsSound(st: Store) {
    forall id :: id in st.aliases ==> st.aliases[id].id == id && A.Sound(st.aliases[id])
  }

  predicate LanesSound(st: Store) {
    forall id :: id in st.aliases ==> P.LanesValid(st.aliases[id].permission)
  }

  predicate AddressesUnique(st: Store) {
    forall x, y :: x in st.aliases && y in st.aliases && st.aliases[x].address == st.aliases[y].address ==> x == y
  }

  ghost predicate IssuedOnce(st: Store) {
    && (forall i, j :: 0 <= i < j < |st.issued| ==> st.issued[i] != st.issued[j])
    && (forall id :: id in st.issued <==> id in st.aliases)
  }

  predicate Links(st: Store, id: AliasId, target: AliasId) {
    id in st.aliases && st.aliases[id].lifecycle.Replaced? && st.aliases[id].lifecycle.replacement == target
  }

  /** Replacement links lead to a row written strictly later. */
  ghost predicate LinksGoForward(st: Store) {
    forall id, target :: Links(st, id, target) ==>
      target in st.issued && id in st.issued && Position(st.issued, id) < Position(st.issued, target)
  }

  ghost predicate LinksInjective(st: Store) {
    forall x, y, target :: Links(st, x, target) && Links(st, y, target) ==> x == y
  }

  predicate ReceiptsMatch(st: Store) {
    forall k :: k in st.receipts ==>
      Key(st.receipts[k].digest) == k && C.Matches(st.receipts[k], st.receipts[k].digest)
  }

  ghost predicate Inv(st: Store) {
    && RowsSound(st) && LanesSound(st) && AddressesUnique(st) && IssuedOnce(st)
    && LinksGoForward(st) && LinksInjective(st) && ReceiptsMatch(st)
  }

  // ---- writing one row ----

  lemma {:induction false} PositionIsStable(issued: seq<AliasId>, more: seq<AliasId>, id: AliasId)
    requires id in issued
    ensures Position(issued + more, id) == Position(issued, id)
  {
    if issued[0] != id {
      assert (issued + more)[1..] == issued[1..] + more;
      PositionIsStable(issued[1..], more, id);
    }
  }

  lemma {:induction false} PositionOfLast(issued: seq<AliasId>, id: AliasId)
    requires id !in issued
    ensures Position(issued + [id], id) == |issued|
  {
    if issued != [] {
      assert (issued + [id])[1..] == issued[1..] + [id];
      PositionOfLast(issued[1..], id);
    }
  }

  /** Writing any sound row keeps every row sound, and receipts as they are. */
  lemma PutKeepsRows(st: Store, a: A.Alias)
    requires RowsSound(st) && A.Sound(a)
    ensures RowsSound(Put(st, a))
  {
  }

  lemma PutKeepsLanes(st: Store, a: A.Alias)
    requires LanesSound(st) && P.LanesValid(a.permission)
    ensures LanesSound(Put(st, a))
  {
  }

  lemma PutKeepsReceipts(st: Store, a: A.Alias)
    requires ReceiptsMatch(st)
    ensures ReceiptsMatch(Put(st, a))
  {
  }

  /** What does not depend on the rows' links or addresses. */
  lemma PutKeepsRest(st: Store, a: A.Alias)
    requires Inv(st) && A.Sound(a) && P.LanesValid(a.permission)
    ensures RowsSound(Put(st, a)) && LanesSound(Put(st, a)) && ReceiptsMatch(Put(st, a))
  {
    PutKeepsRows(st, a);
    PutKeepsLanes(st, a);
    PutKeepsReceipts(st, a);
  }

  /** Rewriting an existing row without giving it a new link. */
  lemma RewriteKeepsLinks(st: Store, a: A.Alias)
    requires IssuedOnce(st) && LinksGoForward(st) && LinksInjective(st) && a.id in st.aliases
    requires a.lifecycle.Replaced? ==> a.lifecycle == st.aliases[a.id].lifecycle
    ensures IssuedOnce(Put(st, a)) && LinksGoForward(Put(st, a)) && LinksInjective(Put(st, a))
  {
    assert forall id, target :: Links(Put(st, a), id, target) ==> Links(st, id, target);
  }

  lemma RewriteKeepsAddresses(st: Store, a: A.Alias)
    requires AddressesUnique(st) && a.id in st.aliases && a.address == st.aliases[a.id].address
    ensures AddressesUnique(Put(st, a))
  {
  }

  lemma RewriteKeepsInv(st: Store, a: A.Alias)
    requires Inv(st) && a.id in st.aliases && A.Sound(a) && P.LanesValid(a.permission)
    requires a.address == st.aliases[a.id].address
    requires a.lifecycle.Replaced? ==> a.lifecycle == st.aliases[a.id].lifecycle
    ensures Inv(Put(st, a))
  {
    PutKeepsRest(st, a);
    RewriteKeepsLinks(st, a);
    RewriteKeepsAddresses(st, a);
  }

  /** Writing a fresh, active row. */
  lemma FreshRowKeepsLinks(st: Store, a: A.Alias)
    requires IssuedOnce(st) && LinksGoForward(st) && LinksInjective(st)
    requires a.id !in st.aliases && a.lifecycle.Active?
    ensures IssuedOnce(Put(st, a)) && LinksGoForward(Put(st, a)) && LinksInjective(Put(st, a))
    ensures forall id :: !Links(Put(st, a), id, a.id)
  {
    var next := Put(st, a);
    assert forall id, target :: Links(next, id, target) ==> Links(st, id, target);
    forall id, target | Links(next, id, target)
      ensures target in next.issued && id in next.issued
      ensures Position(next.issued, id) < Position(next.issued, target)
    {
      assert Links(st, id, target);
      PositionIsStable(st.issued, [a.id], id);
      PositionIsStable(st.issued, [a.id], target);
    }
    forall id ensures id in next.issued <==> id in next.aliases {}
  }

  lemma FreshRowKeepsAddresses(st: Store, a: A.Alias)
    requires AddressesUnique(st) && a.id !in st.aliases && a.address !in Addresses(st.aliases)
    ensures AddressesUnique(Put(st, a))
  {
    assert forall id :: id in st.aliases ==> st.aliases[id].address in Addresses(st.aliases);
  }

  lemma FreshRowKeepsInv(st: Store, a: A.Alias)
    requires Inv(st) && a.id !in st.aliases && a.address !in Addresses(st.aliases)
    requires A.Sound(a) && P.LanesValid(a.permission) && a.lifecycle.Active?
    ensures Inv(Put(st, a)) && forall id :: !Links(Put(st, a), id, a.id)
  {
    PutKeepsRest(st, a);
    FreshRowKeepsLinks(st, a);
    FreshRowKeepsAddresses(st, a);
  }

  /** Linking an existing row to a later one, which nothing links to yet. */
  lemma LinkKeepsLinks(st: Store, a: A.Alias, target: AliasId)
    requires IssuedOnce(st) && LinksGoForward(st) && LinksInjective(st) && a.id in st.aliases
    requires a.lifecycle.Replaced? && a.lifecycle.replacement == target
    requires target in st.aliases && Position(st.issued, a.id) < Position(st.issued, target)
    requires forall id :: !Links(st, id, target)
    ensures IssuedOnce(Put(st, a)) && LinksGoForward(Put(st, a)) && LinksInjective(Put(st, a))
  {
    LinkAddsOne(st, a, target);
    var next := Put(st, a);
    forall x, y, t | Links(next, x, t) && Links(next, y, t) ensures x == y {
      assert Links(st, x, t) || (x == a.id && t == target);
      assert Links(st, y, t) || (y == a.id && t == target);
    }
    forall id, t | Links(next, id, t)
      ensures t in next.issued && id in next.issued && Position(next.issued, id) < Position(next.issued, t)
    {
      assert Links(st, id, t) || (id == a.id && t == target);
    }
  }

  lemma LinkAddsOne(st: Store, a: A.Alias, target: AliasId)
    requires a.id in st.aliases && a.lifecycle.Replaced? && a.lifecycle.replacement == target
    ensures forall id, t :: Links(Put(st, a), id, t) ==> Links(st, id, t) || (id == a.id && t == target)
  {
  }

  lemma LinkKeepsInv(st: Store, a: A.Alias, target: AliasId)
    requires Inv(st) && a.id in st.aliases && A.Sound(a) && P.LanesValid(a.permission)
    requires a.address == st.aliases[a.id].address
    requires a.lifecycle.Replaced? && a.lifecycle.replacement == target
    requires target in st.aliases && Position(st.issued, a.id) < Position(st.issued, target)
    requires forall id :: !Links(st, id, target)
    ensures Inv(Put(st, a))
  {
    PutKeepsRest(st, a);
    LinkKeepsLinks(st, a, target);
    RewriteKeepsAddresses(st, a);
  }

  lemma PutPair(st: Store, former: A.Alias, next: A.Alias)
    ensures PutAll(st, [former, next]) == Put(Put(st, former), next)
  {
    assert [former, next][1..] == [next] && [next][1..] == [];
    assert PutAll(st, [former, next]) == PutAll(Put(st, former), [next]);
    assert PutAll(Put(st, former), [next]) == PutAll(Put(Put(st, former), next), []);
  }

  /** The two writes of a replacement commute. */
  lemma PairCommutes(st: Store, former: A.Alias, next: A.Alias)
    requires former.id in st.aliases && next.id !in st.aliases
    ensures Put(Put(st, former), next) == Put(Put(st, next), former)
  {
    assert st.aliases[former.id := former][next.id := next] == st.aliases[next.id := next][former.id := former];
  }

  /** Writing a replaced row together with its fresh replacement. */
  lemma ReplacementKeepsInv(st: Store, former: A.Alias, next: A.Alias)
    requires Inv(st) && former.id in st.aliases && A.Sound(former)
    requires P.LanesValid(former.permission) && P.LanesValid(next.permission)
    requires former.address == st.aliases[former.id].address
    requires former.lifecycle.Replaced? && former.lifecycle.replacement == next.id
    requires next.id !in st.aliases && next.address !in Addresses(st.aliases)
    requires A.Sound(next) && next.lifecycle.Active?
    ensures Inv(PutAll(st, [former, next]))
  {
    FreshRowKeepsInv(st, next);
    PositionOfLast(st.issued, next.id);
    PositionIsStable(st.issued, [next.id], former.id);
    LinkKeepsInv(Put(st, next), former, next.id);
    PutPair(st, former, next);
    PairCommutes(st, former, next);
  }

  // ---- one transaction ----

  /** No step puts an invalid lane on file. */
  predicate KeepsLanes(steps: seq<A.Step>) {
    forall i :: 0 <= i < |steps| && steps[i].DoPermission? ==> P.LanesValid(steps[i].permission)
  }

  /** A commanded change of the permission moves its revision on. */
  predicate MovesRevision(a: A.Alias, steps: seq<A.Step>) {
    forall i :: 0 <= i < |steps| && steps[i].DoPermission? ==>
      CheckedNext(a.permission.revision) == Some(steps[i].permission.revision)
  }

  /** The row-level meaning of every command but Create and Replace: at most one lifecycle or
      permission step of one existing row. */
  lemma RewriteShape(r: C.SignedCommand, c: C.Context, domain: string, at: Time) returns (steps: seq<A.Step>)
    requires C.OwnPortfolio(r.owner, c.aliases) && (forall id :: id in c.aliases ==> A.Sound(c.aliases[id]))
    requires !r.command.Inspect? && !r.command.Create? && !r.command.Replace? && !r.command.ScopeSender?
    requires C.Mutate(r, c, domain, at).Success?
    ensures |steps| <= 1 && r.command.id in c.aliases
    ensures forall i :: 0 <= i < |steps| ==> !steps[i].DoReplace? && (steps[i].DoPermission? ==> r.command.ChangePermission?)
    ensures KeepsLanes(steps) && MovesRevision(c.aliases[r.command.id], steps)
    ensures C.Mutate(r, c, domain, at).value.aliases == [A.Run(c.aliases[r.command.id], steps)]
  {
    var a := c.aliases[r.command.id];
    match r.command
    case UseForCorrespondence(id, expected) =>
      steps := [];
    case ChangePermission(id, expected, expectedPermission, action) =>
      C.PermissionChangeMatches(r, c, id, expected, expectedPermission, action, at);
      var next := C.Mutate(r, c, domain, at).value.aliases[0];
      steps := [A.DoPermission(next.permission)];
      assert A.Attempt(a, steps[0]) == Success(next);
    case Restrict(id, expected) =>
      steps := [A.DoRestrict(expected, C.OnRoute(c.existing, id), at)];
    case Retire(id, expected) =>
      steps := [A.DoRetire(expected, at)];
    case Approve(id, expected, sender, conversation) =>
      steps := [A.DoApprove(expected, sender, conversation, at)];
    if steps != [] {
      OneStepRun(a, steps[0]);
    }
  }

  /** A row that took some alias steps, none of them a replacement. */
  lemma RewrittenRow(a: A.Alias, steps: seq<A.Step>)
    requires A.Sound(a) && |steps| <= 1 && forall i :: 0 <= i < |steps| ==> !steps[i].DoReplace?
    requires KeepsLanes(steps) && P.LanesValid(a.permission)
    ensures A.Run(a, steps).lifecycle.Replaced? ==> A.Run(a, steps).lifecycle == a.lifecycle
    ensures P.LanesValid(A.Run(a, steps).permission)
  {
    if steps != [] {
      OneStepRun(a, steps[0]);
      assert steps == [steps[0]];
      if A.Attempt(a, steps[0]).Success? { A.StepShape(a, steps[0]); }
    }
  }

  /** The rows one transaction writes: none, a fresh one, a replaced one with its fresh successor, or an existing
      one some steps on. */
  datatype Writes =
    | Nothing
    | Fresh(row: A.Alias)
    | Linked(former: A.Alias, next: A.Alias, step: A.Step)
    | Stepped(row: A.Alias, steps: seq<A.Step>)

  function Rows(w: Writes): seq<A.Alias> {
    match w
    case Nothing => []
    case Fresh(row) => [row]
    case Linked(former, next, _) => [former, next]
    case Stepped(row, _) => [row]
  }

  /** The row is fresh: a new identifier and address, in force. */
  predicate IsNew(st: Store, a: A.Alias) {
    && a.id !in st.aliases && a.address !in Addresses(st.aliases)
    && A.Sound(a) && P.LanesValid(a.permission) && a.lifecycle.Active?
  }

  /** The row is a sound rewriting of the one on file. */
  predicate Rewrites(st: Store, a: A.Alias) {
    && a.id in st.aliases && a.owner == st.aliases[a.id].owner && a.address == st.aliases[a.id].address
    && A.Sound(a) && P.LanesValid(a.permission)
  }

  predicate Fits(st: Store, w: Writes) {
    match w
    case Nothing => true
    case Fresh(row) => IsNew(st, row)
    case Linked(former, next, _) =>
      Rewrites(st, former) && IsNew(st, next) && former.lifecycle.Replaced? && former.lifecycle.replacement == next.id
    case Stepped(row, _) =>
      Rewrites(st, row) && (row.lifecycle.Replaced? ==> row.lifecycle == st.aliases[row.id].lifecycle)
  }

  /** The steps an existing row takes: at most one. */
  function StepsOf(w: Writes, id: AliasId): seq<A.Step> {
    match w
    case Linked(former, _, step) => if id == former.id then [step] else []
    case Stepped(row, steps) => if id == row.id then steps else []
    case _ => []
  }

  predicate Moves(st: Store, w: Writes) {
    match w
    case Linked(former, _, step) => former.id in st.aliases && A.Run(st.aliases[former.id], [step]) == former
    case Stepped(row, steps) =>
      && row.id in st.aliases && |steps| <= 1 && A.Run(st.aliases[row.id], steps) == row
      && MovesRevision(st.aliases[row.id], steps)
    case _ => true
  }

  /** Only a permission command naming the alias changes its permission. */
  predicate PermissionMovesByCommand(command: C.Command, id: AliasId, steps: seq<A.Step>) {
    forall i :: 0 <= i < |steps| && steps[i].DoPermission? ==> command.ChangePermission? && command.id == id
  }

  predicate ByCommand(command: C.Command, w: Writes) {
    && (w.Linked? ==> w.step.DoReplace?)
    && (w.Stepped? ==> PermissionMovesByCommand(command, w.row.id, w.steps))
  }

  /** The context was read from this store. */
  predicate Served(st: Store, c: C.Context, owner: Identity) {
    && C.OwnPortfolio(owner, c.aliases) && C.Loaded(c)
    && (forall id :: id in c.aliases ==> OnFile(st, id, c.aliases[id]))
    && c.reservedIds == st.aliases.Keys && Addresses(st.aliases) <= c.reservedAddresses
  }

  predicate OnFile(st: Store, id: AliasId, a: A.Alias) {
    id in st.aliases && st.aliases[id] == a && A.Sound(a) && P.LanesValid(a.permission)
  }

  lemma SnapshotIsOwned(st: Store, input: Input)
    requires Inv(st) && input.request.owner != 0
    ensures Served(st, Snapshot(st, input), input.request.owner)
  {
  }

  lemma CreateFits(st: Store, r: C.SignedCommand, c: C.Context, domain: string, at: Time, m: C.Mutation) returns (w: Writes)
    requires Served(st, c, r.owner) && C.Mutate(r, c, domain, at) == Success(m) && r.command.Create?
    ensures Rows(w) == m.aliases && Fits(st, w) && Moves(st, w) && ByCommand(r.command, w)
  {
    C.CreationMatches(r, c, r.command.id, r.command.address, r.command.configuration, domain, at);
    w := Fresh(m.aliases[0]);
  }

  /** What a Replace writes: the named row, one step on, and a fresh row that it links to. */
  lemma ReplaceStep(r: C.SignedCommand, c: C.Context, domain: string, at: Time, m: C.Mutation) returns (step: A.Step)
    requires C.OwnPortfolio(r.owner, c.aliases) && r.command.Replace? && C.Mutate(r, c, domain, at) == Success(m)
    ensures |m.aliases| == 2 && r.command.id in c.aliases && step.DoReplace?
    ensures A.Attempt(c.aliases[r.command.id], step) == Success(m.aliases[0])
  {
    step := A.DoReplace(r.command.expected, m.aliases[1], r.command.until, C.OnRoute(c.existing, r.command.id), at);
  }

  lemma ReplaceRows(st: Store, r: C.SignedCommand, c: C.Context, domain: string, at: Time, m: C.Mutation)
    requires Served(st, c, r.owner) && C.Mutate(r, c, domain, at) == Success(m) && r.command.Replace?
    ensures |m.aliases| == 2 && r.command.id in c.aliases && m.aliases[0].id == r.command.id
    ensures IsNew(st, m.aliases[1])
    ensures m.aliases[0].lifecycle.Replaced? && m.aliases[0].lifecycle.replacement == m.aliases[1].id
  {
    C.ReplacementMatches(r, c, r.command.id, r.command.expected, r.command.replacement, r.command.address,
                         r.command.until, domain, at);
  }

  lemma LinkedFits(st: Store, before: A.Alias, former: A.Alias, next: A.Alias, step: A.Step)
    requires OnFile(st, before.id, before) && step.DoReplace? && A.Attempt(before, step) == Success(former)
    requires IsNew(st, next) && former.lifecycle.Replaced? && former.lifecycle.replacement == next.id
    ensures Fits(st, Linked(former, next, step)) && Moves(st, Linked(former, next, step))
  {
    A.StepShape(before, step);
    OneStepRun(before, step);
  }

  lemma ReplaceFits(st: Store, r: C.SignedCommand, c: C.Context, domain: string, at: Time, m: C.Mutation) returns (w: Writes)
    requires Served(st, c, r.owner) && C.Mutate(r, c, domain, at) == Success(m) && r.command.Replace?
    ensures Rows(w) == m.aliases && Fits(st, w) && Moves(st, w) && ByCommand(r.command, w)
  {
    var step := ReplaceStep(r, c, domain, at, m);
    ReplaceRows(st, r, c, domain, at, m);
    LinkedFits(st, c.aliases[r.command.id], m.aliases[0], m.aliases[1], step);
    w := Linked(m.aliases[0], m.aliases[1], step);
  }

  /** Every other command writes one existing row, at most one step on, and gives it no link. */
  lemma SteppedFits(st: Store, before: A.Alias, steps: seq<A.Step>, row: A.Alias)
    requires OnFile(st, before.id, before) && |steps| <= 1 && KeepsLanes(steps) && row == A.Run(before, steps)
    requires MovesRevision(before, steps)
    requires forall i :: 0 <= i < |steps| ==> !steps[i].DoReplace?
    ensures row.id == before.id && Fits(st, Stepped(row, steps)) && Moves(st, Stepped(row, steps))
  {
    A.RunStaysSound(before, steps);
    RewrittenRow(before, steps);
  }

  lemma RewriteFits(st: Store, r: C.SignedCommand, c: C.Context, domain: string, at: Time, m: C.Mutation) returns (w: Writes)
    requires Served(st, c, r.owner) && C.Mutate(r, c, domain, at) == Success(m)
    requires !r.command.Inspect? && !r.command.Create? && !r.command.Replace? && !r.command.ScopeSender?
    ensures Rows(w) == m.aliases && Fits(st, w) && Moves(st, w) && ByCommand(r.command, w)
  {
    var steps := RewriteShape(r, c, domain, at);
    SteppedFits(st, c.aliases[r.command.id], steps, m.aliases[0]);
    w := Stepped(m.aliases[0], steps);
  }

  lemma MutationFits(st: Store, r: C.SignedCommand, c: C.Context, domain: string, at: Time, m: C.Mutation) returns (w: Writes)
    requires Served(st, c, r.owner) && C.Mutate(r, c, domain, at) == Success(m)
    ensures Rows(w) == m.aliases && Fits(st, w) && Moves(st, w) && ByCommand(r.command, w)
  {
    if r.command.Create? {
      w := CreateFits(st, r, c, domain, at, m);
    } else if r.command.Replace? {
      w := ReplaceFits(st, r, c, domain, at, m);
    } else if r.command.ScopeSender? {
      w := Nothing;
    } else {
      w := RewriteFits(st, r, c, domain, at, m);
    }
  }

  lemma PutOne(st: Store, row: A.Alias)
    ensures PutAll(st, [row]) == Put(st, row)
  {
    assert [row][1..] == [];
    assert PutAll(st, [row]) == PutAll(Put(st, row), []);
  }

  /** Writing rows that fit keeps the invariant, and the upsert's guard never fires. */
  lemma FittingCommits(st: Store, w: Writes)
    requires Inv(st) && Fits(st, w)
    ensures Inv(PutAll(st, Rows(w))) && RowsAgree(st, Rows(w))
  {
    match w
    case Nothing =>
    case Fresh(row) =>
      PutOne(st, row);
      FreshRowKeepsInv(st, row);
    case Linked(former, next, _) =>
      ReplacementKeepsInv(st, former, next);
    case Stepped(row, _) =>
      PutOne(st, row);
      RewriteKeepsInv(st, row);
  }

  lemma OneRowCommitted(st: Store, input: Input, row: A.Alias)
    requires Decide(st, input).Success? && Decide(st, input).value.effects.Some?
    requires Decide(st, input).value.effects.value.aliases == [row]
    ensures row.id in After(st, input).aliases && After(st, input).aliases[row.id] == row
  {
    PutOne(st, row);
  }

  /** What is in an existing row afterwards. */
  lemma RowAfter(st: Store, command: C.Command, w: Writes, id: AliasId)
    requires Fits(st, w) && Moves(st, w) && ByCommand(command, w) && id in st.aliases
    ensures id in PutAll(st, Rows(w)).aliases
    ensures PutAll(st, Rows(w)).aliases[id] == A.Run(st.aliases[id], StepsOf(w, id))
    ensures |StepsOf(w, id)| <= 1 && PermissionMovesByCommand(command, id, StepsOf(w, id))
    ensures MovesRevision(st.aliases[id], StepsOf(w, id))
  {
    match w
    case Nothing =>
    case Fresh(row) => PutOne(st, row);
    case Linked(former, next, _) => PutPair(st, former, next);
    case Stepped(row, _) => PutOne(st, row);
  }

  /** The rows of a committed transaction, whatever its command. */
  lemma CommitFits(st: Store, input: Input) returns (w: Writes)
    requires Inv(st) && Decide(st, input).Success? && Decide(st, input).value.effects.Some?
    ensures var effects := Decide(st, input).value.effects.value;
            && effects.aliases == Rows(w) && Fits(st, w) && Moves(st, w) && ByCommand(input.request.command, w)
            && Key(effects.receipt.digest) == Key(input.request) && C.Matches(effects.receipt, effects.receipt.digest)
  {
    var r, c := input.request, Snapshot(st, input);
    SnapshotIsOwned(st, input);
    C.FreshReceiptMatches(r, c, input.scope, input.domain, input.at);
    var m := C.Mutate(r, c, input.domain, input.at);
    w := Nothing;
    if m.Success? { w := MutationFits(st, r, c, input.domain, input.at, m.value); }
  }

  /** Every transaction keeps the invariant, and the upsert's owner and address guard never fires. */
  lemma AfterKeepsInv(st: Store, input: Input)
    requires Inv(st)
    ensures Inv(After(st, input))
    ensures Decide(st, input).Success? && Decide(st, input).value.effects.Some? ==>
              RowsAgree(st, Decide(st, input).value.effects.value.aliases)
  {
    if Decide(st, input).Success? && Decide(st, input).value.effects.Some? {
      var w := CommitFits(st, input);
      FittingCommits(st, w);
      ReceiptOnly(PutAll(st, Rows(w)), Key(input.request), Decide(st, input).value.effects.value.receipt);
    }
  }

  lemma ReceiptOnly(st: Store, key: (nat, nat), receipt: C.Receipt)
    requires Inv(st) && Key(receipt.digest) == key && C.Matches(receipt, receipt.digest)
    ensures Inv(st.(receipts := st.receipts[key := receipt]))
  {
    var next := st.(receipts := st.receipts[key := receipt]);
    assert forall id, target :: Links(next, id, target) <==> Links(st, id, target);
  }

  lemma ConsumeKeepsLanes(p: P.ReceivingPermission, paid: L.StoredLane)
    requires P.Accepts(p) && P.LanesValid(p) && P.Consume(p, paid).Success?
    ensures P.LanesValid(P.Consume(p, paid).value)
  {
    P.ConsumeSucceedsExactly(p, paid);
    var q := P.Consume(p, paid).value;
    forall lane | lane in q.state.lanes ensures L.ValidLane(lane) {
      var i :| 0 <= i < |q.state.lanes| && q.state.lanes[i] == lane;
      assert p.state.lanes[i] in p.state.lanes;
    }
  }

  /** A spending that persists is one permission step of its row: the lane's next version, and nothing else. */
  lemma SpendingIsAStep(st: Store, s: Spending)
    requires Inv(st) && Persist(st, s).Success?
    ensures s.alias in st.aliases
    ensures var row, next := st.aliases[s.alias], Persist(st, s).value;
            && next == row.(permission := next.permission) && A.Attempt(row, A.DoPermission(next.permission)) == Success(next)
            && P.LanesValid(next.permission) && row.permission.state.Senders?
  {
    ConsumeKeepsLanes(st.aliases[s.alias].permission, s.paid);
  }

  /** What persisting writes into the row. */
  lemma PersistedPermission(st: Store, s: Spending)
    requires RowsSound(st) && Persist(st, s).Success?
    ensures s.alias in st.aliases && P.Consume(st.aliases[s.alias].permission, s.paid).Success?
    ensures P.Accepts(st.aliases[s.alias].permission)
    ensures Persist(st, s).value ==
            st.aliases[s.alias].(permission := P.Consume(st.aliases[s.alias].permission, s.paid).value)
    ensures Persist(st, s).value.id == s.alias
    ensures Persist(st, s).value.permission.revision == st.aliases[s.alias].permission.revision
  {
  }

  /** Whatever the transaction, the invariant holds after it. */
  lemma ApplyKeepsInv(st: Store, e: Event)
    requires Inv(st)
    ensures Inv(Apply(st, e))
  {
    match e
    case Manage(input) => AfterKeepsInv(st, input);
    case Spend(s) =>
      if Persist(st, s).Success? {
        SpendingIsAStep(st, s);
        A.StepShape(st.aliases[s.alias], A.DoPermission(Persist(st, s).value.permission));
        RewriteKeepsInv(st, Persist(st, s).value);
      }
  }

  /** No transaction lowers the revision of a permission. */
  lemma RevisionGrows(st: Store, e: Event, id: AliasId)
    requires Inv(st) && id in st.aliases
    ensures id in Apply(st, e).aliases
    ensures Apply(st, e).aliases[id].permission.revision >= st.aliases[id].permission.revision
  {
    if e.Manage? {
      ManagedPermission(st, e.input, id);
    } else if Persist(st, e.spending).Success? {
      PersistedPermission(st, e.spending);
    }
  }

  // ---- whole runs ----

  lemma {:induction false} RevisionsGrow(st: Store, events: seq<Event>, id: AliasId)
    requires Inv(st) && id in st.aliases
    ensures id in Run(st, events).aliases
    ensures Run(st, events).aliases[id].permission.revision >= st.aliases[id].permission.revision
    decreases |events|
  {
    if events != [] {
      RevisionGrows(st, events[0], id);
      ApplyKeepsInv(st, events[0]);
      RevisionsGrow(Apply(st, events[0]), events[1..], id);
    }
  }

  lemma {:induction false} RunKeepsInv(st: Store, events: seq<Event>)
    requires Inv(st)
    ensures Inv(Run(st, events))
    decreases |events|
  {
    if events != [] {
      ApplyKeepsInv(st, events[0]);
      RunKeepsInv(Apply(st, events[0]), events[1..]);
    }
  }

  /** In every reachable store: no alias replaces two others, no two aliases ever share an address, every
      replacement was issued strictly after the alias it replaces, and every lane on file is a valid record. */
  lemma ReachableStoresAreSound(events: seq<Event>)
    ensures Inv(Run(EMPTY, events))
  {
    RunKeepsInv(EMPTY, events);
  }

  /** Follow replacement links to the end; that this definition terminates is the theorem. */
  ghost function Chain(st: Store, id: AliasId): (chain: seq<AliasId>)
    requires IssuedOnce(st) && LinksGoForward(st) && id in st.aliases
    ensures |chain| > 0 && chain[0] == id
    decreases |st.issued| - Position(st.issued, id)
  {
    if st.aliases[id].lifecycle.Replaced? then
      assert Links(st, id, st.aliases[id].lifecycle.replacement);
      [id] + Chain(st, st.aliases[id].lifecycle.replacement)
    else [id]
  }

  /** Rows on file, each linked to the next, none of them twice. */
  predicate LinkedChain(st: Store, chain: seq<AliasId>) {
    && chain != [] && (forall i :: 0 <= i < |chain| ==> chain[i] in st.aliases)
    && (forall i :: 0 <= i < |chain| - 1 ==> Links(st, chain[i], chain[i + 1]))
    && (forall i, j :: 0 <= i < j < |chain| ==> chain[i] != chain[j])
  }

  lemma OneMoreLink(st: Store, id: AliasId, rest: seq<AliasId>)
    requires LinkedChain(st, rest) && Links(st, id, rest[0]) && id !in rest
    ensures LinkedChain(st, [id] + rest)
  {
    var chain := [id] + rest;
    forall i | 0 <= i < |chain| - 1 ensures Links(st, chain[i], chain[i + 1]) {
      assert i > 0 ==> Links(st, rest[i - 1], rest[i]);
    }
  }

  /** The chain visits no alias twice, each one linked to the next, and ends at an alias in force or retired. */
  lemma {:induction false} ChainEnds(st: Store, id: AliasId)
    requires IssuedOnce(st) && LinksGoForward(st) && id in st.aliases
    ensures var chain := Chain(st, id);
            LinkedChain(st, chain) && !st.aliases[chain[|chain| - 1]].lifecycle.Replaced?
    decreases |st.issued| - Position(st.issued, id)
  {
    if st.aliases[id].lifecycle.Replaced? {
      var next := st.aliases[id].lifecycle.replacement;
      assert Links(st, id, next);
      ChainEnds(st, next);
      ChainGoesForward(st, next);
      OneMoreLink(st, id, Chain(st, next));
    }
  }

  lemma {:induction false} ChainGoesForward(st: Store, id: AliasId)
    requires IssuedOnce(st) && LinksGoForward(st) && id in st.aliases
    ensures forall x :: x in Chain(st, id) ==>
              x in st.issued && Position(st.issued, id) <= Position(st.issued, x)
    decreases |st.issued| - Position(st.issued, id)
  {
    if st.aliases[id].lifecycle.Replaced? {
      assert Links(st, id, st.aliases[id].lifecycle.replacement);
      ChainGoesForward(st, st.aliases[id].lifecycle.replacement);
    }
  }

  /** Whatever a transaction does to an existing row is at most one step of that alias's own life. */
  lemma RowTakesAliasSteps(st: Store, input: Input, id: AliasId) returns (steps: seq<A.Step>)
    requires Inv(st) && id in st.aliases
    ensures id in After(st, input).aliases
    ensures After(st, input).aliases[id] == A.Run(st.aliases[id], steps)
    ensures |steps| <= 1 && PermissionMovesByCommand(input.request.command, id, steps)
    ensures MovesRevision(st.aliases[id], steps)
  {
    steps := [];
    if Decide(st, input).Success? && Decide(st, input).value.effects.Some? {
      var w := CommitFits(st, input);
      RowAfter(st, input.request.command, w, id);
      steps := StepsOf(w, id);
    }
  }

  /** A management command leaves a permission alone or moves its revision on. */
  lemma ManagedPermission(st: Store, input: Input, id: AliasId)
    requires Inv(st) && id in st.aliases
    ensures id in After(st, input).aliases
    ensures var before, after := st.aliases[id].permission, After(st, input).aliases[id].permission;
            after == before || CheckedNext(before.revision) == Some(after.revision)
  {
    var steps := RowTakesAliasSteps(st, input, id);
    SteppedPermission(st.aliases[id], steps);
  }

  lemma SteppedPermission(a: A.Alias, steps: seq<A.Step>)
    requires A.Sound(a) && |steps| <= 1 && MovesRevision(a, steps)
    ensures var after := A.Run(a, steps).permission;
            after == a.permission || CheckedNext(a.permission.revision) == Some(after.revision)
  {
    if steps != [] {
      assert steps == [steps[0]];
      OneStepRun(a, steps[0]);
      if A.Attempt(a, steps[0]).Success? { A.StepShape(a, steps[0]); }
    }
  }

  lemma OneStepRun(a: A.Alias, step: A.Step)
    ensures A.Run(a, [step]) == A.After(a, step)
  {
    assert [step][1..] == [];
    assert A.Run(a, [step]) == A.Run(A.After(a, step), []);
  }

  lemma {:induction false} RunOfConcat(a: A.Alias, first: seq<A.Step>, second: seq<A.Step>)
    ensures A.Run(a, first + second) == A.Run(A.Run(a, first), second)
    decreases |first|
  {
    if first == [] {
      assert first + second == second;
    } else {
      assert (first + second)[1..] == first[1..] + second;
      RunOfConcat(A.After(a, first[0]), first[1..], second);
    }
  }

  /** The same for every transaction, deliveries included. */
  lemma EventTakesAliasSteps(st: Store, e: Event, id: AliasId) returns (steps: seq<A.Step>)
    requires Inv(st) && id in st.aliases
    ensures id in Apply(st, e).aliases
    ensures Apply(st, e).aliases[id] == A.Run(st.aliases[id], steps) && |steps| <= 1
  {
    if e.Manage? {
      steps := RowTakesAliasSteps(st, e.input, id);
    } else {
      steps := [];
      if Persist(st, e.spending).Success? && e.spending.alias == id {
        SpendingIsAStep(st, e.spending);
        steps := [A.DoPermission(Persist(st, e.spending).value.permission)];
        OneStepRun(st.aliases[id], steps[0]);
      }
    }
  }

  /** Over any run of the store, an alias once issued keeps its row, owner, address, configuration and birth, and
      its whole later history is a run of its own transitions: the run-level laws of one alias hold in the store. */
  lemma {:induction false} IssuedForever(st: Store, events: seq<Event>, id: AliasId) returns (steps: seq<A.Step>)
    requires Inv(st) && id in st.aliases
    ensures id in Run(st, events).aliases
    ensures var later := Run(st, events).aliases[id];
            && later == A.Run(st.aliases[id], steps)
            && later.address == st.aliases[id].address && later.owner == st.aliases[id].owner
            && later.createdAt == st.aliases[id].createdAt && later.configuration == st.aliases[id].configuration
    decreases |events|
  {
    if events == [] {
      steps := [];
    } else {
      ApplyKeepsInv(st, events[0]);
      var first := EventTakesAliasSteps(st, events[0], id);
      var second := IssuedForever(Apply(st, events[0]), events[1..], id);
      RunOfConcat(st.aliases[id], first, second);
      steps := first + second;
    }
    A.RunStaysSound(st.aliases[id], steps);
  }

  /** Store-wide: past a replaced alias's deadline, or once it is retired, it never accepts mail again,
      whatever commands anyone issues and whatever is delivered meanwhile. */
  lemma DeadRoutesStayDead(
    st: Store, events: seq<Event>, id: AliasId, sender: Identity, conversation: ConversationId, now: Time)
    requires Inv(st) && id in st.aliases
    requires var l := st.aliases[id].lifecycle; l.Retired? || (l.Replaced? && l.until <= now)
    ensures id in Run(st, events).aliases
    ensures !A.AcceptsMail(Run(st, events).aliases[id], sender, conversation, now)
  {
    var steps := IssuedForever(st, events, id);
    A.DeadAfterDeadline(st.aliases[id], steps, sender, conversation, now);
  }

  /** A receipt on file is never overwritten. */
  lemma {:induction false} ReceiptsAreForever(st: Store, events: seq<Event>, key: (nat, nat))
    requires key in st.receipts
    ensures key in Run(st, events).receipts && Run(st, events).receipts[key] == st.receipts[key]
    decreases |events|
  {
    if events != [] {
      ReceiptStays(st, events[0], key);
      ReceiptsAreForever(Apply(st, events[0]), events[1..], key);
    }
  }

  lemma ReceiptStays(st: Store, e: Event, key: (nat, nat))
    requires key in st.receipts
    ensures key in Apply(st, e).receipts && Apply(st, e).receipts[key] == st.receipts[key]
  {
    if e.Manage? && Decide(st, e.input).Success? && Decide(st, e.input).value.effects.Some? {
      PutAllKeepsReceipts(st, Decide(st, e.input).value.effects.value.aliases);
    }
  }

  lemma {:induction false} PutAllKeepsReceipts(st: Store, aliases: seq<A.Alias>)
    ensures PutAll(st, aliases).receipts == st.receipts
    decreases |aliases|
  {
    if aliases != [] { PutAllKeepsReceipts(Put(st, aliases[0]), aliases[1..]); }
  }

  /** Exactly once, over any run: a request that committed is answered with its own receipt ever after,
      and presenting it again changes nothing. */
  lemma CommittedOnce(st: Store, input: Input, between: seq<Event>, again: Input)
    requires Inv(st) && Decide(st, input).Success? && Decide(st, input).value.effects.Some?
    requires again.request == input.request && again.scope == input.scope
    ensures var later := Run(After(st, input), between);
            && After(later, again) == later
            && (Decide(later, again).Success? ==> Decide(later, again).value.receipt == Decide(st, input).value.receipt)
            && (C.Authenticate(again.request, Snapshot(later, again), again.scope, again.at).Success? ==>
                  Decide(later, again).Success?)
  {
    SnapshotIsOwned(st, input);
    C.FreshReceiptMatches(input.request, Snapshot(st, input), input.scope, input.domain, input.at);
    ReceiptsAreForever(After(st, input), between, Key(input.request));
    C.ResubmissionReturnsReceipt(input.request, Snapshot(st, input), input.at,
                                 Snapshot(Run(After(st, input), between), again), again.at, input.scope, input.domain);
  }

  // ---- what a transaction reads and leaves, row by row ----

  /** What a command is decided on: its owner's rows and no others; every identifier and every address ever used by anybody,
      and the directory's; and the receipt under its own account and operation. */
  lemma SnapshotExactly(st: Store, input: Input, id: AliasId, address: A.MemberAddress)
    ensures var c := Snapshot(st, input);
            && (id in c.aliases <==> id in st.aliases && st.aliases[id].owner == input.request.owner)
            && (id in c.aliases ==> c.aliases[id] == st.aliases[id])
            && (id in c.reservedIds <==> id in st.aliases)
            && (address in c.reservedAddresses <==>
                  address in input.directory || exists k :: k in st.aliases && st.aliases[k].address == address)
            && (c.prior.Some? <==> (input.request.account, input.request.operation) in st.receipts)
            && (c.prior.Some? ==> c.prior.value == st.receipts[(input.request.account, input.request.operation)])
            && c == input.facts.(aliases := c.aliases, reservedIds := c.reservedIds, reservedAddresses := c.reservedAddresses,
                                 prior := c.prior)
  {
  }

  /** A row is written under its own identifier, by the only one of these that has it. */
  lemma {:induction false} PutAllWrites(st: Store, aliases: seq<A.Alias>, i: nat)
    requires i < |aliases| && forall j :: i < j < |aliases| ==> aliases[j].id != aliases[i].id
    ensures aliases[i].id in PutAll(st, aliases).aliases && PutAll(st, aliases).aliases[aliases[i].id] == aliases[i]
    decreases |aliases|
  {
    if i > 0 {
      PutAllWrites(Put(st, aliases[0]), aliases[1..], i - 1);
    } else {
      PutAllLeaves(Put(st, aliases[0]), aliases[1..], aliases[0].id);
    }
  }

  /** Rows of other identifiers are left as they are. */
  lemma {:induction false} PutAllLeaves(st: Store, aliases: seq<A.Alias>, id: AliasId)
    requires forall i :: 0 <= i < |aliases| ==> aliases[i].id != id
    ensures id in PutAll(st, aliases).aliases <==> id in st.aliases
    ensures id in st.aliases ==> PutAll(st, aliases).aliases[id] == st.aliases[id]
    decreases |aliases|
  {
    if aliases != [] {
      assert aliases[0].id != id;
      PutAllLeaves(Put(st, aliases[0]), aliases[1..], id);
    }
  }

  predicate MadeHere(aliases: seq<A.Alias>, id: AliasId) {
    exists i :: 0 <= i < |aliases| && aliases[i].id == id
  }

  /** What a committed command leaves: every row it made, under its own identifier and as made; every other row; and one
      receipt more, under its account and operation. */
  lemma CommitsExactly(st: Store, input: Input)
    requires Inv(st) && Decide(st, input).Success? && Decide(st, input).value.effects.Some?
    ensures var made, next := Decide(st, input).value.effects.value, After(st, input);
            && (forall i :: 0 <= i < |made.aliases| ==>
                  made.aliases[i].id in next.aliases && next.aliases[made.aliases[i].id] == made.aliases[i])
            && (forall id :: !MadeHere(made.aliases, id) ==>
                  (id in next.aliases <==> id in st.aliases) && (id in st.aliases ==> next.aliases[id] == st.aliases[id]))
            && next.receipts == st.receipts[(input.request.account, input.request.operation) := made.receipt]
  {
    var w := CommitFits(st, input);
    DistinctRows(st, w);
    var rows := Rows(w);
    forall i | 0 <= i < |rows| ensures rows[i].id in PutAll(st, rows).aliases && PutAll(st, rows).aliases[rows[i].id] == rows[i] {
      PutAllWrites(st, rows, i);
    }
    forall id | !MadeHere(rows, id)
      ensures id in PutAll(st, rows).aliases <==> id in st.aliases
      ensures id in st.aliases ==> PutAll(st, rows).aliases[id] == st.aliases[id]
    {
      PutAllLeaves(st, rows, id);
    }
    PutAllKeepsReceipts(st, rows);
  }

  lemma DistinctRows(st: Store, w: Writes)
    requires Fits(st, w)
    ensures forall i, j :: 0 <= i < j < |Rows(w)| ==> Rows(w)[i].id != Rows(w)[j].id
  {
  }

  /** Nothing is written for a request that is refused outright, replayed, or only looks. */
  lemma ReadsWriteNothing(st: Store, input: Input)
    requires Decide(st, input).Success? ==> Decide(st, input).value.effects == None
    ensures After(st, input) == st
  {
  }

  /** The lane before the one paid is there: the same grant, in the version the spending names. */
  predicate HoldsFormer(p: P.ReceivingPermission, paid: L.StoredLane, version: U64) {
    p.state.Senders? && exists before :: before in p.state.lanes && before.grant == paid.grant && before.version == version
  }

  lemma ConsumesTheNext(p: P.ReceivingPermission, paid: L.StoredLane, version: U64)
    requires P.Accepts(p) && paid.version == version + 1
    ensures P.Consume(p, paid).Success? <==> HoldsFormer(p, paid, version)
  {
    P.ConsumeSucceedsExactly(p, paid);
    if HoldsFormer(p, paid, version) {
      var before :| before in p.state.lanes && before.grant == paid.grant && before.version == version;
      var i :| 0 <= i < |p.state.lanes| && p.state.lanes[i] == before;
      assert CheckedNext(p.state.lanes[i].version) == Some(paid.version);
    }
  }

  lemma ConsumedFits(row: A.Alias, paid: L.StoredLane)
    requires A.Sound(row) && P.Consume(row.permission, paid).Success?
    ensures A.WithPermission(row, P.Consume(row.permission, paid).value).Success?
  {
    P.ConsumeSucceedsExactly(row.permission, paid);
  }

  /** When spending a paired lane persists: the row is still its recipient's, at the permission revision it was admitted on,
      and still holds the lane of that grant in the version before the one paid. */
  lemma PersistsExactly(st: Store, s: Spending)
    requires RowsSound(st)
    ensures Persist(st, s).Success? <==>
              && s.lane == s.paid.grant.id && s.paid.version == s.version + 1
              && s.alias in st.aliases
              && st.aliases[s.alias].owner == s.recipient && st.aliases[s.alias].permission.revision == s.permissionRevision
              && HoldsFormer(st.aliases[s.alias].permission, s.paid, s.version)
  {
    if s.alias in st.aliases && s.paid.version == s.version + 1 {
      var row := st.aliases[s.alias];
      assert A.Sound(row);
      ConsumesTheNext(row.permission, s.paid, s.version);
      if P.Consume(row.permission, s.paid).Success? { ConsumedFits(row, s.paid); }
    }
  }

  /** And what it leaves: the lane as paid in its old place, every other lane, every other row and every receipt. */
  lemma SpendsExactly(st: Store, s: Spending)
    requires Inv(st) && Persist(st, s).Success?
    ensures var next := Apply(st, Spend(s));
            && next.aliases.Keys == st.aliases.Keys && next.receipts == st.receipts && s.alias in st.aliases
            && (forall id :: id in st.aliases && id != s.alias ==> next.aliases[id] == st.aliases[id])
            && var p, q := st.aliases[s.alias].permission, next.aliases[s.alias].permission;
               && next.aliases[s.alias] == st.aliases[s.alias].(permission := q)
               && p.state.Senders? && q == p.(state := q.state) && q.state.Senders? && |q.state.lanes| == |p.state.lanes|
               && forall i :: 0 <= i < |p.state.lanes| ==>
                    q.state.lanes[i] == if p.state.lanes[i].grant.id == s.paid.grant.id then s.paid else p.state.lanes[i]
  {
    PersistedPermission(st, s);
    P.ConsumeSucceedsExactly(st.aliases[s.alias].permission, s.paid);
  }
}
