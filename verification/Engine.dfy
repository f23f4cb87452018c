/** The in-memory settlement engine (crates/cs-mail-application/src/lib.rs): one locked store, one commit
    per idempotency key. The protocol kernel, the ledger and the financial program are parameters. */
module Engine {
  import opened Wrappers

  type Ref = nat
  type Key = nat
  type Task = nat
  type Time = U64

  datatype EngineError = Protocol(code: nat) | Ledger(code: nat) | Finance(code: nat)
                       | DuplicateConflict | VersionConflict | ArithmeticOverflow

  type Fallible<T> = Result<T, EngineError>

  datatype ScheduleChange = Schedule(task: Task, at: Time) | Cancel(task: Task)

  /** A relationship's protocol projection: its fixed identity, and everything else as one value. */
  datatype ProtocolState = ProtocolState(relationship: Ref, sender: nat, recipient: nat, history: Ref, body: nat)
  datatype History = History(reference: Ref, recipient: nat, body: nat)
  datatype LedgerState = LedgerState(unit: nat, revision: U64, body: nat)

  datatype Snapshot = Snapshot(
    revision: U64, protocol: ProtocolState, history: History, payments: nat, messages: nat, ledger: LedgerState)

  /** What the kernel asks to be committed together. */
  datatype Manifest = Manifest(
    expectedSnapshotRevision: U64, expectedLedgerRevision: U64, batch: nat, forfeitures: seq<nat>, holds: seq<nat>,
    nextHistory: History, nextState: ProtocolState, nextPayments: nat, nextMessages: nat,
    schedule: seq<ScheduleChange>, events: seq<nat>, intents: seq<nat>)

  datatype Committed = Committed(position: U64, manifest: Manifest)
  datatype Record = Record(fingerprint: Command, transition: Committed)

  /** A command carries its idempotency key; its collision-free fingerprint is the command itself. */
  datatype Command = Command(key: Key, body: nat)
  datatype Facts = Facts(now: Time, scope: nat, policy: nat, pricing: nat)
  datatype Outcome = Outcome(transition: Committed, replayed: bool)

  datatype EngineState = EngineState(
    revision: U64, protocol: ProtocolState, ledger: LedgerState, payments: nat, messages: nat, journal: seq<nat>,
    schedules: map<Task, Time>, outbox: seq<nat>, idempotency: map<Key, Record>, nextPosition: U64)

  datatype World = World(relationships: map<Ref, EngineState>, histories: map<Ref, History>, programs: map<nat, nat>)

  datatype Kernel = Kernel(
    transition: (Snapshot, Command, U64, Facts) -> Fallible<Manifest>,
    applyLedger: (LedgerState, U64, nat) -> Fallible<LedgerState>,
    recordForfeiture: (nat, nat, Time) -> Fallible<nat>,
    noteReversal: (nat, nat, Time) -> Fallible<nat>)

  /** What the engine relies on: a transition never moves a relationship's identity or its history's, and
      posting to a ledger never changes its unit. */
  ghost predicate Contract(k: Kernel) {
    && (forall s, c, position, facts ::
          k.transition(s, c, position, facts).Success? ==>
            var m := k.transition(s, c, position, facts).value;
            && m.nextState == s.protocol.(body := m.nextState.body)
            && m.nextHistory == s.history.(body := m.nextHistory.body))
    && (forall l, revision, batch ::
          k.applyLedger(l, revision, batch).Success? ==> k.applyLedger(l, revision, batch).value.unit == l.unit)
  }

  // ---- the pieces of one commit ----

  function ApplyChanges(schedules: map<Task, Time>, changes: seq<ScheduleChange>): map<Task, Time> {
    if changes == [] then schedules
    else
      var before := ApplyChanges(schedules, changes[..|changes| - 1]);
      match changes[|changes| - 1]
      case Schedule(task, at) => before[task := at]
      case Cancel(task) => before - {task}
  }

  method ApplyScheduleChanges(schedules: map<Task, Time>, changes: seq<ScheduleChange>) returns (next: map<Task, Time>)
    ensures next == ApplyChanges(schedules, changes)
  {
    next := schedules;
    assert changes[..0] == [];
    for i := 0 to |changes|
      invariant next == ApplyChanges(schedules, changes[..i])
    {
      assert changes[..i + 1][..i] == changes[..i];
      match changes[i] {
        case Schedule(task, at) => next := next[task := at];
        case Cancel(task) => next := next - {task};
      }
    }
    assert changes[..|changes|] == changes;
  }

  function Forfeit(k: Kernel, program: nat, sources: seq<nat>, now: Time): Fallible<nat> {
    if sources == [] then Success(program)
    else
      var before :- Forfeit(k, program, sources[..|sources| - 1], now);
      k.recordForfeiture(before, sources[|sources| - 1], now)
  }

  function Hold(k: Kernel, program: nat, ids: seq<nat>, now: Time): Fallible<nat> {
    if ids == [] then Success(program)
    else
      var before :- Hold(k, program, ids[..|ids| - 1], now);
      k.noteReversal(before, ids[|ids| - 1], now)
  }

  lemma {:induction false} ForfeitStops(k: Kernel, program: nat, sources: seq<nat>, i: nat, now: Time)
    requires i <= |sources| && Forfeit(k, program, sources[..i], now).Failure?
    ensures Forfeit(k, program, sources, now) == Forfeit(k, program, sources[..i], now)
  {
    if i < |sources| {
      var front := sources[..|sources| - 1];
      assert front[..i] == sources[..i];
      ForfeitStops(k, program, front, i, now);
    } else {
      assert sources[..i] == sources;
    }
  }

  lemma {:induction false} HoldStops(k: Kernel, program: nat, ids: seq<nat>, i: nat, now: Time)
    requires i <= |ids| && Hold(k, program, ids[..i], now).Failure?
    ensures Hold(k, program, ids, now) == Hold(k, program, ids[..i], now)
  {
    if i < |ids| {
      var front := ids[..|ids| - 1];
      assert front[..i] == ids[..i];
      HoldStops(k, program, front, i, now);
    } else {
      assert ids[..i] == ids;
    }
  }

  method SettleProgram(k: Kernel, program: nat, manifest: Manifest, now: Time) returns (result: Fallible<nat>)
    ensures result == match Forfeit(k, program, manifest.forfeitures, now)
                      case Failure(e) => Failure(e)
                      case Success(p) => Hold(k, p, manifest.holds, now)
  {
    var next := program;
    var sources, ids := manifest.forfeitures, manifest.holds;
    for i := 0 to |sources|
      invariant Forfeit(k, program, sources[..i], now) == Success(next)
    {
      assert sources[..i + 1][..i] == sources[..i];
      var one := k.recordForfeiture(next, sources[i], now);
      if one.Failure? {
        ForfeitStops(k, program, sources, i + 1, now);
        return one;
      }
      next := one.value;
    }
    assert sources[..|sources|] == sources;
    var forfeited := next;
    for i := 0 to |ids|
      invariant Hold(k, forfeited, ids[..i], now) == Success(next)
    {
      assert ids[..i + 1][..i] == ids[..i];
      var one := k.noteReversal(next, ids[i], now);
      if one.Failure? {
        HoldStops(k, forfeited, ids, i + 1, now);
        return one;
      }
      next := one.value;
    }
    assert ids[..|ids|] == ids;
    return Success(next);
  }

  /** The last change of a task decides it. */
  lemma {:induction false} LastChangeDecides(schedules: map<Task, Time>, changes: seq<ScheduleChange>, i: nat)
    requires i < |changes| && forall j :: i < j < |changes| ==> changes[j].task != changes[i].task
    ensures match changes[i]
            case Schedule(task, at) => task in ApplyChanges(schedules, changes) && ApplyChanges(schedules, changes)[task] == at
            case Cancel(task) => task !in ApplyChanges(schedules, changes)
  {
    if i < |changes| - 1 {
      var front := changes[..|changes| - 1];
      assert front[i] == changes[i];
      forall j | i < j < |front| ensures front[j].task != front[i].task { assert front[j] == changes[j]; }
      LastChangeDecides(schedules, front, i);
    }
  }

  /** A task no change names keeps what it had. */
  lemma {:induction false} UnnamedStays(schedules: map<Task, Time>, changes: seq<ScheduleChange>, task: Task)
    requires forall i :: 0 <= i < |changes| ==> changes[i].task != task
    ensures task in ApplyChanges(schedules, changes) <==> task in schedules
    ensures task in schedules ==> ApplyChanges(schedules, changes)[task] == schedules[task]
  {
    if changes != [] {
      assert changes[|changes| - 1].task != task;
      UnnamedStays(schedules, changes[..|changes| - 1], task);
    }
  }

  /** A program taken through these items one after another, by way of these intermediate programs. */
  predicate Through(one: (nat, nat, Time) -> Fallible<nat>, items: seq<nat>, now: Time, trace: seq<nat>) {
    && |trace| == |items| + 1
    && forall i :: 0 <= i < |items| ==> one(trace[i], items[i], now) == Success(trace[i + 1])
  }

  lemma ThroughOneMore(
    one: (nat, nat, Time) -> Fallible<nat>, items: seq<nat>, now: Time, trace: seq<nat>, last: nat)
    requires items != [] && Through(one, items[..|items| - 1], now, trace)
    requires one(trace[|items| - 1], items[|items| - 1], now) == Success(last)
    ensures Through(one, items, now, trace + [last])
  {
    var longer := trace + [last];
    forall i | 0 <= i < |items| ensures one(longer[i], items[i], now) == Success(longer[i + 1]) {
      if i < |items| - 1 { assert items[..|items| - 1][i] == items[i]; }
    }
  }

  /** Every forfeited source is recorded in turn, none twice and none left out; and if one cannot be, nothing is. */
  lemma {:induction false} ForfeitExactly(k: Kernel, program: nat, sources: seq<nat>, now: Time, last: nat)
    ensures Forfeit(k, program, sources, now) == Success(last) <==>
              exists trace :: Through(k.recordForfeiture, sources, now, trace) && trace[0] == program && trace[|sources|] == last
  {
    if sources == [] {
      assert last == program ==> Through(k.recordForfeiture, sources, now, [program]) && [program][0] == program;
    } else {
      var front := sources[..|sources| - 1];
      if Forfeit(k, program, sources, now) == Success(last) {
        var before := Forfeit(k, program, front, now).value;
        ForfeitExactly(k, program, front, now, before);
        var trace :| Through(k.recordForfeiture, front, now, trace) && trace[0] == program && trace[|front|] == before;
        ThroughOneMore(k.recordForfeiture, sources, now, trace, last);
        assert (trace + [last])[0] == program && (trace + [last])[|sources|] == last;
      }
      if exists trace :: Through(k.recordForfeiture, sources, now, trace) && trace[0] == program && trace[|sources|] == last {
        var trace :| Through(k.recordForfeiture, sources, now, trace) && trace[0] == program && trace[|sources|] == last;
        var shorter := trace[..|sources|];
        assert Through(k.recordForfeiture, front, now, shorter) && shorter[0] == program && shorter[|front|] == trace[|front|];
        ForfeitExactly(k, program, front, now, trace[|front|]);
      }
    }
  }

  /** Every reversal is noted in turn, likewise. */
  lemma {:induction false} HoldExactly(k: Kernel, program: nat, ids: seq<nat>, now: Time, last: nat)
    ensures Hold(k, program, ids, now) == Success(last) <==>
              exists trace :: Through(k.noteReversal, ids, now, trace) && trace[0] == program && trace[|ids|] == last
  {
    if ids == [] {
      assert last == program ==> Through(k.noteReversal, ids, now, [program]) && [program][0] == program;
    } else {
      var front := ids[..|ids| - 1];
      if Hold(k, program, ids, now) == Success(last) {
        var before := Hold(k, program, front, now).value;
        HoldExactly(k, program, front, now, before);
        var trace :| Through(k.noteReversal, front, now, trace) && trace[0] == program && trace[|front|] == before;
        ThroughOneMore(k.noteReversal, ids, now, trace, last);
        assert (trace + [last])[0] == program && (trace + [last])[|ids|] == last;
      }
      if exists trace :: Through(k.noteReversal, ids, now, trace) && trace[0] == program && trace[|ids|] == last {
        var trace :| Through(k.noteReversal, ids, now, trace) && trace[0] == program && trace[|ids|] == last;
        var shorter := trace[..|ids|];
        assert Through(k.noteReversal, front, now, shorter) && shorter[0] == program && shorter[|front|] == trace[|front|];
        HoldExactly(k, program, front, now, trace[|front|]);
      }
    }
  }

  // ---- one call, as a function of the whole store ----

  datatype Call = Call(relationship: Ref, command: Command, facts: Facts)

  function SnapshotOf(inner: EngineState, history: History): Snapshot {
    Snapshot(inner.revision, inner.protocol, history, inner.payments, inner.messages, inner.ledger)
  }

  predicate Present(w: World, r: Ref) {
    && r in w.relationships && w.relationships[r].protocol.history in w.histories
    && w.relationships[r].ledger.unit in w.programs
  }

  function CommitTo(inner: EngineState, command: Command, m: Manifest, ledger: LedgerState, record: Record): EngineState
    requires inner.revision < U64_MAX && inner.nextPosition < U64_MAX
  {
    EngineState(inner.revision + 1, m.nextState, ledger, m.nextPayments, m.nextMessages, inner.journal + m.events,
                ApplyChanges(inner.schedules, m.schedule), inner.outbox + m.intents,
                inner.idempotency[command.key := record], inner.nextPosition + 1)
  }

  /** The commit of a command the relationship has not seen. */
  function Fresh(k: Kernel, w: World, call: Call): Fallible<(World, Committed)>
    requires Present(w, call.relationship)
  {
    var inner := w.relationships[call.relationship];
    var m :- k.transition(SnapshotOf(inner, w.histories[inner.protocol.history]), call.command, inner.nextPosition, call.facts);
    if m.expectedSnapshotRevision != inner.revision then Failure(VersionConflict)
    else if inner.revision == U64_MAX || inner.nextPosition == U64_MAX then Failure(ArithmeticOverflow)
    else
      var ledger :- k.applyLedger(inner.ledger, m.expectedLedgerRevision, m.batch);
      var forfeited :- Forfeit(k, w.programs[inner.ledger.unit], m.forfeitures, call.facts.now);
      var program :- Hold(k, forfeited, m.holds, call.facts.now);
      var committed := Committed(inner.nextPosition, m);
      Success((World(w.relationships[call.relationship := CommitTo(inner, call.command, m, ledger, Record(call.command, committed))],
                     w.histories[m.nextHistory.reference := m.nextHistory],
                     w.programs[inner.ledger.unit := program]), committed))
  }

  function Answer(k: Kernel, scope: nat, w: World, call: Call): Fallible<Outcome>
    requires Present(w, call.relationship)
  {
    var inner := w.relationships[call.relationship];
    if call.facts.scope != scope then Failure(VersionConflict)
    else if call.command.key in inner.idempotency then
      var record := inner.idempotency[call.command.key];
      if record.fingerprint == call.command then Success(Outcome(record.transition, true)) else Failure(DuplicateConflict)
    else match Fresh(k, w, call)
      case Failure(e) => Failure(e)
      case Success((_, committed)) => Success(Outcome(committed, false))
  }

  function After(k: Kernel, scope: nat, w: World, call: Call): World
    requires Present(w, call.relationship)
  {
    if Answer(k, scope, w, call).Success? && !Answer(k, scope, w, call).value.replayed then Fresh(k, w, call).value.0 else w
  }

  // ---- the invariant of every store ----

  predicate StateInv(w: World, r: Ref)
    requires r in w.relationships
  {
    var inner := w.relationships[r];
    && inner.protocol.relationship == r
    && inner.protocol.history in w.histories
    && inner.ledger.unit in w.programs
    && inner.revision == |inner.idempotency| && inner.nextPosition == inner.revision + 1
    && forall key :: key in inner.idempotency ==> inner.idempotency[key].fingerprint.key == key
  }

  predicate OnePerPair(w: World) {
    forall r, s :: (&& r in w.relationships && s in w.relationships
                    && w.relationships[r].protocol.sender == w.relationships[s].protocol.sender
                    && w.relationships[r].protocol.recipient == w.relationships[s].protocol.recipient) ==> r == s
  }

  predicate Inv(w: World) {
    && (forall r :: r in w.relationships ==> StateInv(w, r))
    && (forall h :: h in w.histories ==> w.histories[h].reference == h)
    && OnePerPair(w)
  }

  function NewState(protocol: ProtocolState, unit: nat): EngineState {
    EngineState(0, protocol, LedgerState(unit, 0, 0), 0, 0, [], map[], [], map[], 1)
  }

  predicate PairTaken(w: World, protocol: ProtocolState) {
    exists r :: && r in w.relationships && w.relationships[r].protocol.sender == protocol.sender
                && w.relationships[r].protocol.recipient == protocol.recipient
  }

  function Registration(w: World, protocol: ProtocolState, unit: nat, history: History, program: nat): Fallible<World> {
    if || protocol.relationship in w.relationships || PairTaken(w, protocol)
       || (protocol.history in w.histories && w.histories[protocol.history].recipient != protocol.recipient)
    then Failure(DuplicateConflict)
    else Success(World(w.relationships[protocol.relationship := NewState(protocol, unit)],
                       if protocol.history in w.histories then w.histories else w.histories[protocol.history := history],
                       if unit in w.programs then w.programs else w.programs[unit := program]))
  }

  /** A new relationship joins without disturbing any other: same engine states, same shared history and
      program data where they already existed, and still one relationship per pair. */
  lemma RegistrationKeepsInv(w: World, protocol: ProtocolState, unit: nat, history: History, program: nat)
    requires Inv(w) && history.reference == protocol.history
    requires Registration(w, protocol, unit, history, program).Success?
    ensures var next := Registration(w, protocol, unit, history, program).value;
            && Inv(next)
            && (forall r :: r in w.relationships ==> r in next.relationships && next.relationships[r] == w.relationships[r])
            && (forall h :: h in w.histories ==> h in next.histories && next.histories[h] == w.histories[h])
            && (forall u :: u in w.programs ==> u in next.programs && next.programs[u] == w.programs[u])
  {
    var next := Registration(w, protocol, unit, history, program).value;
    forall r | r in next.relationships ensures StateInv(next, r) {
      if r in w.relationships { assert StateInv(w, r); }
    }
  }

  // ---- the classes ----

  class InMemoryStore {
    const kernel: Kernel
    const scope: nat
    var relationships: map<Ref, EngineState>
    var histories: map<Ref, History>
    var programs: map<nat, nat>

    ghost predicate Valid()
      reads this
    {
      Contract(kernel) && Inv(Contents())
    }

    ghost function Contents(): World
      reads this
    {
      World(relationships, histories, programs)
    }

    constructor (kernel: Kernel, scope: nat)
      requires Contract(kernel)
      ensures Valid() && this.kernel == kernel && this.scope == scope
      ensures Contents() == World(map[], map[], map[])
    {
      this.kernel, this.scope := kernel, scope;
      relationships, histories, programs := map[], map[], map[];
    }

    /** A registration that succeeds yields the specified store and a handle on it; one that is refused leaves
        the store as it was. */
    method Register(protocol: ProtocolState, unit: nat, history: History, program: nat) returns (result: Fallible<InMemoryEngine>)
      requires Valid()
      requires history.reference == protocol.history && history.recipient == protocol.recipient
      modifies this
      ensures Valid()
      ensures match Registration(old(Contents()), protocol, unit, history, program)
              case Failure(e) => result == Failure(e) && Contents() == old(Contents())
              case Success(next) => && Contents() == next && result.Success?
                                    && result.value.store == this && result.value.relationship == protocol.relationship
    {
      ghost var before := Contents();
      if || protocol.relationship in relationships
         || exists r :: && r in relationships && relationships[r].protocol.sender == protocol.sender
                        && relationships[r].protocol.recipient == protocol.recipient
      {
        return Failure(DuplicateConflict);
      }
      if protocol.history in histories && histories[protocol.history].recipient != protocol.recipient {
        return Failure(DuplicateConflict);
      }
      RegistrationKeepsInv(before, protocol, unit, history, program);
      if protocol.history !in histories {
        histories := histories[protocol.history := history];
      }
      if unit !in programs {
        programs := programs[unit := program];
      }
      relationships := relationships[protocol.relationship := NewState(protocol, unit)];
      var engine := new InMemoryEngine(this, protocol.relationship);
      return Success(engine);
    }
  }

  class InMemoryEngine {
    const store: InMemoryStore
    const relationship: Ref

    constructor (store: InMemoryStore, relationship: Ref)
      ensures this.store == store && this.relationship == relationship
    {
      this.store, this.relationship := store, relationship;
    }

    /** One linearized commit, or a replay, or a refusal. */
    method Execute(command: Command, facts: Facts) returns (result: Fallible<Outcome>)
      requires store.Valid() && relationship in store.relationships
      modifies store
      ensures store.Valid()
      ensures result == Answer(store.kernel, store.scope, old(store.Contents()), Call(relationship, command, facts))
      ensures store.Contents() == After(store.kernel, store.scope, old(store.Contents()), Call(relationship, command, facts))
    {
      ghost var before, call := store.Contents(), Call(relationship, command, facts);
      assert StateInv(before, relationship);
      var inner := store.relationships[relationship];
      if facts.scope != store.scope {
        return Failure(VersionConflict);
      }
      if command.key in inner.idempotency {
        var record := inner.idempotency[command.key];
        if record.fingerprint == command {
          return Success(Outcome(record.transition, true));
        }
        return Failure(DuplicateConflict);
      }
      var committed :- Commit(command, facts);
      FreshKeepsInv(store.kernel, before, call);
      return Success(Outcome(committed, false));
    }

    /** The part of `execute` past the idempotency check: everything is computed before anything is written. */
    method Commit(command: Command, facts: Facts) returns (result: Fallible<Committed>)
      requires Present(store.Contents(), relationship)
      modifies store
      ensures match Fresh(store.kernel, old(store.Contents()), Call(relationship, command, facts))
              case Failure(e) => result == Failure(e) && store.Contents() == old(store.Contents())
              case Success((next, committed)) => result == Success(committed) && store.Contents() == next
    {
      var inner := store.relationships[relationship];
      var snapshot := SnapshotOf(inner, store.histories[inner.protocol.history]);
      var manifest :- store.kernel.transition(snapshot, command, inner.nextPosition, facts);
      if manifest.expectedSnapshotRevision != inner.revision {
        return Failure(VersionConflict);
      }
      if inner.revision == U64_MAX || inner.nextPosition == U64_MAX {
        return Failure(ArithmeticOverflow);
      }
      var ledger :- store.kernel.applyLedger(inner.ledger, manifest.expectedLedgerRevision, manifest.batch);
      var program :- SettleProgram(store.kernel, store.programs[inner.ledger.unit], manifest, facts.now);
      var committed := Committed(inner.nextPosition, manifest);
      var schedules := ApplyScheduleChanges(inner.schedules, manifest.schedule);
      store.programs := store.programs[inner.ledger.unit := program];
      store.histories := store.histories[manifest.nextHistory.reference := manifest.nextHistory];
      inner := inner.(payments := manifest.nextPayments, messages := manifest.nextMessages,
                      protocol := manifest.nextState, ledger := ledger, schedules := schedules);
      inner := inner.(journal := inner.journal + manifest.events, outbox := inner.outbox + manifest.intents,
                      idempotency := inner.idempotency[command.key := Record(command, committed)]);
      inner := inner.(revision := inner.revision + 1, nextPosition := inner.nextPosition + 1);
      store.relationships := store.relationships[relationship := inner];
      return Success(committed);
    }
  }

  // ---- one call ----

  lemma InsertSize<K, V>(m: map<K, V>, k: K, v: V)
    requires k !in m
    ensures |m[k := v]| == |m| + 1
  {
    assert m[k := v].Keys == m.Keys + {k};
    assert |m[k := v]| == |m[k := v].Keys| && |m| == |m.Keys|;
  }

  lemma FreshKeepsInv(k: Kernel, w: World, call: Call)
    requires Contract(k) && Inv(w) && call.relationship in w.relationships
    requires call.command.key !in w.relationships[call.relationship].idempotency
    requires Present(w, call.relationship) && Fresh(k, w, call).Success?
    ensures Inv(Fresh(k, w, call).value.0)
  {
    var inner := w.relationships[call.relationship];
    assert StateInv(w, call.relationship);
    var (next, committed) := Fresh(k, w, call).value;
    InsertSize(inner.idempotency, call.command.key, Record(call.command, committed));
    forall r | r in next.relationships ensures StateInv(next, r) {
      assert StateInv(w, r);
    }
  }

  lemma CallKeepsInv(k: Kernel, scope: nat, w: World, call: Call)
    requires Contract(k) && Inv(w) && call.relationship in w.relationships
    ensures Present(w, call.relationship) && Inv(After(k, scope, w, call))
  {
    assert StateInv(w, call.relationship);
    if Answer(k, scope, w, call).Success? && !Answer(k, scope, w, call).value.replayed {
      FreshKeepsInv(k, w, call);
    }
  }

  /** What a call leaves alone: an error or a replay changes nothing at all, and a commit changes no other
      relationship's engine state, only extends its own journal and outbox, and moves revision, position
      and the number of keys together by one. */
  lemma CallFootprint(k: Kernel, scope: nat, w: World, call: Call)
    requires Contract(k) && Inv(w) && call.relationship in w.relationships
    ensures Present(w, call.relationship) && Inv(After(k, scope, w, call))
    ensures Answer(k, scope, w, call).Failure? || Answer(k, scope, w, call).value.replayed ==> After(k, scope, w, call) == w
    ensures var next := After(k, scope, w, call);
            && next.relationships.Keys == w.relationships.Keys
            && (forall r :: r in w.relationships && r != call.relationship ==> next.relationships[r] == w.relationships[r])
    ensures Answer(k, scope, w, call).Success? && !Answer(k, scope, w, call).value.replayed ==>
              var before, after := w.relationships[call.relationship], After(k, scope, w, call).relationships[call.relationship];
              var t := Answer(k, scope, w, call).value.transition;
              && call.command.key !in before.idempotency
              && after.idempotency == before.idempotency[call.command.key := Record(call.command, t)]
              && t.position == before.nextPosition
              && after.revision == before.revision + 1 && after.nextPosition == before.nextPosition + 1
              && after.journal == before.journal + t.manifest.events
              && after.outbox == before.outbox + t.manifest.intents
              && after.schedules == ApplyChanges(before.schedules, t.manifest.schedule)
  {
    CallKeepsInv(k, scope, w, call);
  }

  // ---- one call, over the records' own fields ----

  /** What the kernel is asked: everything the store holds of this relationship, as it stands. */
  predicate Asks(k: Kernel, w: World, call: Call, m: Manifest)
    requires Present(w, call.relationship)
  {
    var inner := w.relationships[call.relationship];
    k.transition(Snapshot(inner.revision, inner.protocol, w.histories[inner.protocol.history], inner.payments, inner.messages,
                          inner.ledger), call.command, inner.nextPosition, call.facts) == Success(m)
  }

  /** The program of this unit, taken through every forfeiture and then every reversal of the manifest. */
  ghost predicate Settled(k: Kernel, program: nat, m: Manifest, now: Time, last: nat) {
    exists forfeited, held ::
      && Through(k.recordForfeiture, m.forfeitures, now, forfeited) && forfeited[0] == program
      && Through(k.noteReversal, m.holds, now, held) && held[0] == forfeited[|m.forfeitures|] && held[|m.holds|] == last
  }

  lemma SettledExactly(k: Kernel, program: nat, m: Manifest, now: Time, last: nat)
    ensures Settled(k, program, m, now, last) <==>
              Forfeit(k, program, m.forfeitures, now).Success?
              && Hold(k, Forfeit(k, program, m.forfeitures, now).value, m.holds, now) == Success(last)
  {
    if Forfeit(k, program, m.forfeitures, now).Success? {
      var middle := Forfeit(k, program, m.forfeitures, now).value;
      ForfeitExactly(k, program, m.forfeitures, now, middle);
      HoldExactly(k, middle, m.holds, now, last);
    }
    if Settled(k, program, m, now, last) {
      var forfeited, held :| && Through(k.recordForfeiture, m.forfeitures, now, forfeited) && forfeited[0] == program
                             && Through(k.noteReversal, m.holds, now, held) && held[0] == forfeited[|m.forfeitures|]
                             && held[|m.holds|] == last;
      ForfeitExactly(k, program, m.forfeitures, now, forfeited[|m.forfeitures|]);
      HoldExactly(k, forfeited[|m.forfeitures|], m.holds, now, last);
    }
  }

  /** What committing this manifest leaves of its relationship: the next projection, payments and messages it names, and the
      ledger its batch was posted to. */
  predicate Moves(k: Kernel, before: EngineState, m: Manifest, after: EngineState) {
    && after.protocol == m.nextState && after.payments == m.nextPayments && after.messages == m.nextMessages
    && k.applyLedger(before.ledger, m.expectedLedgerRevision, m.batch) == Success(after.ledger)
  }

  /** And of what it shares: its history as the manifest names it, its unit's program settled, and nothing else. */
  ghost predicate MovesShared(k: Kernel, w: World, call: Call, m: Manifest, next: World)
    requires Present(w, call.relationship)
  {
    var unit := w.relationships[call.relationship].ledger.unit;
    && next.histories.Keys == w.histories.Keys + {m.nextHistory.reference}
    && next.histories[m.nextHistory.reference] == m.nextHistory
    && (forall h :: h in w.histories && h != m.nextHistory.reference ==> next.histories[h] == w.histories[h])
    && next.programs.Keys == w.programs.Keys && Settled(k, w.programs[unit], m, call.facts.now, next.programs[unit])
    && (forall u :: u in w.programs && u != unit ==> next.programs[u] == w.programs[u])
  }

  /** Every commit writes the very transition it records, all of it. */
  lemma CommitWritesItsManifest(k: Kernel, scope: nat, w: World, call: Call)
    requires Contract(k) && Inv(w) && Commits(k, scope, w, call)
    ensures var m := Answer(k, scope, w, call).value.transition.manifest;
            && Asks(k, w, call, m) && m.expectedSnapshotRevision == w.relationships[call.relationship].revision
            && call.relationship in After(k, scope, w, call).relationships
            && Moves(k, w.relationships[call.relationship], m, After(k, scope, w, call).relationships[call.relationship])
            && MovesShared(k, w, call, m, After(k, scope, w, call))
  {
    var m := Answer(k, scope, w, call).value.transition.manifest;
    var unit := w.relationships[call.relationship].ledger.unit;
    SettledExactly(k, w.programs[unit], m, call.facts.now, After(k, scope, w, call).programs[unit]);
  }

  /** When a call commits: its facts are for this store, its key is new, the kernel asks for something against the store as
      it stands, the ledger takes the batch, and the program can be settled. */
  lemma CommitsExactly(k: Kernel, scope: nat, w: World, call: Call)
    requires Present(w, call.relationship)
    ensures var inner := w.relationships[call.relationship];
            Commits(k, scope, w, call) <==>
              && call.facts.scope == scope && call.command.key !in inner.idempotency
              && exists m :: && Asks(k, w, call, m) && m.expectedSnapshotRevision == inner.revision < U64_MAX
                             && inner.nextPosition < U64_MAX
                             && k.applyLedger(inner.ledger, m.expectedLedgerRevision, m.batch).Success?
                             && exists last :: Settled(k, w.programs[inner.ledger.unit], m, call.facts.now, last)
  {
    var inner := w.relationships[call.relationship];
    var asked := k.transition(SnapshotOf(inner, w.histories[inner.protocol.history]), call.command, inner.nextPosition, call.facts);
    if asked.Success? {
      var m := asked.value;
      assert Asks(k, w, call, m);
      var program := w.programs[inner.ledger.unit];
      var forfeited := Forfeit(k, program, m.forfeitures, call.facts.now);
      if forfeited.Success? && Hold(k, forfeited.value, m.holds, call.facts.now).Success? {
        SettledExactly(k, program, m, call.facts.now, Hold(k, forfeited.value, m.holds, call.facts.now).value);
      }
      if exists last :: Settled(k, program, m, call.facts.now, last) {
        var last :| Settled(k, program, m, call.facts.now, last);
        SettledExactly(k, program, m, call.facts.now, last);
      }
    }
  }

  /** A known key is never committed again: its very command gets the recorded transition back, any other is refused; and
      facts for another store are refused before anything is looked at. */
  lemma KnownKeysAreAnswered(k: Kernel, scope: nat, w: World, call: Call)
    requires Present(w, call.relationship)
    ensures call.facts.scope != scope ==> Answer(k, scope, w, call) == Failure(VersionConflict)
    ensures var known := w.relationships[call.relationship].idempotency;
            call.facts.scope == scope && call.command.key in known ==>
              Answer(k, scope, w, call) ==
              (if known[call.command.key].fingerprint == call.command
               then Success(Outcome(known[call.command.key].transition, true)) else Failure(DuplicateConflict))
  {
  }

  /** Who may be registered: a new relationship, of a pair without one, whose history, if there already, is its
      recipient's. It starts at revision 0 and position 1 with nothing done and an empty ledger of its unit; a history or a
      program that is there already is left as it is. */
  lemma RegistrationExactly(w: World, protocol: ProtocolState, unit: nat, history: History, program: nat)
    ensures Registration(w, protocol, unit, history, program).Success? <==>
              && protocol.relationship !in w.relationships
              && (forall r :: r in w.relationships ==>
                    w.relationships[r].protocol.sender != protocol.sender || w.relationships[r].protocol.recipient != protocol.recipient)
              && (protocol.history in w.histories ==> w.histories[protocol.history].recipient == protocol.recipient)
    ensures Registration(w, protocol, unit, history, program).Success? ==>
              var next := Registration(w, protocol, unit, history, program).value;
              && next.relationships.Keys == w.relationships.Keys + {protocol.relationship}
              && next.histories.Keys == w.histories.Keys + {protocol.history}
              && (protocol.history !in w.histories ==> next.histories[protocol.history] == history)
              && next.programs.Keys == w.programs.Keys + {unit} && (unit !in w.programs ==> next.programs[unit] == program)
              && var made := next.relationships[protocol.relationship];
                 && made.protocol == protocol && made.ledger == LedgerState(unit, 0, 0) && made.payments == made.messages == 0
                 && made.revision == 0 && made.nextPosition == 1 && made.journal == [] && made.outbox == []
                 && made.schedules == map[] && made.idempotency == map[]
  {
  }

  // ---- whole runs ----

  /** A call on an engine handle, or the registration of a relationship with a new history of its own. */
  datatype Event =
    | Invoke(call: Call)
    | Join(protocol: ProtocolState, unit: nat, body: nat, program: nat)

  function Joined(w: World, protocol: ProtocolState, unit: nat, body: nat, program: nat): Fallible<World> {
    Registration(w, protocol, unit, History(protocol.history, protocol.recipient, body), program)
  }

  /** Total on unregistered relationships, which no engine handle can name. */
  function Step(k: Kernel, scope: nat, w: World, call: Call): World {
    if Present(w, call.relationship) then After(k, scope, w, call) else w
  }

  predicate Commits(k: Kernel, scope: nat, w: World, call: Call) {
    && Present(w, call.relationship)
    && Answer(k, scope, w, call).Success? && !Answer(k, scope, w, call).value.replayed
  }

  function Apply(k: Kernel, scope: nat, w: World, e: Event): World {
    match e
    case Invoke(call) => Step(k, scope, w, call)
    case Join(protocol, unit, body, program) =>
      match Joined(w, protocol, unit, body, program)
      case Success(next) => next
      case Failure(_) => w
  }

  function Run(k: Kernel, scope: nat, w: World, events: seq<Event>): World
    decreases |events|
  {
    if events == [] then w else Run(k, scope, Apply(k, scope, w, events[0]), events[1..])
  }

  /** The event is a first success: a commit, or a registration. */
  predicate Succeeds(k: Kernel, scope: nat, w: World, e: Event) {
    match e
    case Invoke(call) => Commits(k, scope, w, call)
    case Join(protocol, unit, body, program) => Joined(w, protocol, unit, body, program).Success?
  }

  /** The first successes of a run, in order. */
  function FirstSuccesses(k: Kernel, scope: nat, w: World, events: seq<Event>): seq<Event>
    decreases |events|
  {
    if events == [] then []
    else
      (if Succeeds(k, scope, w, events[0]) then [events[0]] else [])
      + FirstSuccesses(k, scope, Apply(k, scope, w, events[0]), events[1..])
  }

  /** What any event leaves alone: one that is no first success changes nothing, a registration touches no
      relationship there already, and a commit touches its own only. */
  lemma EventFootprint(k: Kernel, scope: nat, w: World, e: Event)
    requires Contract(k) && Inv(w)
    ensures Inv(Apply(k, scope, w, e)) && w.relationships.Keys <= Apply(k, scope, w, e).relationships.Keys
    ensures !Succeeds(k, scope, w, e) ==> Apply(k, scope, w, e) == w
    ensures forall r :: r in w.relationships && !(e.Invoke? && Commits(k, scope, w, e.call) && e.call.relationship == r) ==>
              Apply(k, scope, w, e).relationships[r] == w.relationships[r]
  {
    match e
    case Invoke(call) =>
      if Present(w, call.relationship) { CallFootprint(k, scope, w, call); }
    case Join(protocol, unit, body, program) =>
      if Joined(w, protocol, unit, body, program).Success? {
        RegistrationKeepsInv(w, protocol, unit, History(protocol.history, protocol.recipient, body), program);
      }
  }

  lemma {:induction false} RunKeepsInv(k: Kernel, scope: nat, w: World, events: seq<Event>)
    requires Contract(k) && Inv(w)
    ensures Inv(Run(k, scope, w, events)) && w.relationships.Keys <= Run(k, scope, w, events).relationships.Keys
    decreases |events|
  {
    if events != [] {
      EventFootprint(k, scope, w, events[0]);
      RunKeepsInv(k, scope, Apply(k, scope, w, events[0]), events[1..]);
    }
  }

  /** Retries and failures are invisible: any run of calls and registrations ends in the very store its first
      successes alone produce, and in that shorter run every event succeeds. */
  lemma {:induction false} RetriesAreInvisible(k: Kernel, scope: nat, w: World, events: seq<Event>)
    requires Contract(k) && Inv(w)
    ensures Run(k, scope, w, events) == Run(k, scope, w, FirstSuccesses(k, scope, w, events))
    ensures FirstSuccesses(k, scope, w, FirstSuccesses(k, scope, w, events)) == FirstSuccesses(k, scope, w, events)
    decreases |events|
  {
    if events != [] {
      var next := Apply(k, scope, w, events[0]);
      EventFootprint(k, scope, w, events[0]);
      RetriesAreInvisible(k, scope, next, events[1..]);
      var firsts := FirstSuccesses(k, scope, w, events);
      if Succeeds(k, scope, w, events[0]) {
        assert firsts[0] == events[0] && firsts[1..] == FirstSuccesses(k, scope, next, events[1..]);
      } else {
        assert firsts == FirstSuccesses(k, scope, next, events[1..]);
      }
    }
  }

  predicate Recorded(w: World, r: Ref, key: Key) {
    r in w.relationships && key in w.relationships[r].idempotency
  }

  /** A recorded key stays recorded, with its transition. */
  lemma RecordStays(k: Kernel, scope: nat, w: World, e: Event, r: Ref, key: Key)
    requires Contract(k) && Inv(w) && Recorded(w, r, key)
    ensures var after := Apply(k, scope, w, e);
            Recorded(after, r, key) && after.relationships[r].idempotency[key] == w.relationships[r].idempotency[key]
  {
    EventFootprint(k, scope, w, e);
    if e.Invoke? && Present(w, e.call.relationship) { CallFootprint(k, scope, w, e.call); }
  }

  lemma {:induction false} RecordsAreForever(k: Kernel, scope: nat, w: World, events: seq<Event>, r: Ref, key: Key)
    requires Contract(k) && Inv(w) && Recorded(w, r, key)
    ensures var after := Run(k, scope, w, events);
            Recorded(after, r, key) && after.relationships[r].idempotency[key] == w.relationships[r].idempotency[key]
    decreases |events|
  {
    if events != [] {
      EventFootprint(k, scope, w, events[0]);
      RecordStays(k, scope, w, events[0], r, key);
      RecordsAreForever(k, scope, Apply(k, scope, w, events[0]), events[1..], r, key);
    }
  }

  /** Exactly once: after a call commits, and whatever runs next, repeating it changes nothing and returns
      the recorded transition, and any other command under that key is refused. */
  lemma CommittedOnce(k: Kernel, scope: nat, w: World, call: Call, events: seq<Event>, again: Call)
    requires Contract(k) && Inv(w) && Commits(k, scope, w, call)
    requires again.relationship == call.relationship && again.command.key == call.command.key && again.facts.scope == scope
    ensures var later := Run(k, scope, After(k, scope, w, call), events);
            && Present(later, again.relationship) && After(k, scope, later, again) == later
            && Answer(k, scope, later, again) ==
               (if again.command == call.command
                then Success(Outcome(Answer(k, scope, w, call).value.transition, true))
                else Failure(DuplicateConflict))
  {
    CallFootprint(k, scope, w, call);
    var next := After(k, scope, w, call);
    RecordsAreForever(k, scope, next, events, call.relationship, call.command.key);
    RunKeepsInv(k, scope, next, events);
    CallFootprint(k, scope, Run(k, scope, next, events), again);
  }

  // ---- journals, outboxes and schedules of one relationship ----

  /** The transition this event commits for one relationship, if it does. */
  function Transition(k: Kernel, scope: nat, w: World, e: Event, r: Ref): Option<Committed> {
    if e.Invoke? && Commits(k, scope, w, e.call) && e.call.relationship == r
    then Some(Answer(k, scope, w, e.call).value.transition) else None
  }

  /** The transitions one relationship commits during a run, in order. */
  function Transitions(k: Kernel, scope: nat, w: World, events: seq<Event>, r: Ref): seq<Committed>
    decreases |events|
  {
    if events == [] then []
    else
      var first := Transition(k, scope, w, events[0], r);
      (if first.Some? then [first.value] else []) + Transitions(k, scope, Apply(k, scope, w, events[0]), events[1..], r)
  }

  function Events(ts: seq<Committed>): seq<nat> {
    if ts == [] then [] else ts[0].manifest.events + Events(ts[1..])
  }

  function Intents(ts: seq<Committed>): seq<nat> {
    if ts == [] then [] else ts[0].manifest.intents + Intents(ts[1..])
  }

  function Changes(ts: seq<Committed>): seq<ScheduleChange> {
    if ts == [] then [] else ts[0].manifest.schedule + Changes(ts[1..])
  }

  lemma {:induction false} ApplyConcat(schedules: map<Task, Time>, a: seq<ScheduleChange>, b: seq<ScheduleChange>)
    ensures ApplyChanges(schedules, a + b) == ApplyChanges(ApplyChanges(schedules, a), b)
  {
    if b == [] {
      assert a + b == a;
    } else {
      var last := |b| - 1;
      assert (a + b)[..|a + b| - 1] == a + b[..last];
      ApplyConcat(schedules, a, b[..last]);
    }
  }

  /** What a relationship looks like after committing these transitions from that state. */
  predicate FoldsTo(before: EngineState, ts: seq<Committed>, after: EngineState) {
    && after.journal == before.journal + Events(ts)
    && after.outbox == before.outbox + Intents(ts)
    && after.schedules == ApplyChanges(before.schedules, Changes(ts))
    && after.revision == before.revision + |ts| && after.nextPosition == before.nextPosition + |ts|
    && (forall i :: 0 <= i < |ts| ==> ts[i].position == before.nextPosition + i)
  }

  /** The ledger after every batch of these transitions was posted to it, in order. */
  predicate Posts(k: Kernel, ledger: LedgerState, ts: seq<Committed>, last: LedgerState)
    decreases |ts|
  {
    if ts == [] then last == ledger
    else
      var next := k.applyLedger(ledger, ts[0].manifest.expectedLedgerRevision, ts[0].manifest.batch);
      next.Success? && Posts(k, next.value, ts[1..], last)
  }

  /** The projection, payments and messages the last of these transitions named, or the starting ones without any; and the
      ledger every one of them was posted to. */
  predicate StandsAt(k: Kernel, before: EngineState, ts: seq<Committed>, after: EngineState) {
    && Posts(k, before.ledger, ts, after.ledger)
    && if ts == [] then after.protocol == before.protocol && after.payments == before.payments && after.messages == before.messages
       else var m := ts[|ts| - 1].manifest;
            after.protocol == m.nextState && after.payments == m.nextPayments && after.messages == m.nextMessages
  }

  lemma FoldOneMore(before: EngineState, t: Committed, middle: EngineState, rest: seq<Committed>, after: EngineState)
    requires middle.journal == before.journal + t.manifest.events
    requires middle.outbox == before.outbox + t.manifest.intents
    requires middle.schedules == ApplyChanges(before.schedules, t.manifest.schedule)
    requires middle.revision == before.revision + 1 && middle.nextPosition == before.nextPosition + 1
    requires t.position == before.nextPosition && FoldsTo(middle, rest, after)
    ensures FoldsTo(before, [t] + rest, after)
  {
    var ts := [t] + rest;
    assert ts[1..] == rest;
    ApplyConcat(before.schedules, t.manifest.schedule, Changes(rest));
    assert (before.journal + t.manifest.events) + Events(rest) == before.journal + (t.manifest.events + Events(rest));
    assert (before.outbox + t.manifest.intents) + Intents(rest) == before.outbox + (t.manifest.intents + Intents(rest));
  }

  /** Over any run a relationship's journal and outbox are what they were plus everything it committed, in
      order; its schedules are the fold of all the changes it committed; each transition took the next
      position; and revision, key count and position count the commits. */
  lemma {:induction false} RunIsFoldOfCommits(k: Kernel, scope: nat, w: World, events: seq<Event>, r: Ref)
    requires Contract(k) && Inv(w) && r in w.relationships
    ensures r in Run(k, scope, w, events).relationships
    ensures var after := Run(k, scope, w, events).relationships[r];
            && FoldsTo(w.relationships[r], Transitions(k, scope, w, events, r), after)
            && after.revision == |after.idempotency| && after.nextPosition == after.revision + 1
    decreases |events|
  {
    if events == [] {
      assert StateInv(w, r);
    } else {
      var e := events[0];
      EventFootprint(k, scope, w, e);
      var next := Apply(k, scope, w, e);
      RunIsFoldOfCommits(k, scope, next, events[1..], r);
      var first := Transition(k, scope, w, e, r);
      if first.Some? {
        CallFootprint(k, scope, w, e.call);
        FoldOneMore(w.relationships[r], first.value, next.relationships[r],
                    Transitions(k, scope, next, events[1..], r), Run(k, scope, w, events).relationships[r]);
      } else {
        assert Transitions(k, scope, w, events, r) == Transitions(k, scope, next, events[1..], r);
      }
    }
  }

  /** Over any run a relationship stands where its last commit put it, its projection, payments and messages to the letter,
      or where it started if it committed nothing; and its ledger has taken every batch it committed, in order. */
  lemma {:induction false} RunStandsAtItsLastCommit(k: Kernel, scope: nat, w: World, events: seq<Event>, r: Ref)
    requires Contract(k) && Inv(w) && r in w.relationships
    ensures r in Run(k, scope, w, events).relationships
    ensures StandsAt(k, w.relationships[r], Transitions(k, scope, w, events, r), Run(k, scope, w, events).relationships[r])
    decreases |events|
  {
    if events != [] {
      var e := events[0];
      EventFootprint(k, scope, w, e);
      var next := Apply(k, scope, w, e);
      RunStandsAtItsLastCommit(k, scope, next, events[1..], r);
      var first := Transition(k, scope, w, e, r);
      var rest := Transitions(k, scope, next, events[1..], r);
      if first.Some? {
        CommitWritesItsManifest(k, scope, w, e.call);
        StandsOneMore(k, w.relationships[r], first.value, next.relationships[r], rest, Run(k, scope, w, events).relationships[r]);
      } else {
        assert Transitions(k, scope, w, events, r) == rest;
      }
    }
  }

  lemma StandsOneMore(
    k: Kernel, before: EngineState, t: Committed, middle: EngineState, rest: seq<Committed>, after: EngineState)
    requires Moves(k, before, t.manifest, middle) && StandsAt(k, middle, rest, after)
    ensures StandsAt(k, before, [t] + rest, after)
  {
    var ts := [t] + rest;
    assert ts[1..] == rest;
    if rest != [] { assert ts[|ts| - 1] == rest[|rest| - 1]; }
  }

  // ---- histories and programs over whole runs ----

  /** The history this event writes, if it is this one: a commit writes the one its manifest names. */
  function Rewrites(k: Kernel, scope: nat, w: World, e: Event, h: Ref): Option<History> {
    if e.Invoke? && Commits(k, scope, w, e.call)
       && Answer(k, scope, w, e.call).value.transition.manifest.nextHistory.reference == h
    then Some(Answer(k, scope, w, e.call).value.transition.manifest.nextHistory) else None
  }

  function Rewritten(k: Kernel, scope: nat, w: World, events: seq<Event>, h: Ref): seq<History>
    decreases |events|
  {
    if events == [] then []
    else
      var first := Rewrites(k, scope, w, events[0], h);
      (if first.Some? then [first.value] else []) + Rewritten(k, scope, Apply(k, scope, w, events[0]), events[1..], h)
  }

  function LastOf(start: History, written: seq<History>): History {
    if written == [] then start else written[|written| - 1]
  }

  lemma LastOneMore(start: History, one: History, rest: seq<History>)
    ensures LastOf(start, [one] + rest) == LastOf(one, rest)
  {
  }

  lemma EventRewrites(k: Kernel, scope: nat, w: World, e: Event, h: Ref)
    requires Contract(k) && Inv(w) && h in w.histories
    ensures h in Apply(k, scope, w, e).histories
    ensures Apply(k, scope, w, e).histories[h] ==
            (match Rewrites(k, scope, w, e, h) case Some(written) => written case None => w.histories[h])
  {
    match e
    case Invoke(call) => if Commits(k, scope, w, call) { CommitWritesItsManifest(k, scope, w, call); }
    case Join(protocol, unit, body, program) =>
      if Joined(w, protocol, unit, body, program).Success? {
        RegistrationKeepsInv(w, protocol, unit, History(protocol.history, protocol.recipient, body), program);
      }
  }

  /** A history, which several relationships may share, is over any run what the last commit naming it made of it, whichever
      relationship committed, or what it was at the start. */
  lemma {:induction false} RunKeepsLastHistory(k: Kernel, scope: nat, w: World, events: seq<Event>, h: Ref)
    requires Contract(k) && Inv(w) && h in w.histories
    ensures h in Run(k, scope, w, events).histories
    ensures Run(k, scope, w, events).histories[h] == LastOf(w.histories[h], Rewritten(k, scope, w, events, h))
    decreases |events|
  {
    if events != [] {
      var next := Apply(k, scope, w, events[0]);
      EventFootprint(k, scope, w, events[0]);
      EventRewrites(k, scope, w, events[0], h);
      RunKeepsLastHistory(k, scope, next, events[1..], h);
      var rest := Rewritten(k, scope, next, events[1..], h);
      var first := Rewrites(k, scope, w, events[0], h);
      if first.Some? {
        LastOneMore(w.histories[h], first.value, rest);
      } else {
        assert Rewritten(k, scope, w, events, h) == rest;
      }
    }
  }

  /** What this event settles of a unit's program, and when. */
  function Settles(k: Kernel, scope: nat, w: World, e: Event, unit: nat): Option<(Manifest, Time)> {
    if e.Invoke? && Commits(k, scope, w, e.call) && w.relationships[e.call.relationship].ledger.unit == unit
    then Some((Answer(k, scope, w, e.call).value.transition.manifest, e.call.facts.now)) else None
  }

  function Settlements(k: Kernel, scope: nat, w: World, events: seq<Event>, unit: nat): seq<(Manifest, Time)>
    decreases |events|
  {
    if events == [] then []
    else
      var first := Settles(k, scope, w, events[0], unit);
      (if first.Some? then [first.value] else []) + Settlements(k, scope, Apply(k, scope, w, events[0]), events[1..], unit)
  }

  /** A program after all of these settlements, one after another. */
  ghost predicate SettledBy(k: Kernel, program: nat, settlements: seq<(Manifest, Time)>, last: nat)
    decreases |settlements|
  {
    if settlements == [] then last == program
    else exists next :: Settled(k, program, settlements[0].0, settlements[0].1, next) && SettledBy(k, next, settlements[1..], last)
  }

  lemma EventSettles(k: Kernel, scope: nat, w: World, e: Event, unit: nat)
    requires Contract(k) && Inv(w) && unit in w.programs
    ensures unit in Apply(k, scope, w, e).programs
    ensures match Settles(k, scope, w, e, unit)
            case Some((m, now)) => Settled(k, w.programs[unit], m, now, Apply(k, scope, w, e).programs[unit])
            case None => Apply(k, scope, w, e).programs[unit] == w.programs[unit]
  {
    match e
    case Invoke(call) => if Commits(k, scope, w, call) { CommitWritesItsManifest(k, scope, w, call); }
    case Join(protocol, unit, body, program) =>
      if Joined(w, protocol, unit, body, program).Success? {
        RegistrationKeepsInv(w, protocol, unit, History(protocol.history, protocol.recipient, body), program);
      }
  }

  /** A unit's program is over any run what it was, taken through the settlement of every commit in that unit in order, by
      whichever relationship: no forfeiture and no reversal is lost or taken twice. */
  lemma {:induction false} RunSettlesEveryCommit(k: Kernel, scope: nat, w: World, events: seq<Event>, unit: nat)
    requires Contract(k) && Inv(w) && unit in w.programs
    ensures unit in Run(k, scope, w, events).programs
    ensures SettledBy(k, w.programs[unit], Settlements(k, scope, w, events, unit), Run(k, scope, w, events).programs[unit])
    decreases |events|
  {
    if events != [] {
      var next := Apply(k, scope, w, events[0]);
      EventFootprint(k, scope, w, events[0]);
      EventSettles(k, scope, w, events[0], unit);
      RunSettlesEveryCommit(k, scope, next, events[1..], unit);
      var all, rest := Settlements(k, scope, w, events, unit), Settlements(k, scope, next, events[1..], unit);
      var first := Settles(k, scope, w, events[0], unit);
      if first.Some? {
        assert all[0] == first.value && all[1..] == rest;
      } else {
        assert all == rest;
      }
    }
  }

  /** A relationship that joins starts from nothing, so its journal is exactly what it commits afterwards. */
  lemma JoinedStartsEmpty(k: Kernel, scope: nat, w: World, protocol: ProtocolState, unit: nat, body: nat, program: nat,
                          events: seq<Event>)
    requires Contract(k) && Inv(w) && Joined(w, protocol, unit, body, program).Success?
    ensures var next := Joined(w, protocol, unit, body, program).value;
            && Inv(next)
            && protocol.relationship in Run(k, scope, next, events).relationships
            && FoldsTo(NewState(protocol, unit), Transitions(k, scope, next, events, protocol.relationship),
                       Run(k, scope, next, events).relationships[protocol.relationship])
  {
    RegistrationKeepsInv(w, protocol, unit, History(protocol.history, protocol.recipient, body), program);
    RunIsFoldOfCommits(k, scope, Joined(w, protocol, unit, body, program).value, events, protocol.relationship);
  }
}
