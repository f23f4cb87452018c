/** The member's write-ahead request journal (apps/cs-mail-cli/src/member.rs and state.rs), with the
    engine on the other end of the wire. A command that fails ends its process; the next one starts from
    the durable file. */
module MemberJournal {
  import opened Wrappers
  import E = Engine
  import F = MemberFile

  type Step = string
  type Answer = E.Outcome

  datatype Entry = Entry(route: string, body: nat, answer: Option<Answer>)
  type Journal = map<Step, Entry>

  datatype Transmission = Transmission(step: Step, route: string, body: nat)

  datatype CliError = NotBuilt | NotSaved | Unknown | Discarded

  /** What the world does to one journaled request. A crash anywhere is a failure at that point: the
      process ends either way. A save stops nowhere, or with its rename and that many steps before it not
      taken. */
  datatype Weather = Weather(
    saves: Option<nat>,   // where the save of the new entry stops
    sends: bool,          // the process lives to send it
    reaches: bool,        // the request reaches the service
    replies: bool,        // a success answer comes back readable
    loses: bool,          // the answer is deliberately discarded as if lost
    savesAnswer: Option<nat>,  // where the save of the answer stops
    facts: E.Facts)       // the service's own facts when it processes the request

  /** The service: its kernel, its scope, and what a posted body asks of it. */
  datatype Service = Service(kernel: E.Kernel, scope: nat, decode: (string, nat) -> (E.Ref, E.Command))

  /** One member's files and process, the wire, and the service's store. `former` are the journals a loss of power
      may still bring back; `effects` logs the steps whose requests the service committed. */
  datatype State = State(
    journal: Journal, disk: Journal, former: set<Journal>, wire: seq<Transmission>, world: E.World, effects: seq<Step>)

  function CallOf(s: Service, route: string, body: nat, facts: E.Facts): E.Call {
    var (relationship, command) := s.decode(route, body);
    E.Call(relationship, command, facts)
  }

  /** The service's side of one transmission. */
  function Serve(s: Service, st: State, step: Step, call: E.Call): State {
    st.(world := E.Step(s.kernel, s.scope, st.world, call),
        effects := if E.Commits(s.kernel, s.scope, st.world, call) then st.effects + [step] else st.effects)
  }

  /** The process ends; the next one reads the durable file. */
  function Restart(st: State): State {
    st.(journal := st.disk)
  }

  /** The process has put the entry into its journal in memory. */
  function Inserted(st: State, step: Step, route: string, body: nat): State {
    st.(journal := st.journal[step := Entry(route, body, None)])
  }

  /** The journal in memory reaches the disk. */
  function Saved(st: State): State {
    st.(disk := st.journal, former := st.former + {st.disk})
  }

  /** Power fails, and this is the journal on file when it is back; the process is a new one. */
  function Rebooted(st: State, kept: Journal): State {
    st.(journal := kept, disk := kept, former := {})
  }

  predicate MayKeep(st: State, kept: Journal) {
    kept in st.former + {st.disk}
  }

  /** Make sure the step is journaled: already there, or built, inserted and saved. */
  function Recorded(st: State, step: Step, route: string, body: Option<nat>, weather: Weather): Result<State, CliError> {
    if step in st.journal then Success(st)
    else if body.None? then Failure(NotBuilt)
    else if weather.saves.Some? then Failure(NotSaved)
    else
      Success(Saved(Inserted(st, step, route, body.value)))
  }

  /** Send the recorded request, whatever the caller would have sent this time. */
  function Sent(s: Service, st: State, step: Step, weather: Weather): State
    requires step in st.journal
  {
    var entry := st.journal[step];
    var posted := st.(wire := st.wire + [Transmission(step, entry.route, entry.body)]);
    if weather.reaches then Serve(s, posted, step, CallOf(s, entry.route, entry.body, weather.facts)) else posted
  }

  /** The answer the service gives to the recorded request, if any. */
  function Reply(s: Service, st: State, step: Step, weather: Weather): Option<Answer>
    requires step in st.journal
  {
    var call := CallOf(s, st.journal[step].route, st.journal[step].body, weather.facts);
    if weather.reaches && weather.replies && E.Present(st.world, call.relationship)
       && E.Answer(s.kernel, s.scope, st.world, call).Success?
    then Some(E.Answer(s.kernel, s.scope, st.world, call).value) else None
  }

  /** One journaled request, to its end or to the failure that ends the process. */
  function Journaled(s: Service, st: State, step: Step, route: string, body: Option<nat>, weather: Weather)
    : (State, Result<Answer, CliError>)
  {
    if step in st.journal && st.journal[step].answer.Some? then (st, Success(st.journal[step].answer.value))
    else match Recorded(st, step, route, body, weather)
      case Failure(e) => (Restart(st), Failure(e))
      case Success(recorded) =>
        if !weather.sends then (Restart(recorded), Failure(Unknown))
        else
          var sent := Sent(s, recorded, step, weather);
          match Reply(s, recorded, step, weather)
          case None => (Restart(sent), Failure(Unknown))
          case Some(answer) =>
            if weather.loses then (Restart(sent), Failure(Discarded))
            else if weather.savesAnswer.Some? then (Restart(sent), Failure(NotSaved))
            else
              var journal := sent.journal[step := sent.journal[step].(answer := Some(answer))];
              (Saved(sent.(journal := journal)), Success(answer))
  }

  // ---- the process itself ----

  class Member {
    const service: Service
    const format: F.Format<Journal>
    var journal: Journal
    var files: F.Files
    var wire: seq<Transmission>
    var world: E.World
    var effects: seq<Step>

    /** The main file reads back, and so does everything it may fall back to; the temporary one may be anything. */
    ghost predicate Valid()
      reads this
    {
      && F.Sound(format) && F.Settled(files) && F.Read(format, files).Some?
      && forall file :: file in files.former ==> F.Content(format, file).Some?
    }

    ghost function Former(): set<Journal>
      requires Valid()
      reads this
    {
      set file | file in files.former :: F.Content(format, file).value
    }

    ghost function Disk(): Journal
      requires Valid()
      reads this
    {
      F.Read(format, files).value
    }

    ghost function Contents(): State
      requires Valid()
      reads this
    {
      State(journal, Disk(), Former(), wire, world, effects)
    }

    constructor (service: Service, format: F.Format<Journal>, world: E.World, temporary: Option<F.File>)
      requires F.Sound(format)
      ensures this.service == service && this.format == format
      ensures Valid() && Contents() == State(map[], map[], {}, [], world, [])
    {
      this.service, this.format, this.world := service, format, world;
      journal, wire, effects := map[], [], [];
      files := F.Files(Some(F.File(format.encode(map[]), true)), temporary, {});
    }

    /** Writes a temporary file, syncs it and renames it, as far as it gets: a save that stops anywhere
        leaves what was durable before. */
    method Save(stops: Option<nat>) returns (saved: bool)
      requires Valid()
      modifies this`files
      ensures Valid() && saved == stops.None?
      ensures Disk() == if saved then journal else old(Disk())
      ensures Former() == if saved then old(Former()) + {old(Disk())} else old(Former())
    {
      var steps := F.Saving(format.encode(journal));
      var end := |steps|;
      if stops.Some? {
        end := if stops.value < |steps| then |steps| - 1 - stops.value else 0;
      }
      ghost var before := files;
      for n := 0 to end
        invariant files == F.TakeAll(before, steps[..n])
      {
        assert steps[..n + 1][..n] == steps[..n];
        files := F.Take(files, steps[n]);
      }
      F.SaveIsAtomic(format, before, journal, end);
      F.SaveKeepsSettled(before, format.encode(journal), end);
      F.StoppedIsPrefix(before, format.encode(journal), end);
      return stops.None?;
    }

    /** Power fails, leaving the files as it may; the next process reads what is there. */
    method LosePower(left: F.Files)
      requires Valid() && F.PowerLoss(files, left) && F.Settled(left) && left.former == {}
      modifies this`files, this`journal
      ensures Valid() && MayKeep(old(Contents()), Disk()) && Contents() == Rebooted(old(Contents()), Disk())
    {
      ghost var before := files;
      files := left;
      assert files.main.Some? && F.Read(format, files).Some? by {
        var file :| file in before.former + {before.main} && F.Survives(file, left.main);
        assert file.Some? ==> file.value.synced;
      }
      journal := F.Read(format, files).value;
    }

    /** A new process reads the durable file. */
    method Open()
      requires Valid()
      modifies this`journal
      ensures Valid() && Contents() == Restart(old(Contents()))
    {
      journal := F.Read(format, files).value;
    }

    method Post(step: Step, entry: Entry, weather: Weather) returns (answer: Option<Answer>)
      requires Valid() && step in journal && journal[step] == entry
      modifies this`wire, this`world, this`effects
      ensures Valid() && Contents() == Sent(service, old(Contents()), step, weather)
      ensures answer == Reply(service, old(Contents()), step, weather)
    {
      wire := wire + [Transmission(step, entry.route, entry.body)];
      answer := None;
      if weather.reaches {
        var call := CallOf(service, entry.route, entry.body, weather.facts);
        if E.Present(world, call.relationship) {
          var response := E.Answer(service.kernel, service.scope, world, call);
          if weather.replies && response.Success? {
            answer := Some(response.value);
          }
        }
        if E.Commits(service.kernel, service.scope, world, call) {
          effects := effects + [step];
        }
        world := E.Step(service.kernel, service.scope, world, call);
      }
    }

    /** The files, the wire and the service end exactly as the specified request leaves them, in every weather:
        nothing is transmitted for a step whose answer is on file, and never anything but the recorded entry. */
    method Request(step: Step, route: string, body: Option<nat>, weather: Weather) returns (result: Result<Answer, CliError>)
      requires Valid()
      modifies this`journal, this`files, this`wire, this`world, this`effects
      ensures Valid() && (Contents(), result) == Journaled(service, old(Contents()), step, route, body, weather)
    {
      if step in journal {
        if journal[step].answer.Some? {
          return Success(journal[step].answer.value);
        }
      } else {
        if body.None? {
          Open();
          return Failure(NotBuilt);
        }
        journal := journal[step := Entry(route, body.value, None)];
        var saved := Save(weather.saves);
        if !saved {
          Open();
          return Failure(NotSaved);
        }
      }
      if !weather.sends {
        Open();
        return Failure(Unknown);
      }
      var entry := journal[step];
      var answer := Post(step, entry, weather);
      if answer.None? {
        Open();
        return Failure(Unknown);
      }
      if weather.loses {
        Open();
        return Failure(Discarded);
      }
      journal := journal[step := entry.(answer := answer)];
      var saved := Save(weather.savesAnswer);
      if !saved {
        Open();
        return Failure(NotSaved);
      }
      return Success(answer.value);
    }

    /** `retry`: send pending steps again, stopping at the first failure. What it sends is among the requests
        pending when it began, each at most once; when it ends well it has sent them all and none is pending.
        No step is built here, and every durable answer is still there. */
    method Retry(weathers: map<Step, Weather>) returns (result: Result<(), CliError>)
      requires Valid() && Inv(service, Contents())
      requires forall step :: step in journal ==> step in weathers
      modifies this`journal, this`files, this`wire, this`world, this`effects
      ensures Valid() && Retried(service, old(Contents()), Contents())
      ensures result.Success? ==> Pending(Disk()) == {}
      ensures result.Success? ==> forall step :: step in Pending(old(Disk())) ==> step in Resent(old(wire), wire)
    {
      var pending := Pending(journal);
      ghost var start := Contents();
      while pending != {}
        invariant Valid() && Retrying(service, start, Contents(), pending)
        decreases |pending|
      {
        var step :| step in pending;
        RetryOne(service, start, Contents(), pending, step, weathers[step]);
        var answer := Request(step, "", None, weathers[step]);
        if answer.Failure? {
          return Failure(answer.error);
        }
        pending := pending - {step};
      }
      return Success(());
    }
  }

  function Pending(journal: Journal): set<Step> {
    set step | step in journal && journal[step].answer.None?
  }

  predicate Distinct(steps: seq<Step>) {
    forall i, j :: 0 <= i < j < |steps| ==> steps[i] != steps[j]
  }

  /** The steps transmitted since, in order. */
  ghost function Resent(before: seq<Transmission>, after: seq<Transmission>): (steps: seq<Step>)
    ensures |before| <= |after| ==> |steps| == |after| - |before|
  {
    if |before| <= |after| then seq(|after| - |before|, i requires 0 <= i < |after| - |before| => after[|before| + i].step)
    else []
  }

  /** A retry so far or at its end: nothing durable is lost, no step is built, and what was sent since the
      start was pending then, each step once. */
  ghost predicate Retried(s: Service, start: State, st: State) {
    && Inv(s, st) && Extends(start, st) && st.disk.Keys == start.disk.Keys
    && Distinct(Resent(start.wire, st.wire))
    && forall step :: step in Resent(start.wire, st.wire) ==> step in Pending(start.disk)
  }

  /** A retry with these steps left to send. */
  ghost predicate Retrying(s: Service, start: State, st: State, left: set<Step>) {
    && Retried(s, start, st)
    && left == Pending(st.disk) && left <= Pending(start.disk)
    && forall step :: step in Pending(start.disk) ==> (step in left <==> step !in Resent(start.wire, st.wire))
  }

  // ---- what every state of every run has ----

  /** Everything ever sent is journaled durably with the same route and bytes. */
  predicate Backed(st: State) {
    forall i :: 0 <= i < |st.wire| ==> BackedBy(st.disk, st.wire[i])
  }

  predicate BackedBy(disk: Journal, t: Transmission) {
    t.step in disk && disk[t.step].route == t.route && disk[t.step].body == t.body
  }

  function SentSteps(wire: seq<Transmission>): set<Step> {
    set t | t in wire :: t.step
  }

  /** The journal in memory between commands is the durable one; whatever a loss of power may bring back is an earlier
      part of it; every committed step was sent and its operation key is on the service's record; no step committed
      twice; and every durable answer is what the service committed for exactly that request. */
  ghost predicate Core(s: Service, st: State) {
    && E.Contract(s.kernel) && E.Inv(st.world)
    && st.journal == st.disk
    && (forall kept :: kept in st.former ==> Older(kept, st.disk))
    && EffectsRecorded(s, st)
    && (forall i, j :: 0 <= i < j < |st.effects| ==> st.effects[i] != st.effects[j])
    && (forall step :: step in st.disk ==> AnswerTrue(s, st.world, st.disk[step]))
  }

  predicate EffectsRecorded(s: Service, st: State) {
    forall i :: 0 <= i < |st.effects| ==>
      && st.effects[i] in SentSteps(st.wire) && st.effects[i] in st.disk
      && OnRecord(s, st.world, st.disk[st.effects[i]])
  }

  /** And everything ever sent is journaled durably with the same route and bytes. */
  ghost predicate Inv(s: Service, st: State) {
    Core(s, st) && Backed(st)
  }

  /** An answer on file is the transition the service recorded for this very request. */
  predicate AnswerTrue(s: Service, w: E.World, entry: Entry) {
    entry.answer.Some? ==>
      && OnRecord(s, w, entry)
      && var (relationship, command) := s.decode(entry.route, entry.body);
         w.relationships[relationship].idempotency[command.key] == E.Record(command, entry.answer.value.transition)
  }

  /** The service holds a record under the operation key of this request. */
  predicate OnRecord(s: Service, w: E.World, entry: Entry) {
    var (relationship, command) := s.decode(entry.route, entry.body);
    relationship in w.relationships && command.key in w.relationships[relationship].idempotency
  }

  /** The earlier journal's steps are in the later one, with the same routes and bytes and any answers it had. */
  predicate Older(before: Journal, after: Journal) {
    forall step :: step in before ==>
      && step in after && after[step].route == before[step].route && after[step].body == before[step].body
      && (before[step].answer.Some? ==> after[step] == before[step])
  }

  /** Durable history only grows: routes and bytes are permanent, answers once known are permanent. */
  predicate Extends(before: State, after: State) {
    && Older(before.disk, after.disk)
    && |before.wire| <= |after.wire| && after.wire[..|before.wire|] == before.wire
    && |before.effects| <= |after.effects| && after.effects[..|before.effects|] == before.effects
  }

  lemma OlderTwice(a: Journal, b: Journal, c: Journal)
    requires Older(a, b) && Older(b, c)
    ensures Older(a, c)
  {
  }

  /** Saving a journal that only adds to the durable one. */
  lemma SavingKeepsFormer(st: State)
    requires (forall kept :: kept in st.former ==> Older(kept, st.disk)) && Older(st.disk, st.journal)
    ensures forall kept :: kept in Saved(st).former ==> Older(kept, Saved(st).disk)
  {
    forall kept | kept in Saved(st).former ensures Older(kept, st.journal) {
      if kept in st.former { OlderTwice(kept, st.disk, st.journal); }
    }
  }

  lemma RecordedKeepsInv(s: Service, st: State, step: Step, route: string, body: Option<nat>, weather: Weather)
    requires Core(s, st) && Recorded(st, step, route, body, weather).Success?
    ensures var next := Recorded(st, step, route, body, weather).value;
            Core(s, next) && step in next.journal && Extends(st, next) && next.wire == st.wire && (Backed(st) ==> Backed(next))
  {
    if step !in st.journal { SavingKeepsFormer(Inserted(st, step, route, body.value)); }
    var next := Recorded(st, step, route, body, weather).value;
    if Backed(st) {
      forall i | 0 <= i < |st.wire| ensures BackedBy(next.disk, next.wire[i]) { assert BackedBy(st.disk, st.wire[i]); }
    }
  }

  /** A key on record stays on record through whatever the service does. */
  lemma RecordStays(s: Service, w: E.World, e: E.Event, entry: Entry)
    requires E.Contract(s.kernel) && E.Inv(w)
    ensures OnRecord(s, w, entry) ==> OnRecord(s, E.Apply(s.kernel, s.scope, w, e), entry)
    ensures AnswerTrue(s, w, entry) ==> AnswerTrue(s, E.Apply(s.kernel, s.scope, w, e), entry)
  {
    var (relationship, command) := s.decode(entry.route, entry.body);
    if OnRecord(s, w, entry) { E.RecordStays(s.kernel, s.scope, w, e, relationship, command.key); }
  }

  /** A commit records its own key, which was not on record. */
  lemma CommitRecords(s: Service, w: E.World, entry: Entry, facts: E.Facts)
    requires E.Contract(s.kernel) && E.Inv(w)
    ensures var call := CallOf(s, entry.route, entry.body, facts);
            && E.Inv(E.Step(s.kernel, s.scope, w, call))
            && (E.Commits(s.kernel, s.scope, w, call) ==>
                  !OnRecord(s, w, entry) && OnRecord(s, E.Step(s.kernel, s.scope, w, call), entry))
  {
    var call := CallOf(s, entry.route, entry.body, facts);
    if E.Present(w, call.relationship) { E.CallFootprint(s.kernel, s.scope, w, call); }
  }

  lemma ServeKeepsInv(s: Service, st: State, step: Step, facts: E.Facts)
    requires Core(s, st) && step in st.disk && step in SentSteps(st.wire)
    ensures Core(s, Serve(s, st, step, CallOf(s, st.disk[step].route, st.disk[step].body, facts)))
  {
    var call := CallOf(s, st.disk[step].route, st.disk[step].body, facts);
    var next := Serve(s, st, step, call);
    CommitRecords(s, st.world, st.disk[step], facts);
    assert next.world == E.Apply(s.kernel, s.scope, st.world, E.Invoke(call));
    forall i | 0 <= i < |st.effects| ensures OnRecord(s, next.world, st.disk[st.effects[i]]) {
      RecordStays(s, st.world, E.Invoke(call), st.disk[st.effects[i]]);
    }
    forall other | other in st.disk ensures AnswerTrue(s, next.world, st.disk[other]) {
      RecordStays(s, st.world, E.Invoke(call), st.disk[other]);
    }
    if E.Commits(s.kernel, s.scope, st.world, call) {
      forall i | 0 <= i < |st.effects| ensures st.effects[i] != step {
        assert OnRecord(s, st.world, st.disk[st.effects[i]]);
      }
    }
  }

  lemma PostedKeepsCore(s: Service, st: State, t: Transmission)
    requires Core(s, st) && BackedBy(st.disk, t)
    ensures var posted := st.(wire := st.wire + [t]);
            Core(s, posted) && t.step in SentSteps(posted.wire) && (Backed(st) ==> Backed(posted))
  {
    var posted := st.(wire := st.wire + [t]);
    assert t in posted.wire && forall u :: u in st.wire ==> u in posted.wire;
    forall i | 0 <= i < |st.effects| ensures st.effects[i] in SentSteps(posted.wire) {
      assert st.effects[i] in SentSteps(st.wire);
    }
  }

  lemma SentKeepsInv(s: Service, st: State, step: Step, weather: Weather)
    requires Core(s, st) && step in st.journal
    ensures Core(s, Sent(s, st, step, weather)) && Extends(st, Sent(s, st, step, weather))
    ensures Backed(st) ==> Backed(Sent(s, st, step, weather))
    ensures Sent(s, st, step, weather).disk == st.disk
    ensures Reply(s, st, step, weather).Some? ==>
              AnswerTrue(s, Sent(s, st, step, weather).world, st.journal[step].(answer := Reply(s, st, step, weather)))
  {
    var entry := st.journal[step];
    var posted := st.(wire := st.wire + [Transmission(step, entry.route, entry.body)]);
    PostedKeepsCore(s, st, Transmission(step, entry.route, entry.body));
    if weather.reaches {
      ServeKeepsInv(s, posted, step, weather.facts);
      var call := CallOf(s, entry.route, entry.body, weather.facts);
      if E.Present(st.world, call.relationship) { E.CallFootprint(s.kernel, s.scope, st.world, call); }
    }
  }

  lemma AnsweringKeepsInv(s: Service, st: State, step: Step, answer: Answer)
    requires Core(s, st) && step in st.journal && st.journal[step].answer.None?
    requires AnswerTrue(s, st.world, st.journal[step].(answer := Some(answer)))
    ensures var next := Saved(st.(journal := st.journal[step := st.journal[step].(answer := Some(answer))]));
            Core(s, next) && Extends(st, next) && (Backed(st) ==> Backed(next))
  {
    var answered := st.(journal := st.journal[step := st.journal[step].(answer := Some(answer))]);
    var next := Saved(answered);
    SavingKeepsFormer(answered);
    forall i | 0 <= i < |next.effects|
      ensures next.effects[i] in next.disk && OnRecord(s, next.world, next.disk[next.effects[i]])
    {
      assert OnRecord(s, st.world, st.disk[st.effects[i]]);
    }
    if Backed(st) {
      forall i | 0 <= i < |st.wire| ensures BackedBy(next.disk, next.wire[i]) { assert BackedBy(st.disk, st.wire[i]); }
    }
  }

  lemma ExtendsTransitive(a: State, b: State, c: State)
    requires Extends(a, b) && Extends(b, c)
    ensures Extends(a, c)
  {
    assert c.wire[..|a.wire|] == c.wire[..|b.wire|][..|a.wire|];
    assert c.effects[..|a.effects|] == c.effects[..|b.effects|][..|a.effects|];
  }

  lemma JournaledKeepsCore(s: Service, st: State, step: Step, route: string, body: Option<nat>, weather: Weather)
    requires Core(s, st)
    ensures var next := Journaled(s, st, step, route, body, weather).0;
            Core(s, next) && Extends(st, next) && (Backed(st) ==> Backed(next))
  {
    var recorded := Recorded(st, step, route, body, weather);
    if !(step in st.journal && st.journal[step].answer.Some?) && recorded.Success? {
      RecordedKeepsInv(s, st, step, route, body, weather);
      if weather.sends {
        SentKeepsInv(s, recorded.value, step, weather);
        var sent := Sent(s, recorded.value, step, weather);
        ExtendsTransitive(st, recorded.value, sent);
        if Reply(s, recorded.value, step, weather).Some? && !weather.loses && weather.savesAnswer.None? {
          AnsweringKeepsInv(s, sent, step, Reply(s, recorded.value, step, weather).value);
          ExtendsTransitive(st, sent, Journaled(s, st, step, route, body, weather).0);
        }
      }
    }
  }

  /** Whatever happens to a request, in whatever weather, the state it leaves is sound and only adds. */
  lemma JournaledKeepsInv(s: Service, st: State, step: Step, route: string, body: Option<nat>, weather: Weather)
    requires Inv(s, st)
    ensures var next := Journaled(s, st, step, route, body, weather).0;
            Inv(s, next) && Extends(st, next)
  {
    JournaledKeepsCore(s, st, step, route, body, weather);
  }

  /** Sending a recorded step again journals no new step, and a success answers that step. */
  lemma ResendKeepsSteps(s: Service, st: State, step: Step, weather: Weather)
    requires Inv(s, st) && step in Pending(st.disk)
    ensures var (next, result) := Journaled(s, st, step, "", None, weather);
            && Inv(s, next) && Extends(st, next)
            && next.disk.Keys == st.disk.Keys
            && Pending(next.disk) == if result.Success? then Pending(st.disk) - {step} else Pending(st.disk)
  {
    JournaledKeepsInv(s, st, step, "", None, weather);
    SentKeepsInv(s, st, step, weather);
  }

  /** A request transmits its own step at most once, and a pending one exactly once if it succeeds. */
  lemma JournaledSendsOnce(s: Service, st: State, step: Step, route: string, body: Option<nat>, weather: Weather)
    requires Inv(s, st)
    ensures var (next, result) := Journaled(s, st, step, route, body, weather);
            && (next.wire == st.wire || (next.wire == st.wire + [next.wire[|st.wire|]] && next.wire[|st.wire|].step == step))
            && (result.Success? ==> (next.wire == st.wire <==> step in st.disk && st.disk[step].answer.Some?))
  {
  }

  lemma ResentOneMore(before: seq<Transmission>, wire: seq<Transmission>, t: Transmission)
    requires |before| <= |wire| && Distinct(Resent(before, wire)) && t.step !in Resent(before, wire)
    ensures Resent(before, wire + [t]) == Resent(before, wire) + [t.step] && Distinct(Resent(before, wire + [t]))
  {
    assert Resent(before, wire + [t]) == Resent(before, wire) + [t.step];
  }

  lemma RetryOne(s: Service, start: State, st: State, left: set<Step>, step: Step, weather: Weather)
    requires Retrying(s, start, st, left) && step in left
    ensures var (next, result) := Journaled(s, st, step, "", None, weather);
            Retried(s, start, next) && (result.Success? ==> Retrying(s, start, next, left - {step}))
  {
    var (next, result) := Journaled(s, st, step, "", None, weather);
    ResendKeepsSteps(s, st, step, weather);
    ExtendsTransitive(start, st, next);
    JournaledSendsOnce(s, st, step, "", None, weather);
    if next.wire != st.wire {
      ResentOneMore(start.wire, st.wire, next.wire[|st.wire|]);
    }
  }

  // ---- runs ----

  /** One command of the member in any weather, a crash between commands, a loss of power that keeps one of the journals
      it may, or whatever else happens at the service: another client's call, or a registration. */
  datatype Event =
    | Command(step: Step, route: string, body: Option<nat>, weather: Weather)
    | Crash
    | PowerLoss(kept: Journal)
    | Elsewhere(event: E.Event)

  function After(s: Service, st: State, e: Event): State {
    match e
    case Command(step, route, body, weather) => Journaled(s, st, step, route, body, weather).0
    case Crash => Restart(st)
    case PowerLoss(kept) => if MayKeep(st, kept) then Rebooted(st, kept) else st
    case Elsewhere(event) => st.(world := E.Apply(s.kernel, s.scope, st.world, event))
  }

  function Run(s: Service, st: State, events: seq<Event>): State
    decreases |events|
  {
    if events == [] then st else Run(s, After(s, st, events[0]), events[1..])
  }

  /** This loss of power undoes the journaling of a step that was sent, or of one that took effect. */
  predicate ForgetsSent(st: State, e: Event) {
    e.PowerLoss? && MayKeep(st, e.kept) && !(SentSteps(st.wire) <= e.kept.Keys)
  }

  predicate ForgetsEffect(st: State, e: Event) {
    e.PowerLoss? && MayKeep(st, e.kept) && exists i :: 0 <= i < |st.effects| && st.effects[i] !in e.kept
  }

  /** An effect was sent, so forgetting it is forgetting what was sent. */
  lemma EffectsAreSent(s: Service, st: State, e: Event)
    requires Core(s, st) && ForgetsEffect(st, e)
    ensures ForgetsSent(st, e)
  {
  }

  lemma ElsewhereKeepsCore(s: Service, st: State, event: E.Event)
    requires Core(s, st)
    ensures Core(s, After(s, st, Elsewhere(event)))
  {
    var world := E.Apply(s.kernel, s.scope, st.world, event);
    E.EventFootprint(s.kernel, s.scope, st.world, event);
    forall step | step in st.disk ensures AnswerTrue(s, world, st.disk[step]) {
      RecordStays(s, st.world, event, st.disk[step]);
    }
    forall i | 0 <= i < |st.effects| ensures OnRecord(s, world, st.disk[st.effects[i]]) {
      RecordStays(s, st.world, event, st.disk[st.effects[i]]);
    }
  }

  /** After a loss of power "sent implies recorded" still holds exactly if the journal kept has every step sent, and
      "recorded if it took effect" exactly if it has every step that took effect. */
  lemma PowerLossKeepsExactly(s: Service, st: State, kept: Journal)
    requires Inv(s, st) && MayKeep(st, kept)
    ensures Inv(s, Rebooted(st, kept)) <==> SentSteps(st.wire) <= kept.Keys
  {
    var next := Rebooted(st, kept);
    if SentSteps(st.wire) <= kept.Keys {
      forall i | 0 <= i < |st.wire| ensures BackedBy(kept, st.wire[i]) {
        assert BackedBy(st.disk, st.wire[i]) && st.wire[i].step in SentSteps(st.wire);
      }
      if ForgetsEffect(st, PowerLoss(kept)) { EffectsAreSent(s, st, PowerLoss(kept)); }
      RebootKeepsCoreExactly(s, st, kept);
    } else {
      var step :| step in SentSteps(st.wire) && step !in kept;
      var i :| 0 <= i < |st.wire| && st.wire[i].step == step;
      assert !BackedBy(next.disk, next.wire[i]);
    }
  }

  lemma RebootKeepsCoreExactly(s: Service, st: State, kept: Journal)
    requires Core(s, st) && MayKeep(st, kept)
    ensures Core(s, Rebooted(st, kept)) <==> !ForgetsEffect(st, PowerLoss(kept))
  {
    var next := Rebooted(st, kept);
    assert Older(kept, st.disk);
    if !ForgetsEffect(st, PowerLoss(kept)) {
      forall i | 0 <= i < |next.effects|
        ensures next.effects[i] in next.disk && OnRecord(s, next.world, next.disk[next.effects[i]])
      {
        assert OnRecord(s, st.world, st.disk[st.effects[i]]);
      }
      forall step | step in kept ensures AnswerTrue(s, next.world, kept[step]) {
        assert AnswerTrue(s, st.world, st.disk[step]);
      }
    }
  }

  lemma EventKeepsCore(s: Service, st: State, e: Event)
    requires Core(s, st) && !ForgetsEffect(st, e)
    ensures Core(s, After(s, st, e))
    ensures !e.PowerLoss? ==> Extends(st, After(s, st, e)) && (Backed(st) ==> Backed(After(s, st, e)))
  {
    match e
    case Command(step, route, body, weather) => JournaledKeepsCore(s, st, step, route, body, weather);
    case Crash =>
    case PowerLoss(kept) => if MayKeep(st, kept) { RebootKeepsCoreExactly(s, st, kept); }
    case Elsewhere(event) => ElsewhereKeepsCore(s, st, event);
  }

  lemma EventKeepsInvExactly(s: Service, st: State, e: Event)
    requires Inv(s, st)
    ensures Inv(s, After(s, st, e)) <==> !ForgetsSent(st, e)
  {
    if e.PowerLoss? {
      if MayKeep(st, e.kept) { PowerLossKeepsExactly(s, st, e.kept); }
    } else {
      EventKeepsCore(s, st, e);
    }
  }

  /** At every moment of the run the invariant holds. */
  ghost predicate AlwaysSound(s: Service, st: State, events: seq<Event>)
    decreases |events|
  {
    Inv(s, st) && (events != [] ==> AlwaysSound(s, After(s, st, events[0]), events[1..]))
  }

  predicate RemembersSent(s: Service, st: State, events: seq<Event>)
    decreases |events|
  {
    events != [] ==> !ForgetsSent(st, events[0]) && RemembersSent(s, After(s, st, events[0]), events[1..])
  }

  predicate RemembersEffects(s: Service, st: State, events: seq<Event>)
    decreases |events|
  {
    events != [] ==> !ForgetsEffect(st, events[0]) && RemembersEffects(s, After(s, st, events[0]), events[1..])
  }

  /** Over every run, in every weather, with crashes, losses of power and other clients: at every moment everything sent
      is durably journaled with its route and bytes, no step took effect twice and every durable answer is the
      service's own, if and only if no loss of power undid the journaling of a step that had been sent. */
  lemma {:induction false} RunStaysSoundExactly(s: Service, st: State, events: seq<Event>)
    requires Inv(s, st)
    ensures AlwaysSound(s, st, events) <==> RemembersSent(s, st, events)
    ensures RemembersSent(s, st, events) ==> Inv(s, Run(s, st, events))
    decreases |events|
  {
    if events != [] {
      EventKeepsInvExactly(s, st, events[0]);
      if Inv(s, After(s, st, events[0])) { RunStaysSoundExactly(s, After(s, st, events[0]), events[1..]); }
    }
  }

  predicate NoPowerLoss(events: seq<Event>) {
    forall i :: 0 <= i < |events| ==> !events[i].PowerLoss?
  }

  /** Without losses of power the invariant holds throughout, and durable history only grows. */
  lemma {:induction false} RunKeepsInv(s: Service, st: State, events: seq<Event>)
    requires Inv(s, st) && NoPowerLoss(events)
    ensures Inv(s, Run(s, st, events)) && Extends(st, Run(s, st, events))
    decreases |events|
  {
    if events != [] {
      EventKeepsInvExactly(s, st, events[0]);
      EventKeepsCore(s, st, events[0]);
      RunKeepsInv(s, After(s, st, events[0]), events[1..]);
      ExtendsTransitive(st, After(s, st, events[0]), Run(s, st, events));
    }
  }

  lemma {:induction false} RunKeepsCore(s: Service, st: State, events: seq<Event>)
    requires Core(s, st) && RemembersEffects(s, st, events)
    ensures Core(s, Run(s, st, events))
    decreases |events|
  {
    if events != [] {
      EventKeepsCore(s, st, events[0]);
      RunKeepsCore(s, After(s, st, events[0]), events[1..]);
    }
  }

  /** All transmissions of one step, over any run, carry one route and one body, even when the command is
      run again with other arguments. */
  lemma TransmissionsAreIdentical(s: Service, st: State, events: seq<Event>, i: nat, j: nat)
    requires Inv(s, st) && RemembersSent(s, st, events)
    requires i < |Run(s, st, events).wire| && j < |Run(s, st, events).wire|
    requires Run(s, st, events).wire[i].step == Run(s, st, events).wire[j].step
    ensures Run(s, st, events).wire[i] == Run(s, st, events).wire[j]
  {
    RunStaysSoundExactly(s, st, events);
    var last := Run(s, st, events);
    assert BackedBy(last.disk, last.wire[i]) && BackedBy(last.disk, last.wire[j]);
  }

  function Occurrences(effects: seq<Step>, step: Step): nat {
    if effects == [] then 0 else (if effects[0] == step then 1 else 0) + Occurrences(effects[1..], step)
  }

  lemma {:induction false} DistinctOccursOnce(effects: seq<Step>, step: Step)
    requires forall i, j :: 0 <= i < j < |effects| ==> effects[i] != effects[j]
    ensures Occurrences(effects, step) <= 1
    ensures step !in effects ==> Occurrences(effects, step) == 0
  {
    if effects != [] { DistinctOccursOnce(effects[1..], step); }
  }

  /** Composed with the engine: however often a step is sent, lost, crashed and sent again, and whatever other clients
      do meanwhile, the service commits it at most once, as long as no loss of power forgets one that took effect. */
  lemma EachStepTakesEffectAtMostOnce(s: Service, st: State, events: seq<Event>, step: Step)
    requires Core(s, st) && RemembersEffects(s, st, events)
    ensures Occurrences(Run(s, st, events).effects, step) <= 1
  {
    RunKeepsCore(s, st, events);
    DistinctOccursOnce(Run(s, st, events).effects, step);
  }

  lemma {:induction false} OccurrencesGrow(effects: seq<Step>, step: Step)
    ensures Occurrences(effects + [step], step) == Occurrences(effects, step) + 1
    ensures step in effects ==> Occurrences(effects, step) > 0
  {
    if effects == [] {
      assert effects + [step] == [step] && [step][1..] == [];
    } else {
      assert (effects + [step])[1..] == effects[1..] + [step];
      assert effects == [effects[0]] + effects[1..];
      OccurrencesGrow(effects[1..], step);
    }
  }

  /** A forgotten step that took effect can take effect again: run anew with any request the service would commit. */
  lemma ForgottenEffectRepeats(s: Service, st: State, kept: Journal, step: Step, route: string, body: nat, weather: Weather)
    requires Core(s, st) && MayKeep(st, kept) && step in st.effects && step !in kept
    requires weather.saves.None? && weather.sends && weather.reaches
    requires E.Commits(s.kernel, s.scope, st.world, CallOf(s, route, body, weather.facts))
    ensures Occurrences(After(s, Rebooted(st, kept), Command(step, route, Some(body), weather)).effects, step) >= 2
  {
    var next := Rebooted(st, kept);
    var recorded := Saved(Inserted(next, step, route, body));
    assert Recorded(next, step, route, Some(body), weather) == Success(recorded);
    assert Sent(s, recorded, step, weather).effects == st.effects + [step];
    OccurrencesGrow(st.effects, step);
  }

  /** A new step that is sent and reaches the service: its effect, the service's store, and the journal from before it,
      which a loss of power may still bring back. */
  lemma NewStepReaches(s: Service, st: State, step: Step, route: string, body: nat, weather: Weather)
    requires step !in st.journal && weather.saves.None? && weather.sends && weather.reaches
    ensures var next := After(s, st, Command(step, route, Some(body), weather));
            var call := CallOf(s, route, body, weather.facts);
            && next.effects == (if E.Commits(s.kernel, s.scope, st.world, call) then st.effects + [step] else st.effects)
            && next.world == E.Step(s.kernel, s.scope, st.world, call) && MayKeep(next, st.disk)
  {
    var recorded := Saved(Inserted(st, step, route, body));
    assert Recorded(st, step, route, Some(body), weather) == Success(recorded);
    assert recorded.journal[step] == Entry(route, body, None);
  }

  lemma ThreeEvents(s: Service, st: State, a: Event, b: Event, c: Event)
    ensures Run(s, st, [a, b, c]) == After(s, After(s, After(s, st, a), b), c)
  {
    var first := After(s, st, a);
    var second := After(s, first, b);
    assert [a, b, c][1..] == [b, c] && [b, c][1..] == [c] && [c][1..] == [];
    assert Run(s, st, [a, b, c]) == Run(s, first, [b, c]) == Run(s, second, [c]) == Run(s, After(s, second, c), []);
  }

  /** After a loss that forgets everything, a step built anew takes effect if the service commits it. */
  lemma ForgottenTakesEffect(s: Service, sent: State, step: Step, route: string, other: nat, again: Weather)
    requires MayKeep(sent, map[]) && again.saves.None? && again.sends && again.reaches
    requires E.Commits(s.kernel, s.scope, sent.world, CallOf(s, route, other, again.facts))
    ensures After(s, After(s, sent, PowerLoss(map[])), Command(step, route, Some(other), again)).effects == sent.effects + [step]
  {
    NewStepReaches(s, Rebooted(sent, map[]), step, route, other, again);
  }

  /** It does happen: a new member's first step takes effect, the power fails before the directory is written, and the
      same step, built anew with other bytes, takes effect a second time. */
  lemma ForgettingRun(s: Service, world: E.World, step: Step, route: string, body: nat, other: nat, weather: Weather, again: Weather)
    requires weather.saves.None? && weather.sends && weather.reaches && again.saves.None? && again.sends && again.reaches
    requires E.Commits(s.kernel, s.scope, world, CallOf(s, route, body, weather.facts))
    requires E.Commits(s.kernel, s.scope, E.Step(s.kernel, s.scope, world, CallOf(s, route, body, weather.facts)),
                       CallOf(s, route, other, again.facts))
    ensures var start := State(map[], map[], {}, [], world, []);
            var first := Command(step, route, Some(body), weather);
            && ForgetsEffect(After(s, start, first), PowerLoss(map[]))
            && Run(s, start, [first, PowerLoss(map[]), Command(step, route, Some(other), again)]).effects == [step, step]
  {
    var start := State(map[], map[], {}, [], world, []);
    var first, loss := Command(step, route, Some(body), weather), PowerLoss(map[]);
    NewStepReaches(s, start, step, route, body, weather);
    var sent := After(s, start, first);
    assert sent.effects == [step] && sent.effects[0] !in loss.kept;
    ForgottenTakesEffect(s, sent, step, route, other, again);
    ThreeEvents(s, start, first, loss, Command(step, route, Some(other), again));
  }

  lemma OneCommandRun(s: Service, st: State, e: Event)
    requires !e.PowerLoss?
    ensures RemembersEffects(s, st, [e]) && Run(s, st, [e]) == After(s, st, e)
  {
    assert [e][1..] == [];
    assert RemembersEffects(s, After(s, st, e), []) && Run(s, After(s, st, e), []) == After(s, st, e);
  }

  /** From here on, as long as nothing more is forgotten, no step takes effect twice. */
  ghost predicate AtMostOnce(s: Service, st: State) {
    forall events, step :: RemembersEffects(s, st, events) ==> Occurrences(Run(s, st, events).effects, step) <= 1
  }

  lemma CoreIsAtMostOnce(s: Service, st: State)
    requires Core(s, st)
    ensures AtMostOnce(s, st)
  {
    forall events, step | RemembersEffects(s, st, events) ensures Occurrences(Run(s, st, events).effects, step) <= 1 {
      EachStepTakesEffectAtMostOnce(s, st, events, step);
    }
  }

  lemma RepeatedIsNotAtMostOnce(s: Service, st: State, e: Event, step: Step)
    requires !e.PowerLoss? && Occurrences(After(s, st, e).effects, step) >= 2
    ensures !AtMostOnce(s, st)
  {
    OneCommandRun(s, st, e);
  }

  /** At most once, then, survives a loss of power exactly if the journal kept has every step that took effect, as soon
      as there is any request the service would commit. */
  lemma AtMostOnceSurvivesExactly(s: Service, st: State, kept: Journal, route: string, body: nat, facts: E.Facts)
    requires Core(s, st) && MayKeep(st, kept)
    requires E.Commits(s.kernel, s.scope, st.world, CallOf(s, route, body, facts))
    ensures AtMostOnce(s, Rebooted(st, kept)) <==> !ForgetsEffect(st, PowerLoss(kept))
  {
    if ForgetsEffect(st, PowerLoss(kept)) {
      var i :| 0 <= i < |st.effects| && st.effects[i] !in kept;
      var weather := Weather(None, true, true, true, false, None, facts);
      ForgottenEffectRepeats(s, st, kept, st.effects[i], route, body, weather);
      RepeatedIsNotAtMostOnce(s, Rebooted(st, kept), Command(st.effects[i], route, Some(body), weather), st.effects[i]);
    } else {
      RebootKeepsCoreExactly(s, st, kept);
      CoreIsAtMostOnce(s, Rebooted(st, kept));
    }
  }

  /** A durable answer is final: after any run without a loss of power, asking again, with any arguments, returns it and
      sends nothing. */
  lemma DurableAnswerIsFinal(
    s: Service, st: State, events: seq<Event>, step: Step, route: string, body: Option<nat>, weather: Weather)
    requires Inv(s, st) && NoPowerLoss(events) && step in st.disk && st.disk[step].answer.Some?
    ensures var later := Run(s, st, events);
            Journaled(s, later, step, route, body, weather) == (later, Success(st.disk[step].answer.value))
  {
    RunKeepsInv(s, st, events);
  }

  /** The weather and the service let a recorded request run to its end. */
  predicate RunsToItsEnd(s: Service, w: E.World, route: string, body: nat, weather: Weather) {
    var call := CallOf(s, route, body, weather.facts);
    && weather.sends && weather.reaches && weather.replies && !weather.loses && weather.savesAnswer.None?
    && E.Present(w, call.relationship) && E.Answer(s.kernel, s.scope, w, call).Success?
  }

  /** Why a failed command ends its process: were it to carry on after a failed save, from any sound state,
      the entry in memory would count as journaled, and its next request for that step would leave a
      transmission no durable file remembers, unless nothing is sent, or the service is reached and accepts, its
      answer is read and kept, and that save succeeds. */
  lemma CarryingOnIsBackedExactly(s: Service, st: State, step: Step, route: string, body: nat, failed: Weather,
                                  otherRoute: string, otherBody: Option<nat>, again: Weather)
    requires Inv(s, st) && Recorded(st, step, route, Some(body), failed) == Failure(NotSaved)
    ensures var (next, result) := Journaled(s, Inserted(st, step, route, body), step, otherRoute, otherBody, again);
            && (Backed(next) <==> !again.sends || RunsToItsEnd(s, st.world, route, body, again))
            && (again.sends ==> next.wire == st.wire + [Transmission(step, route, body)])
            && (!RunsToItsEnd(s, st.world, route, body, again) ==> step !in next.disk)
  {
    var (next, result) := Journaled(s, Inserted(st, step, route, body), step, otherRoute, otherBody, again);
    assert result.Success? <==> RunsToItsEnd(s, st.world, route, body, again);
    if again.sends {
      assert next.wire == st.wire + [Transmission(step, route, body)];
      assert next.wire[|st.wire|] == Transmission(step, route, body);
      if result.Success? {
        forall i | 0 <= i < |next.wire| ensures BackedBy(next.disk, next.wire[i]) {
          if i < |st.wire| { assert BackedBy(st.disk, st.wire[i]); }
        }
      } else {
        assert !BackedBy(next.disk, next.wire[|st.wire|]);
      }
    } else {
      assert next.wire == st.wire && next.disk == st.disk;
    }
  }

  // ---- what one request leaves, in every weather ----

  /** What there is to send: the entry recorded before, or the one made of this call. */
  function EntryOf(st: State, step: Step, route: string, body: nat): Entry {
    if step in st.journal then st.journal[step] else Entry(route, body, None)
  }

  /** A step that was answered is answered from the journal, and nothing is sent. */
  lemma AnsweredStepsAreFinal(s: Service, st: State, step: Step, route: string, body: Option<nat>, weather: Weather)
    requires step in st.journal && st.journal[step].answer.Some?
    ensures Journaled(s, st, step, route, body, weather) == (st, Success(st.journal[step].answer.value))
  {
  }

  /** A new step that cannot be built or saved leaves nothing behind, and nothing is sent. */
  lemma UnsavedStepsLeaveNothing(s: Service, st: State, step: Step, route: string, body: Option<nat>, weather: Weather)
    requires step !in st.journal && (body == None || weather.saves.Some?)
    ensures var (next, result) := Journaled(s, st, step, route, body, weather);
            && result == Failure(if body == None then NotBuilt else NotSaved)
            && next.disk == st.disk && next.journal == st.disk && next.former == st.former
            && next.wire == st.wire && next.world == st.world && next.effects == st.effects
  {
  }

  /** Any other request sends its entry, the very one recorded, exactly when the process lives to, and reaches the service
      exactly when the wire carries it. */
  lemma RequestsSendExactly(s: Service, st: State, step: Step, route: string, body: nat, weather: Weather)
    requires st.journal == st.disk && (step in st.journal ==> st.journal[step].answer == None)
    requires step !in st.journal ==> weather.saves == None
    ensures var next := Journaled(s, st, step, route, Some(body), weather).0;
            var entry := EntryOf(st, step, route, body);
            var call := CallOf(s, entry.route, entry.body, weather.facts);
            && next.wire == st.wire + (if weather.sends then [Transmission(step, entry.route, entry.body)] else [])
            && (weather.sends && weather.reaches ==>
                  && next.world == E.Step(s.kernel, s.scope, st.world, call)
                  && next.effects == st.effects + if E.Commits(s.kernel, s.scope, st.world, call) then [step] else [])
            && (!weather.sends || !weather.reaches ==> next.world == st.world && next.effects == st.effects)
  {
  }

  /** It keeps that entry on disk whatever happens; it succeeds exactly when everything goes well, and then its answer is the
      service's and is on disk. */
  lemma RequestsEndExactly(s: Service, st: State, step: Step, route: string, body: nat, weather: Weather)
    requires st.journal == st.disk && (step in st.journal ==> st.journal[step].answer == None)
    requires step !in st.journal ==> weather.saves == None
    ensures var (next, result) := Journaled(s, st, step, route, Some(body), weather);
            var entry := EntryOf(st, step, route, body);
            && (result.Success? <==> RunsToItsEnd(s, st.world, entry.route, entry.body, weather))
            && (result.Success? ==>
                  E.Answer(s.kernel, s.scope, st.world, CallOf(s, entry.route, entry.body, weather.facts)) == Success(result.value))
            && next.journal == next.disk
            && next.disk == st.disk[step := entry.(answer := if result.Success? then Some(result.value) else None)]
  {
  }

  /** What a failure says of itself: an answer thrown away, an answer that could not be kept, and anything else unknown. */
  lemma FailuresAreTold(s: Service, st: State, step: Step, route: string, body: nat, weather: Weather)
    requires st.journal == st.disk && (step in st.journal ==> st.journal[step].answer == None)
    requires step !in st.journal ==> weather.saves == None
    requires Journaled(s, st, step, route, Some(body), weather).1.Failure?
    ensures var entry := EntryOf(st, step, route, body);
            var error := Journaled(s, st, step, route, Some(body), weather).1.error;
            var answered := RunsToItsEnd(s, st.world, entry.route, entry.body, weather.(loses := false, savesAnswer := None));
            error == (if !answered then Unknown else if weather.loses then Discarded else NotSaved)
  {
  }
}
