/** The experimental search store (tools/vector-store-evaluation/store.py): passages, words and vectors derived
    from a source table inside transactions. */
module SearchStore {
  import opened Wrappers
  import opened Utf8

  type Id = nat
  type Text = seq<Scalar>

  /** What the caller publishes. */
  datatype Document = Document(name: string, account: string, retained: bool, removed: bool, expires: int,
                               alias: string, sender: string, kind: string, received: int, title: Text, text: Text)

  datatype Source = Source(name: string, profile: string, account: string, retained: bool, removed: bool, expires: int,
                           alias: string, sender: string, kind: string, received: int, generation: nat)

  /** A digest is represented by the bytes it was taken of. */
  datatype Passage = Passage(title: Text, body: Text, checksum: seq<Byte>, start: nat, end: nat)

  datatype Words = Words(title: Text, body: Text)

  /** The facts an engine with metadata columns keeps beside the vector. */
  datatype Metadata = Metadata(profile: string, account: string, retained: bool, removed: bool, expires: int,
                               alias: string, sender: string, kind: string, received: int)

  datatype Vector = Vector(values: seq<Byte>, metadata: Option<Metadata>)

  datatype Tables = Tables(sources: map<Id, Source>, passages: map<Id, Passage>, words: map<Id, Words>,
                           vectors: map<Id, Vector>, cleanup: map<Id, nat>)

  datatype Error = Closed | Stale | UnknownGeneration | NoCleanup | Injected | UnknownFilter | Unavailable | InvalidProvenance | Incompatible | StillOpen

  // ---- statements ----

  /** INSERT OR REPLACE on a table whose name column is unique: rows with that id or that name go first. */
  function ReplaceSource(sources: map<Id, Source>, id: Id, row: Source): map<Id, Source> {
    (map other | other in sources && sources[other].name != row.name :: sources[other])[id := row]
  }

  function SourceOf(profile: string, doc: Document, generation: nat): Source {
    Source(doc.name, profile, doc.account, doc.retained, doc.removed, doc.expires, doc.alias, doc.sender, doc.kind,
           doc.received, generation)
  }

  function MetadataOf(s: Source): Metadata {
    Metadata(s.profile, s.account, s.retained, s.removed, s.expires, s.alias, s.sender, s.kind, s.received)
  }

  function PassageOf(doc: Document): Passage {
    Passage(doc.title, doc.text, Encode(doc.text), 0, |Encode(doc.text)|)
  }

  // ---- the transactions ----

  datatype Step =
    | Publish(id: Id, doc: Document, values: seq<Byte>, expected: nat, fail: bool)
    | Remove(id: Id)
    | Clean(id: Id, fail: bool)

  /** What publication refuses: a generation other than the expected one, a removed source, an unknown one. */
  function PublishRefusal(t: Tables, id: Id, expected: nat): Option<Error> {
    if id in t.sources && (t.sources[id].generation != expected || t.sources[id].removed) then Some(Stale)
    else if id !in t.sources && expected != 0 then Some(UnknownGeneration)
    else None
  }

  /** The tables a transaction commits; a failed one leaves them as they were. */
  function Committed(profile: string, metadata: bool, t: Tables, step: Step): Result<Tables, Error> {
    match step
    case Publish(id, doc, values, expected, fail) =>
      var refusal := PublishRefusal(t, id, expected);
      if refusal.Some? then Failure(refusal.value)
      else if fail then Failure(Injected)
      else
        var source := SourceOf(profile, doc, expected + 1);
        var facts := if metadata then Some(MetadataOf(source)) else None;
        Success(t.(sources := ReplaceSource(t.sources, id, source),
                   passages := t.passages[id := PassageOf(doc)],
                   words := t.words[id := Words(doc.title, doc.text)],
                   vectors := t.vectors[id := Vector(values, facts)]))
    case Remove(id) =>
      var sources := if id in t.sources && !t.sources[id].removed
                     then t.sources[id := t.sources[id].(removed := true, generation := t.sources[id].generation + 1)]
                     else t.sources;
      Success(t.(sources := sources,
                 cleanup := if id in sources then t.cleanup[id := sources[id].generation] else t.cleanup))
    case Clean(id, fail) =>
      if id !in t.cleanup then Failure(NoCleanup)
      else if fail then Failure(Injected)
      else Success(t.(words := t.words - {id}, vectors := t.vectors - {id}, passages := t.passages - {id},
                      cleanup := t.cleanup - {id}))
  }

  function After(profile: string, metadata: bool, t: Tables, step: Step): Tables {
    match Committed(profile, metadata, t, step)
    case Success(next) => next
    case Failure(_) => t
  }

  function Run(profile: string, metadata: bool, t: Tables, steps: seq<Step>): Tables
    decreases |steps|
  {
    if steps == [] then t else Run(profile, metadata, After(profile, metadata, t, steps[0]), steps[1..])
  }

  lemma DeleteInsert<V>(m: map<Id, V>, id: Id, value: V)
    ensures (m - {id})[id := value] == m[id := value]
  {
  }

  const EMPTY := Tables(map[], map[], map[], map[], map[])

  /** The store as an object: its tables, and the epoch and handle of the current unlocked lifetime. Every
      statement of a transaction changes the tables at once; a failure puts back what BEGIN saw. */
  class Store {
    const profile: string
    const metadata: bool
    var tables: Tables
    var epoch: nat
    var open: bool

    constructor (profile: string, metadata: bool)
      ensures this.profile == profile && this.metadata == metadata && tables == EMPTY && epoch == 1 && open
    {
      this.profile, this.metadata, tables, epoch, open := profile, metadata, EMPTY, 1, true;
    }

    method PublishSource(id: Id, doc: Document, values: seq<Byte>, expected: nat, fail: bool)
      returns (r: Result<(), Error>)
      modifies this`tables
      ensures !old(open) ==> r == Failure(Closed) && tables == old(tables)
      ensures old(open) ==>
                tables == After(profile, metadata, old(tables), Publish(id, doc, values, expected, fail))
                && match Committed(profile, metadata, old(tables), Publish(id, doc, values, expected, fail))
                   case Success(_) => r.Success?
                   case Failure(e) => r == Failure(e)
    {
      if !open { return Failure(Closed); }
      var begun := tables;
      if id in tables.sources && (tables.sources[id].generation != expected || tables.sources[id].removed) {
        tables := begun;
        return Failure(Stale);
      }
      if id !in tables.sources && expected != 0 {
        tables := begun;
        return Failure(UnknownGeneration);
      }
      var source := SourceOf(profile, doc, expected + 1);
      tables := tables.(sources := ReplaceSource(tables.sources, id, source));
      tables := tables.(passages := tables.passages[id := PassageOf(doc)]);
      tables := tables.(words := tables.words - {id});
      tables := tables.(words := tables.words[id := Words(doc.title, doc.text)]);
      if fail {
        tables := begun;
        return Failure(Injected);
      }
      tables := tables.(vectors := tables.vectors - {id});
      tables := tables.(vectors := tables.vectors[id := Vector(values, if metadata then Some(MetadataOf(source)) else None)]);
      DeleteInsert(begun.words, id, Words(doc.title, doc.text));
      DeleteInsert(begun.vectors, id, Vector(values, if metadata then Some(MetadataOf(source)) else None));
      return Success(());
    }

    method RemoveSource(id: Id) returns (r: Result<(), Error>)
      modifies this`tables
      ensures !old(open) ==> r == Failure(Closed) && tables == old(tables)
      ensures old(open) ==> r.Success? && tables == After(profile, metadata, old(tables), Remove(id))
    {
      if !open { return Failure(Closed); }
      if id in tables.sources && !tables.sources[id].removed {
        var row := tables.sources[id];
        tables := tables.(sources := tables.sources[id := row.(removed := true, generation := row.generation + 1)]);
      }
      if id in tables.sources && tables.sources[id].removed {
        tables := tables.(cleanup := tables.cleanup[id := tables.sources[id].generation]);
      }
      return Success(());
    }

    method CleanSource(id: Id, fail: bool) returns (r: Result<(), Error>)
      modifies this`tables
      ensures !old(open) ==> r == Failure(Closed) && tables == old(tables)
      ensures old(open) ==>
                tables == After(profile, metadata, old(tables), Clean(id, fail))
                && match Committed(profile, metadata, old(tables), Clean(id, fail))
                   case Success(_) => r.Success?
                   case Failure(e) => r == Failure(e)
    {
      if !open { return Failure(Closed); }
      var begun := tables;
      if id !in tables.cleanup { return Failure(NoCleanup); }
      tables := tables.(words := tables.words - {id});
      if fail {
        tables := begun;
        return Failure(Injected);
      }
      tables := tables.(vectors := tables.vectors - {id});
      tables := tables.(passages := tables.passages - {id});
      tables := tables.(cleanup := tables.cleanup - {id});
      return Success(());
    }

    ghost function Life(): Lifetime
      reads this
    {
      Lifetime(epoch, open)
    }

    method Lock()
      modifies this`epoch, this`open
      ensures Life() == Turn(old(Life()), Locked)
    {
      epoch := epoch + 1;
      open := false;
    }

    /** Opens the database again; a store that is open already refuses. */
    method Unlock() returns (r: Result<(), Error>)
      modifies this`epoch, this`open
      ensures Life() == Turn(old(Life()), Unlocked) && (r.Success? <==> !old(open))
    {
      if open { return Failure(StillOpen); }
      open := true;
      epoch := epoch + 1;
      return Success(());
    }

    /** Asked before and after every search. */
    method Check(begun: nat, asked: string) returns (r: Result<(), Error>)
      ensures r == Checked(Life(), profile, begun, asked)
    {
      if !open || begun != epoch { return Failure(Closed); }
      if asked != profile { return Failure(Incompatible); }
      return Success(());
    }
  }

  // ---- search lifetimes ----

  /** The unlocked lifetimes are told apart by their epoch. */
  datatype Lifetime = Lifetime(epoch: nat, open: bool)

  datatype Turning = Locked | Unlocked

  function Turn(l: Lifetime, t: Turning): Lifetime {
    match t
    case Locked => Lifetime(l.epoch + 1, false)
    case Unlocked => if l.open then l else Lifetime(l.epoch + 1, true)
  }

  function Turns(l: Lifetime, ts: seq<Turning>): Lifetime
    decreases |ts|
  {
    if ts == [] then l else Turns(Turn(l, ts[0]), ts[1..])
  }

  function Checked(l: Lifetime, profile: string, begun: nat, asked: string): Result<(), Error> {
    if !l.open || begun != l.epoch then Failure(Closed)
    else if asked != profile then Failure(Incompatible)
    else Success(())
  }

  lemma {:induction false} EpochsGrow(l: Lifetime, ts: seq<Turning>)
    ensures Turns(l, ts).epoch >= l.epoch
    ensures !l.open && Turns(l, ts).open ==> Turns(l, ts).epoch > l.epoch
    decreases |ts|
  {
    if ts != [] { EpochsGrow(Turn(l, ts[0]), ts[1..]); }
  }

  /** A search begun in an open store passes its later check exactly when the store was never locked in between,
      however often it was unlocked again, and it asks for the store's own profile; one begun in a closed store
      never passes. */
  lemma {:induction false} SearchSurvivesExactly(l: Lifetime, ts: seq<Turning>, profile: string, asked: string)
    ensures Checked(Turns(l, ts), profile, l.epoch, asked).Success? <==> l.open && Locked !in ts && asked == profile
    decreases |ts|
  {
    if ts != [] {
      var next := Turn(l, ts[0]);
      EpochsGrow(next, ts[1..]);
      if next == l { SearchSurvivesExactly(l, ts[1..], profile, asked); }
      assert ts == [ts[0]] + ts[1..];
    }
  }

  // ---- the tables agree ----

  /** One indexed source: its passage carries the checksum and range of its body, the words index holds the same
      text, and the facts kept beside the vector are the source's, but for a removal since. */
  predicate Matches(p: Passage, w: Words, v: Vector, s: Source) {
    && p.checksum == Encode(p.body) && p.start == 0 && p.end == |Encode(p.body)|
    && w == Words(p.title, p.body)
    && (v.metadata.Some? ==> v.metadata.value.(removed := s.removed) == MetadataOf(s))
  }

  ghost predicate SameIds(t: Tables) {
    t.passages.Keys == t.words.Keys == t.vectors.Keys
  }

  ghost predicate RowAgrees(t: Tables, id: Id) {
    && id in t.passages && id in t.words && id in t.vectors && id in t.sources
    && Matches(t.passages[id], t.words[id], t.vectors[id], t.sources[id])
  }

  ghost predicate RowsAgree(t: Tables) {
    forall id :: id in t.passages ==> RowAgrees(t, id)
  }

  ghost predicate LiveIndexed(t: Tables) {
    forall id :: id in t.sources && !t.sources[id].removed ==> id in t.passages
  }

  ghost predicate CleanupOwed(t: Tables) {
    forall id :: id in t.cleanup ==> id in t.sources && t.sources[id].removed
  }

  ghost predicate UniqueNames(sources: map<Id, Source>) {
    forall a, b :: a in sources && b in sources && sources[a].name == sources[b].name ==> a == b
  }

  /** The three derived tables hold the same ids, each with a source row, a checksum of its body and the facts of
      its source; whatever is not removed is indexed; and cleanup is owed only by removed sources. */
  ghost predicate InSync(t: Tables) {
    SameIds(t) && RowsAgree(t) && LiveIndexed(t) && CleanupOwed(t) && UniqueNames(t.sources)
  }

  /** Another row holds the name, and something else still refers to that row. */
  ghost predicate Displaces(t: Tables, id: Id, name: string) {
    exists other :: other != id && other in t.sources && t.sources[other].name == name
                    && (other in t.passages || other in t.cleanup)
  }

  lemma ReplaceKeepsNamesUnique(sources: map<Id, Source>, id: Id, row: Source)
    requires UniqueNames(sources)
    ensures UniqueNames(ReplaceSource(sources, id, row))
  {
  }

  lemma PublishedRowsAgree(profile: string, metadata: bool, t: Tables, step: Step)
    requires SameIds(t) && RowsAgree(t) && step.Publish? && Committed(profile, metadata, t, step).Success?
    requires !Displaces(t, step.id, step.doc.name)
    ensures RowsAgree(After(profile, metadata, t, step))
  {
    var next := After(profile, metadata, t, step);
    forall other | other in next.passages ensures RowAgrees(next, other) {
      if other != step.id {
        assert RowAgrees(t, other);
      }
    }
  }

  lemma PublishedIds(profile: string, metadata: bool, t: Tables, step: Step)
    requires SameIds(t) && step.Publish? && Committed(profile, metadata, t, step).Success?
    ensures SameIds(After(profile, metadata, t, step))
  {
  }

  lemma PublishedCleanup(profile: string, metadata: bool, t: Tables, step: Step)
    requires CleanupOwed(t) && LiveIndexed(t) && step.Publish? && Committed(profile, metadata, t, step).Success?
    requires !Displaces(t, step.id, step.doc.name)
    ensures CleanupOwed(After(profile, metadata, t, step)) && LiveIndexed(After(profile, metadata, t, step))
  {
    var next := After(profile, metadata, t, step);
    forall id | id in next.cleanup ensures id in next.sources && next.sources[id].removed {
      assert id in t.cleanup && id in t.sources && t.sources[id].removed;
    }
  }

  lemma DisplacedIsLost(profile: string, metadata: bool, t: Tables, step: Step, other: Id)
    requires step.Publish? && Committed(profile, metadata, t, step).Success?
    requires other != step.id && other in t.sources && t.sources[other].name == step.doc.name
    requires other in t.passages || other in t.cleanup
    ensures var next := After(profile, metadata, t, step);
            other !in next.sources && (other in next.passages || other in next.cleanup) && !InSync(next)
  {
    var next := After(profile, metadata, t, step);
    assert !RowAgrees(next, other);
  }

  /** Publishing keeps the tables in step if and only if its name displaces no row still referred to. */
  lemma PublishKeepsSyncExactly(profile: string, metadata: bool, t: Tables, step: Step)
    requires InSync(t) && step.Publish? && Committed(profile, metadata, t, step).Success?
    ensures InSync(After(profile, metadata, t, step)) <==> !Displaces(t, step.id, step.doc.name)
  {
    if other :| other != step.id && other in t.sources && t.sources[other].name == step.doc.name
                && (other in t.passages || other in t.cleanup)
    {
      DisplacedIsLost(profile, metadata, t, step, other);
    } else {
      PublishedIds(profile, metadata, t, step);
      PublishedRowsAgree(profile, metadata, t, step);
      PublishedCleanup(profile, metadata, t, step);
      ReplaceKeepsNamesUnique(t.sources, step.id, SourceOf(profile, step.doc, step.expected + 1));
    }
  }

  lemma RemoveKeepsRows(profile: string, metadata: bool, t: Tables, step: Step)
    requires RowsAgree(t) && step.Remove?
    ensures RowsAgree(After(profile, metadata, t, step))
  {
    var next := After(profile, metadata, t, step);
    forall id | id in next.passages ensures RowAgrees(next, id) {
      assert RowAgrees(t, id);
    }
  }

  lemma RemoveKeepsRest(profile: string, metadata: bool, t: Tables, step: Step)
    requires LiveIndexed(t) && CleanupOwed(t) && UniqueNames(t.sources) && step.Remove?
    ensures var next := After(profile, metadata, t, step);
            LiveIndexed(next) && CleanupOwed(next) && UniqueNames(next.sources)
  {
  }

  lemma RemoveKeepsSync(profile: string, metadata: bool, t: Tables, step: Step)
    requires InSync(t) && step.Remove?
    ensures InSync(After(profile, metadata, t, step))
  {
    RemoveKeepsRows(profile, metadata, t, step);
    RemoveKeepsRest(profile, metadata, t, step);
  }

  lemma CleanKeepsRows(profile: string, metadata: bool, t: Tables, step: Step)
    requires RowsAgree(t) && step.Clean?
    ensures RowsAgree(After(profile, metadata, t, step))
  {
    var next := After(profile, metadata, t, step);
    forall id | id in next.passages ensures RowAgrees(next, id) {
      assert RowAgrees(t, id);
    }
  }

  lemma CleanKeepsSync(profile: string, metadata: bool, t: Tables, step: Step)
    requires InSync(t) && step.Clean?
    ensures InSync(After(profile, metadata, t, step))
  {
    CleanKeepsRows(profile, metadata, t, step);
  }

  // ---- whole runs ----

  /** This publication commits, and takes its name from a row something still refers to. */
  ghost predicate Displacing(profile: string, metadata: bool, t: Tables, step: Step) {
    step.Publish? && Committed(profile, metadata, t, step).Success? && Displaces(t, step.id, step.doc.name)
  }

  lemma StepKeepsSyncExactly(profile: string, metadata: bool, t: Tables, step: Step)
    requires InSync(t)
    ensures InSync(After(profile, metadata, t, step)) <==> !Displacing(profile, metadata, t, step)
  {
    if step.Publish? {
      if Committed(profile, metadata, t, step).Success? { PublishKeepsSyncExactly(profile, metadata, t, step); }
    } else if step.Remove? {
      RemoveKeepsSync(profile, metadata, t, step);
    } else {
      CleanKeepsSync(profile, metadata, t, step);
    }
  }

  /** The tables after the first i steps. */
  function Moment(profile: string, metadata: bool, t: Tables, steps: seq<Step>, i: nat): Tables
    requires i <= |steps|
  {
    Run(profile, metadata, t, steps[..i])
  }

  lemma MomentShifts(profile: string, metadata: bool, t: Tables, steps: seq<Step>, i: nat)
    requires 0 < i <= |steps|
    ensures Moment(profile, metadata, t, steps, i) ==
            Moment(profile, metadata, After(profile, metadata, t, steps[0]), steps[1..], i - 1)
  {
    assert steps[..i][1..] == steps[1..][..i - 1];
  }

  ghost predicate Undisplaced(profile: string, metadata: bool, t: Tables, steps: seq<Step>)
    decreases |steps|
  {
    steps == [] || (&& !Displacing(profile, metadata, t, steps[0])
                    && Undisplaced(profile, metadata, After(profile, metadata, t, steps[0]), steps[1..]))
  }

  ghost predicate AlwaysInSync(profile: string, metadata: bool, t: Tables, steps: seq<Step>) {
    forall i :: 0 <= i <= |steps| ==> InSync(Moment(profile, metadata, t, steps, i))
  }

  lemma AlwaysInSyncUnfolds(profile: string, metadata: bool, t: Tables, steps: seq<Step>)
    requires steps != []
    ensures AlwaysInSync(profile, metadata, t, steps) <==>
            InSync(t) && AlwaysInSync(profile, metadata, After(profile, metadata, t, steps[0]), steps[1..])
  {
    var next, rest := After(profile, metadata, t, steps[0]), steps[1..];
    assert Moment(profile, metadata, t, steps, 0) == t;
    forall i | 0 < i <= |steps|
      ensures Moment(profile, metadata, t, steps, i) == Moment(profile, metadata, next, rest, i - 1)
    {
      MomentShifts(profile, metadata, t, steps, i);
    }
    if AlwaysInSync(profile, metadata, t, steps) {
      forall i | 0 <= i <= |rest| ensures InSync(Moment(profile, metadata, next, rest, i)) {
        assert InSync(Moment(profile, metadata, t, steps, i + 1));
      }
    }
  }

  /** Over any run of publications, removals and cleanups, failed ones among them, the tables agree at every
      moment if and only if no publication takes a name from a row still referred to. */
  lemma {:induction false} RunStaysInSyncExactly(profile: string, metadata: bool, t: Tables, steps: seq<Step>)
    requires InSync(t)
    ensures AlwaysInSync(profile, metadata, t, steps) <==> Undisplaced(profile, metadata, t, steps)
    decreases |steps|
  {
    if steps == [] {
      assert steps[..0] == [];
    } else {
      var next := After(profile, metadata, t, steps[0]);
      StepKeepsSyncExactly(profile, metadata, t, steps[0]);
      AlwaysInSyncUnfolds(profile, metadata, t, steps);
      if InSync(next) {
        RunStaysInSyncExactly(profile, metadata, next, steps[1..]);
      } else {
        assert steps[1..][..0] == [] && Moment(profile, metadata, next, steps[1..], 0) == next;
      }
    }
  }

  /** Two publications are enough to break it: the second takes the first one's name, and the first's passage,
      words and vector stay behind without a source. */
  lemma SharedNameBreaksSync(profile: string, doc: Document, values: seq<Byte>)
    ensures var steps := [Publish(1, doc, values, 0, false), Publish(2, doc, values, 0, false)];
            var t := Run(profile, false, EMPTY, steps);
            1 in t.passages && 1 in t.words && 1 in t.vectors && 1 !in t.sources && !InSync(t)
  {
    var first, second := Publish(1, doc, values, 0, false), Publish(2, doc, values, 0, false);
    var t := After(profile, false, After(profile, false, EMPTY, first), second);
    RunOfOne(profile, false, EMPTY, first, [second]);
    RunOfOne(profile, false, After(profile, false, EMPTY, first), second, []);
    assert 1 in t.passages && 1 !in t.sources;
  }

  lemma RunOfOne(profile: string, metadata: bool, t: Tables, step: Step, rest: seq<Step>)
    ensures Run(profile, metadata, t, [step] + rest) == Run(profile, metadata, After(profile, metadata, t, step), rest)
  {
    assert ([step] + rest)[1..] == rest;
  }

  // ---- removal is permanent, unless a name is taken ----

  predicate Later(t: Tables, next: Tables, id: Id) {
    id in t.sources ==>
      && id in next.sources && next.sources[id].generation >= t.sources[id].generation
      && (t.sources[id].removed ==> next.sources[id].removed)
      && (t.sources[id].removed && id !in t.passages ==> id !in next.passages)
  }

  /** No source row is lost, no generation falls, no removed source is live again, and none that was cleaned up
      is indexed again. */
  ghost predicate Forward(t: Tables, next: Tables) {
    forall id :: Later(t, next, id)
  }

  ghost predicate NameHeld(t: Tables, id: Id, name: string) {
    exists other :: other != id && other in t.sources && t.sources[other].name == name
  }

  /** This publication commits, and takes its name from any other row, even a cleaned-up one. */
  ghost predicate TakesName(profile: string, metadata: bool, t: Tables, step: Step) {
    step.Publish? && Committed(profile, metadata, t, step).Success? && NameHeld(t, step.id, step.doc.name)
  }

  /** A transaction only moves forward if and only if it does not take a name another row holds. */
  lemma StepMovesForwardExactly(profile: string, metadata: bool, t: Tables, step: Step)
    ensures Forward(t, After(profile, metadata, t, step)) <==> !TakesName(profile, metadata, t, step)
  {
    var next := After(profile, metadata, t, step);
    if TakesName(profile, metadata, t, step) {
      var other :| other != step.id && other in t.sources && t.sources[other].name == step.doc.name;
      assert !Later(t, next, other);
    } else {
      forall id ensures Later(t, next, id) {}
    }
  }

  ghost predicate Undisturbed(profile: string, metadata: bool, t: Tables, steps: seq<Step>)
    decreases |steps|
  {
    steps == [] || (&& !TakesName(profile, metadata, t, steps[0])
                    && Undisturbed(profile, metadata, After(profile, metadata, t, steps[0]), steps[1..]))
  }

  /** Over any run in which no publication takes another row's name, everything moves forward only. */
  lemma {:induction false} RunMovesForward(profile: string, metadata: bool, t: Tables, steps: seq<Step>)
    requires Undisturbed(profile, metadata, t, steps)
    ensures Forward(t, Run(profile, metadata, t, steps))
    decreases |steps|
  {
    if steps != [] {
      var next := After(profile, metadata, t, steps[0]);
      StepMovesForwardExactly(profile, metadata, t, steps[0]);
      RunMovesForward(profile, metadata, next, steps[1..]);
      ForwardTwice(t, next, Run(profile, metadata, t, steps));
    }
  }

  lemma ForwardTwice(a: Tables, b: Tables, c: Tables)
    requires Forward(a, b) && Forward(b, c)
    ensures Forward(a, c)
  {
    forall id ensures Later(a, c, id) {
      assert Later(a, b, id) && Later(b, c, id);
    }
  }

  ghost predicate AlwaysForward(profile: string, metadata: bool, t: Tables, steps: seq<Step>) {
    forall i, j :: 0 <= i <= j <= |steps| ==>
      Forward(Moment(profile, metadata, t, steps, i), Moment(profile, metadata, t, steps, j))
  }

  lemma {:induction false} UndisturbedMoments(profile: string, metadata: bool, t: Tables, steps: seq<Step>, i: nat, j: nat)
    requires Undisturbed(profile, metadata, t, steps) && i <= j <= |steps|
    ensures Forward(Moment(profile, metadata, t, steps, i), Moment(profile, metadata, t, steps, j))
    decreases |steps|
  {
    if j == 0 {
      assert steps[..0] == [];
    } else {
      var next := After(profile, metadata, t, steps[0]);
      MomentShifts(profile, metadata, t, steps, j);
      if i > 0 {
        MomentShifts(profile, metadata, t, steps, i);
        UndisturbedMoments(profile, metadata, next, steps[1..], i - 1, j - 1);
      } else {
        UndisturbedMoments(profile, metadata, next, steps[1..], 0, j - 1);
        StepMovesForwardExactly(profile, metadata, t, steps[0]);
        assert Moment(profile, metadata, t, steps, 0) == t && Moment(profile, metadata, next, steps[1..], 0) == next;
        ForwardTwice(t, next, Moment(profile, metadata, t, steps, j));
      }
    }
  }

  lemma {:induction false} ForwardIsUndisturbed(profile: string, metadata: bool, t: Tables, steps: seq<Step>)
    requires AlwaysForward(profile, metadata, t, steps)
    ensures Undisturbed(profile, metadata, t, steps)
    decreases |steps|
  {
    if steps != [] {
      var next := After(profile, metadata, t, steps[0]);
      MomentShifts(profile, metadata, t, steps, 1);
      assert Moment(profile, metadata, t, steps, 0) == t && Moment(profile, metadata, next, steps[1..], 0) == next;
      StepMovesForwardExactly(profile, metadata, t, steps[0]);
      forall i, j | 0 <= i <= j <= |steps| - 1
        ensures Forward(Moment(profile, metadata, next, steps[1..], i), Moment(profile, metadata, next, steps[1..], j))
      {
        MomentShifts(profile, metadata, t, steps, i + 1);
        MomentShifts(profile, metadata, t, steps, j + 1);
      }
      ForwardIsUndisturbed(profile, metadata, next, steps[1..]);
    }
  }

  /** Between any two moments of a run everything has moved forward only, if and only if no publication of the run
      took a name another row held then. */
  lemma RunMovesForwardExactly(profile: string, metadata: bool, t: Tables, steps: seq<Step>)
    ensures AlwaysForward(profile, metadata, t, steps) <==> Undisturbed(profile, metadata, t, steps)
  {
    if AlwaysForward(profile, metadata, t, steps) {
      ForwardIsUndisturbed(profile, metadata, t, steps);
    } else {
      var i, j :| 0 <= i <= j <= |steps|
                  && !Forward(Moment(profile, metadata, t, steps, i), Moment(profile, metadata, t, steps, j));
      if Undisturbed(profile, metadata, t, steps) { UndisturbedMoments(profile, metadata, t, steps, i, j); }
    }
  }

  lemma {:induction false} UndisplacedConcat(profile: string, metadata: bool, t: Tables, a: seq<Step>, b: seq<Step>)
    ensures Run(profile, metadata, t, a + b) == Run(profile, metadata, Run(profile, metadata, t, a), b)
    ensures Undisplaced(profile, metadata, t, a + b) <==>
            Undisplaced(profile, metadata, t, a) && Undisplaced(profile, metadata, Run(profile, metadata, t, a), b)
    decreases |a|
  {
    if a == [] {
      assert a + b == b;
    } else {
      assert (a + b)[1..] == a[1..] + b;
      UndisplacedConcat(profile, metadata, After(profile, metadata, t, a[0]), a[1..], b);
    }
  }

  lemma OneStep(profile: string, metadata: bool, t: Tables, step: Step)
    ensures Run(profile, metadata, t, [step]) == After(profile, metadata, t, step)
    ensures Undisplaced(profile, metadata, t, [step]) <==> !Displacing(profile, metadata, t, step)
  {
    assert [step][1..] == [];
    assert Run(profile, metadata, After(profile, metadata, t, step), []) == After(profile, metadata, t, step);
    assert Undisplaced(profile, metadata, After(profile, metadata, t, step), []);
  }

  /** What is left of a source published once, removed and cleaned up. */
  function Tombstone(profile: string, doc: Document): Tables {
    Tables(map[1 := SourceOf(profile, doc, 1).(removed := true, generation := 2)], map[], map[], map[], map[])
  }

  /** The tables with one live source. */
  function Alone(profile: string, id: Id, doc: Document, values: seq<Byte>): Tables {
    Tables(map[id := SourceOf(profile, doc, 1)], map[id := PassageOf(doc)], map[id := Words(doc.title, doc.text)],
           map[id := Vector(values, None)], map[])
  }

  lemma LeavesTombstone(profile: string, doc: Document, values: seq<Byte>)
    requires !doc.removed
    ensures var steps := [Publish(1, doc, values, 0, false)] + ([Remove(1)] + [Clean(1, false)]);
            Run(profile, false, EMPTY, steps) == Tombstone(profile, doc) && Undisplaced(profile, false, EMPTY, steps)
  {
    var published, removed, cleaned := Publish(1, doc, values, 0, false), Remove(1), Clean(1, false);
    var t1 := Alone(profile, 1, doc, values);
    assert After(profile, false, EMPTY, published) == t1;
    var t2 := After(profile, false, t1, removed);
    assert t2 == t1.(sources := Tombstone(profile, doc).sources, cleanup := map[1 := 2]);
    assert After(profile, false, t2, cleaned) == Tombstone(profile, doc);
    OneStep(profile, false, EMPTY, published);
    OneStep(profile, false, t1, removed);
    OneStep(profile, false, t2, cleaned);
    UndisplacedConcat(profile, false, EMPTY, [published], [removed] + [cleaned]);
    UndisplacedConcat(profile, false, t1, [removed], [cleaned]);
  }

  lemma TombstoneIsForgotten(profile: string, doc: Document, other: Document, values: seq<Byte>)
    requires other.name != doc.name
    ensures var steps := [Publish(2, doc, values, 0, false)] + [Publish(1, other, values, 0, false)];
            var after := Run(profile, false, Tombstone(profile, doc), steps);
            && Undisplaced(profile, false, Tombstone(profile, doc), steps)
            && 1 in after.sources && after.sources[1] == SourceOf(profile, other, 1) && 1 in after.passages
  {
    var taking, again := Publish(2, doc, values, 0, false), Publish(1, other, values, 0, false);
    var t := Alone(profile, 2, doc, values);
    assert After(profile, false, Tombstone(profile, doc), taking) == t;
    OneStep(profile, false, Tombstone(profile, doc), taking);
    OneStep(profile, false, t, again);
    UndisplacedConcat(profile, false, Tombstone(profile, doc), [taking], [again]);
  }

  /** It can fail with every table in step throughout: a source is published, removed and cleaned up, another id
      takes its name, and the removed id is published anew, live and at a lower generation. */
  lemma RemovedComesBack(profile: string, doc: Document, other: Document, values: seq<Byte>)
    requires !doc.removed && !other.removed && other.name != doc.name
    ensures var removal := [Publish(1, doc, values, 0, false)] + ([Remove(1)] + [Clean(1, false)]);
            var comeback := [Publish(2, doc, values, 0, false)] + [Publish(1, other, values, 0, false)];
            var before, after := Run(profile, false, EMPTY, removal), Run(profile, false, EMPTY, removal + comeback);
            && AlwaysInSync(profile, false, EMPTY, removal + comeback)
            && 1 in before.sources && before.sources[1].removed && 1 !in before.passages
            && 1 in after.sources && !after.sources[1].removed && 1 in after.passages
            && after.sources[1].generation < before.sources[1].generation
  {
    var removal := [Publish(1, doc, values, 0, false)] + ([Remove(1)] + [Clean(1, false)]);
    var comeback := [Publish(2, doc, values, 0, false)] + [Publish(1, other, values, 0, false)];
    LeavesTombstone(profile, doc, values);
    TombstoneIsForgotten(profile, doc, other, values);
    UndisplacedConcat(profile, false, EMPTY, removal, comeback);
    RunStaysInSyncExactly(profile, false, EMPTY, removal + comeback);
  }

  // ---- names that belong to one id ----

  /** Each name belongs to one id. */
  predicate OwnName(owner: string -> Id, step: Step) {
    step.Publish? ==> owner(step.doc.name) == step.id
  }

  ghost predicate NamesOwned(owner: string -> Id, t: Tables) {
    forall id :: id in t.sources ==> owner(t.sources[id].name) == id
  }

  lemma OwnNameTakesNone(profile: string, metadata: bool, owner: string -> Id, t: Tables, step: Step)
    requires NamesOwned(owner, t) && OwnName(owner, step)
    ensures !TakesName(profile, metadata, t, step) && NamesOwned(owner, After(profile, metadata, t, step))
  {
  }

  /** A caller who gives each id names of its own is safe: no name is ever taken. */
  lemma {:induction false} OwnNamesAreUndisturbed(
    profile: string, metadata: bool, owner: string -> Id, t: Tables, steps: seq<Step>)
    requires NamesOwned(owner, t) && forall i :: 0 <= i < |steps| ==> OwnName(owner, steps[i])
    ensures Undisturbed(profile, metadata, t, steps) && Undisplaced(profile, metadata, t, steps)
    decreases |steps|
  {
    if steps != [] {
      OwnNameTakesNone(profile, metadata, owner, t, steps[0]);
      OwnNamesAreUndisturbed(profile, metadata, owner, After(profile, metadata, t, steps[0]), steps[1..]);
    }
  }

  /** Two publications of one id never both commit expecting the same generation, as long as its row is not
      lost between them to another id's publication. */
  lemma OnePublicationPerGeneration(profile: string, metadata: bool, t: Tables, first: Step,
                                    between: seq<Step>, second: Step)
    requires first.Publish? && second.Publish? && first.id == second.id && first.expected == second.expected
    requires Committed(profile, metadata, t, first).Success?
    requires Undisturbed(profile, metadata, After(profile, metadata, t, first), between)
    ensures Committed(profile, metadata, Run(profile, metadata, After(profile, metadata, t, first), between), second).Failure?
  {
    var next := After(profile, metadata, t, first);
    RunMovesForward(profile, metadata, next, between);
    assert Later(next, Run(profile, metadata, next, between), first.id);
  }

  // ---- what a search sees ----

  datatype Filter = Alias(value: string) | Sender(value: string) | Kind(value: string) | Before(time: int)
                  | AfterTime(time: int) | Other(name: string)

  predicate Passes(s: Source, f: Filter) {
    match f
    case Alias(v) => s.alias == v
    case Sender(v) => s.sender == v
    case Kind(v) => s.kind == v
    case Before(time) => s.received < time
    case AfterTime(time) => s.received > time
    case Other(_) => true
  }

  /** The WHERE clause over source rows; an unknown filter is an error. */
  predicate Eligible(profile: string, filters: seq<Filter>, now: int, s: Source) {
    && s.profile == profile && s.account == "reference" && s.retained && !s.removed && s.expires > now
    && forall i :: 0 <= i < |filters| ==> Passes(s, filters[i])
  }

  /** The same clause over the facts kept beside a vector. */
  predicate EligibleFacts(profile: string, filters: seq<Filter>, now: int, m: Metadata) {
    Eligible(profile, filters, now,
             Source("", m.profile, m.account, m.retained, m.removed, m.expires, m.alias, m.sender, m.kind, m.received, 0))
  }

  function Found(profile: string, t: Tables, filters: seq<Filter>, now: int): set<Id> {
    set id | id in t.vectors && id in t.sources && Eligible(profile, filters, now, t.sources[id])
  }

  function FoundWithFacts(profile: string, t: Tables, filters: seq<Filter>, now: int): set<Id> {
    set id | id in t.vectors && id in t.sources && Eligible(profile, filters, now, t.sources[id])
             && t.vectors[id].metadata.Some? && EligibleFacts(profile, filters, now, t.vectors[id].metadata.value)
  }

  /** The rows a search may return; `facts` when the engine filters its own columns too. */
  function Candidates(profile: string, facts: bool, t: Tables, filters: seq<Filter>, now: int): Result<set<Id>, Error> {
    if exists i :: 0 <= i < |filters| && filters[i].Other? then Failure(UnknownFilter)
    else Success(if facts then FoundWithFacts(profile, t, filters, now) else Found(profile, t, filters, now))
  }

  /** The facts kept beside the vectors are those of their sources, but for a removal since. */
  ghost predicate WithFacts(t: Tables) {
    forall id :: id in t.vectors ==> FactsOf(t, id)
  }

  predicate FactsOf(t: Tables, id: Id)
    requires id in t.vectors
  {
    && t.vectors[id].metadata.Some?
    && (id in t.sources ==>
          var m, s := t.vectors[id].metadata.value, t.sources[id];
          m.(removed := s.removed) == MetadataOf(s) && (m.removed ==> s.removed))
  }

  lemma SameFacts(profile: string, filters: seq<Filter>, now: int, s: Source, m: Metadata)
    requires m == MetadataOf(s)
    ensures EligibleFacts(profile, filters, now, m) <==> Eligible(profile, filters, now, s)
  {
    var plain := Source("", m.profile, m.account, m.retained, m.removed, m.expires, m.alias, m.sender, m.kind, m.received, 0);
    assert forall i :: 0 <= i < |filters| ==> Passes(plain, filters[i]) == Passes(s, filters[i]);
  }

  /** Filtering by the engine's own columns as well loses nothing: both queries have the same candidates. */
  lemma FactsFilterNothing(profile: string, t: Tables, filters: seq<Filter>, now: int)
    requires WithFacts(t)
    ensures Candidates(profile, true, t, filters, now) == Candidates(profile, false, t, filters, now)
  {
    forall id | id in t.vectors && id in t.sources && Eligible(profile, filters, now, t.sources[id])
      ensures t.vectors[id].metadata.Some? && EligibleFacts(profile, filters, now, t.vectors[id].metadata.value)
    {
      assert FactsOf(t, id);
      SameFacts(profile, filters, now, t.sources[id], t.vectors[id].metadata.value);
    }
    assert FoundWithFacts(profile, t, filters, now) == Found(profile, t, filters, now);
  }

  lemma StepKeepsFacts(profile: string, t: Tables, step: Step)
    requires WithFacts(t)
    ensures WithFacts(After(profile, true, t, step))
  {
    var next := After(profile, true, t, step);
    forall id | id in next.vectors ensures FactsOf(next, id) {
      if id in t.vectors { assert FactsOf(t, id); }
    }
  }

  lemma {:induction false} RunKeepsFacts(profile: string, t: Tables, steps: seq<Step>)
    requires WithFacts(t)
    ensures WithFacts(Run(profile, true, t, steps))
    decreases |steps|
  {
    if steps != [] {
      StepKeepsFacts(profile, t, steps[0]);
      RunKeepsFacts(profile, After(profile, true, t, steps[0]), steps[1..]);
    }
  }

  /** In a store with metadata columns the two forms of the search agree after any run, whatever the names. */
  lemma SearchesAgree(profile: string, steps: seq<Step>, filters: seq<Filter>, now: int)
    ensures var t := Run(profile, true, EMPTY, steps);
            Candidates(profile, true, t, filters, now) == Candidates(profile, false, t, filters, now)
  {
    RunKeepsFacts(profile, EMPTY, steps);
    FactsFilterNothing(profile, Run(profile, true, EMPTY, steps), filters, now);
  }

  /** A removed source is no candidate of any search, whatever its filters and whatever happens afterwards, as
      long as no publication takes another row's name. */
  lemma RemovedIsNeverFound(profile: string, metadata: bool, t: Tables, steps: seq<Step>, id: Id,
                            filters: seq<Filter>, now: int)
    requires Undisturbed(profile, metadata, t, steps) && id in t.sources && t.sources[id].removed
    ensures var found := Candidates(profile, metadata, Run(profile, metadata, t, steps), filters, now);
            found.Success? ==> id !in found.value
  {
    RunMovesForward(profile, metadata, t, steps);
    assert Later(t, Run(profile, metadata, t, steps), id);
  }

  /** `passage`: the body of an eligible source, cut by its recorded range and checked against its checksum. */
  function Lookup(profile: string, t: Tables, id: Id, now: int): Result<Text, Error> {
    if id !in t.passages || id !in t.sources || !Eligible(profile, [], now, t.sources[id]) then Failure(Unavailable) else
      var p := t.passages[id];
      var bytes := Encode(p.body);
      var selected := if p.start <= p.end <= |bytes| then bytes[p.start..p.end] else [];
      if selected != p.checksum then Failure(InvalidProvenance)
      else match Decode(selected)
           case None => Failure(InvalidProvenance)
           case Some(text) => Success(text)
  }

  /** With the tables in step, a lookup fails only for want of eligibility and otherwise returns the whole body
      the words index holds for that id. */
  lemma LookupIsWhole(profile: string, t: Tables, id: Id, now: int)
    requires InSync(t)
    ensures Lookup(profile, t, id, now) ==
            if id in t.sources && Eligible(profile, [], now, t.sources[id])
            then Success(t.words[id].body) else Failure(Unavailable)
  {
    if id in t.sources && Eligible(profile, [], now, t.sources[id]) {
      assert RowAgrees(t, id);
      var bytes := Encode(t.passages[id].body);
      assert bytes[0..|bytes|] == bytes;
      DecodesExactly(bytes, t.passages[id].body);
    }
  }

  // ---- what the statements select, over the rows' own columns ----

  /** What a search asks of one set of facts: this profile, the reference account, retained, not removed, not expired at
      that moment, every named value equal, and received strictly within every bound. */
  predicate Asked(profile: string, filters: seq<Filter>, now: int, m: Metadata) {
    && m.profile == profile && m.account == "reference" && m.retained && !m.removed && now < m.expires
    && (forall f :: f in filters && f.Alias? ==> f.value == m.alias)
    && (forall f :: f in filters && f.Sender? ==> f.value == m.sender)
    && (forall f :: f in filters && f.Kind? ==> f.value == m.kind)
    && (forall f :: f in filters && f.Before? ==> m.received < f.time)
    && (forall f :: f in filters && f.AfterTime? ==> f.time < m.received)
  }

  lemma EligibleExactly(profile: string, filters: seq<Filter>, now: int, s: Source)
    ensures Eligible(profile, filters, now, s) <==>
              Asked(profile, filters, now, Metadata(s.profile, s.account, s.retained, s.removed, s.expires, s.alias, s.sender,
                                                    s.kind, s.received))
  {
    var m := Metadata(s.profile, s.account, s.retained, s.removed, s.expires, s.alias, s.sender, s.kind, s.received);
    if Asked(profile, filters, now, m) {
      forall i | 0 <= i < |filters| ensures Passes(s, filters[i]) { assert filters[i] in filters; }
    }
    if Eligible(profile, filters, now, s) {
      forall f | f in filters
        ensures (f.Alias? ==> f.value == m.alias) && (f.Sender? ==> f.value == m.sender) && (f.Kind? ==> f.value == m.kind)
        ensures (f.Before? ==> m.received < f.time) && (f.AfterTime? ==> f.time < m.received)
      {
        var i :| 0 <= i < |filters| && filters[i] == f;
        assert Passes(s, filters[i]);
      }
    }
  }

  /** Which rows a search may return: those with a vector whose source is asked for, and, where the engine keeps facts of its
      own, whose facts are asked for too; and no search with a filter nobody knows. */
  lemma CandidatesExactly(profile: string, facts: bool, t: Tables, filters: seq<Filter>, now: int, id: Id)
    ensures Candidates(profile, facts, t, filters, now).Success? <==> forall f :: f in filters ==> !f.Other?
    ensures Candidates(profile, facts, t, filters, now).Success? ==>
              (id in Candidates(profile, facts, t, filters, now).value <==>
                 && id in t.vectors && id in t.sources
                 && (var s := t.sources[id];
                     Asked(profile, filters, now, Metadata(s.profile, s.account, s.retained, s.removed, s.expires, s.alias,
                                                           s.sender, s.kind, s.received)))
                 && (facts ==> t.vectors[id].metadata.Some? && Asked(profile, filters, now, t.vectors[id].metadata.value)))
  {
    if exists i :: 0 <= i < |filters| && filters[i].Other? {
      var i :| 0 <= i < |filters| && filters[i].Other?;
      assert filters[i] in filters;
    }
    if id in t.sources { EligibleExactly(profile, filters, now, t.sources[id]); }
    if id in t.vectors && t.vectors[id].metadata.Some? {
      var m := t.vectors[id].metadata.value;
      EligibleExactly(profile, filters, now, Source("", m.profile, m.account, m.retained, m.removed, m.expires, m.alias,
                                                    m.sender, m.kind, m.received, 0));
    }
  }

  /** One document, as the five tables hold it: the source row column by column, its whole text with the range and the bytes
      it is checked by, its words, and its vector, with its facts if the engine keeps them. */
  predicate Holds(profile: string, metadata: bool, t: Tables, id: Id, doc: Document, values: seq<Byte>, generation: nat) {
    && id in t.sources && id in t.passages && id in t.words && id in t.vectors
    && (var s := t.sources[id];
        && s.name == doc.name && s.profile == profile && s.account == doc.account && s.retained == doc.retained
        && s.removed == doc.removed && s.expires == doc.expires && s.alias == doc.alias && s.sender == doc.sender
        && s.kind == doc.kind && s.received == doc.received && s.generation == generation)
    && t.passages[id].title == doc.title && t.passages[id].body == doc.text
    && t.passages[id].checksum == Encode(doc.text) && t.passages[id].start == 0 && t.passages[id].end == |Encode(doc.text)|
    && t.words[id].title == doc.title && t.words[id].body == doc.text && t.vectors[id].values == values
    && (t.vectors[id].metadata.Some? <==> metadata)
    && (metadata ==>
          var m := t.vectors[id].metadata.value;
          && m.profile == profile && m.account == doc.account && m.retained == doc.retained && m.removed == doc.removed
          && m.expires == doc.expires && m.alias == doc.alias && m.sender == doc.sender && m.kind == doc.kind
          && m.received == doc.received)
  }

  /** Which publications commit, and what they leave: a first one at generation 1, a later one of a source that is there, not
      removed and of the generation expected; all four tables hold the document; and of the other rows only a source of the
      same name goes. */
  lemma PublishesExactly(profile: string, metadata: bool, t: Tables, id: Id, doc: Document, values: seq<Byte>, expected: nat,
                         fail: bool)
    ensures var published := Committed(profile, metadata, t, Publish(id, doc, values, expected, fail));
            && (published.Success? <==>
                  && !fail && (id !in t.sources ==> expected == 0)
                  && (id in t.sources ==> t.sources[id].generation == expected && !t.sources[id].removed))
            && (published.Success? ==>
                  && Holds(profile, metadata, published.value, id, doc, values, expected + 1)
                  && published.value.cleanup == t.cleanup)
  {
  }

  lemma PublishLeavesTheRest(profile: string, metadata: bool, t: Tables, id: Id, doc: Document, values: seq<Byte>,
                             expected: nat, fail: bool, other: Id)
    requires other != id && Committed(profile, metadata, t, Publish(id, doc, values, expected, fail)).Success?
    ensures var next := Committed(profile, metadata, t, Publish(id, doc, values, expected, fail)).value;
            && (other in next.sources <==> other in t.sources && t.sources[other].name != doc.name)
            && (other in next.sources ==> next.sources[other] == t.sources[other])
            && (other in next.passages <==> other in t.passages)
            && (other in t.passages ==> next.passages[other] == t.passages[other])
            && (other in next.words <==> other in t.words) && (other in t.words ==> next.words[other] == t.words[other])
            && (other in next.vectors <==> other in t.vectors)
            && (other in t.vectors ==> next.vectors[other] == t.vectors[other])
  {
  }

  /** Removing marks a source once, moving its generation on, and owes its cleanup at the generation it then has; the derived
      rows stay until they are cleaned. */
  lemma RemovesExactly(profile: string, metadata: bool, t: Tables, id: Id)
    ensures Committed(profile, metadata, t, Remove(id)).Success?
    ensures var next := Committed(profile, metadata, t, Remove(id)).value;
            && next.sources.Keys == t.sources.Keys
            && (forall other :: other in t.sources && other != id ==> next.sources[other] == t.sources[other])
            && (id in t.sources ==>
                  && next.sources[id].removed && next.sources[id] == t.sources[id].(removed := true, generation := next.sources[id].generation)
                  && next.sources[id].generation == t.sources[id].generation + (if t.sources[id].removed then 0 else 1)
                  && next.cleanup.Keys == t.cleanup.Keys + {id} && next.cleanup[id] == next.sources[id].generation)
            && (id !in t.sources ==> next.cleanup == t.cleanup)
            && (forall other :: other in t.cleanup && other != id ==> next.cleanup[other] == t.cleanup[other])
            && next.passages == t.passages && next.words == t.words && next.vectors == t.vectors
  {
  }

  /** Cleaning is for what is owed: it takes the row out of the three derived tables and out of the debt, and leaves every
      other row and every source. */
  lemma CleansExactly(profile: string, metadata: bool, t: Tables, id: Id, fail: bool, other: Id)
    ensures var cleaned := Committed(profile, metadata, t, Clean(id, fail));
            && (cleaned.Success? <==> id in t.cleanup && !fail)
            && (cleaned.Success? ==>
                  && cleaned.value.sources == t.sources
                  && (other in cleaned.value.passages <==> other in t.passages && other != id)
                  && (other in cleaned.value.words <==> other in t.words && other != id)
                  && (other in cleaned.value.vectors <==> other in t.vectors && other != id)
                  && (other in cleaned.value.cleanup <==> other in t.cleanup && other != id)
                  && (other != id && other in t.passages ==> cleaned.value.passages[other] == t.passages[other])
                  && (other != id && other in t.words ==> cleaned.value.words[other] == t.words[other])
                  && (other != id && other in t.vectors ==> cleaned.value.vectors[other] == t.vectors[other])
                  && (other != id && other in t.cleanup ==> cleaned.value.cleanup[other] == t.cleanup[other]))
  {
  }

  /** A passage is handed out only as recorded: its source asked for as without filters, its recorded range of the body the
      very bytes it was checked by. */
  lemma LookupExactly(profile: string, t: Tables, id: Id, now: int, text: Text)
    ensures Lookup(profile, t, id, now) == Success(text) <==>
              && id in t.passages && id in t.sources
              && (var s := t.sources[id];
                  s.profile == profile && s.account == "reference" && s.retained && !s.removed && now < s.expires)
              && var p := t.passages[id];
                 var cut := if p.start <= p.end <= |Encode(p.body)| then Encode(p.body)[p.start..p.end] else [];
                 cut == p.checksum && cut == Encode(text)
  {
    if id in t.sources { EligibleExactly(profile, [], now, t.sources[id]); }
    if id in t.passages {
      var p := t.passages[id];
      DecodesExactly(if p.start <= p.end <= |Encode(p.body)| then Encode(p.body)[p.start..p.end] else [], text);
    }
  }
}
