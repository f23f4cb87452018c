/** The file behind the member's state (apps/cs-mail-cli/src/state.rs): every save writes a temporary file,
    syncs it and renames it into place. What a stopped process and a power loss leave is worked out from
    those steps. */
module MemberFile {
  import opened Wrappers

  type Byte = bv8

  /** How a state is written down, and how a file is read back. */
  datatype Format<!T> = Format(encode: T -> seq<Byte>, decode: seq<Byte> -> Option<T>)

  ghost predicate Sound<T(!new)>(format: Format<T>) {
    forall state :: format.decode(format.encode(state)) == Some(state)
  }

  /** A file's bytes, and whether the device is known to hold exactly those. */
  datatype File = File(bytes: seq<Byte>, synced: bool)

  /** The two names, and what the main name stood for before: the directory itself is never synced, so the
      device may still have any of those. */
  datatype Files = Files(main: Option<File>, temporary: Option<File>, former: set<Option<File>>)

  datatype Operation = Create | Write(byte: Byte) | Sync | Rename

  function Take(f: Files, o: Operation): Files {
    match o
    case Create => f.(temporary := Some(File([], false)))
    case Write(byte) =>
      if f.temporary.None? then f else f.(temporary := Some(File(f.temporary.value.bytes + [byte], false)))
    case Sync =>
      if f.temporary.None? then f else f.(temporary := Some(f.temporary.value.(synced := true)))
    case Rename =>
      if f.temporary.None? then f else Files(f.temporary, None, f.former + {f.main})
  }

  function TakeAll(f: Files, os: seq<Operation>): Files {
    if os == [] then f else Take(TakeAll(f, os[..|os| - 1]), os[|os| - 1])
  }

  function Writes(bytes: seq<Byte>): (os: seq<Operation>)
    ensures |os| == |bytes| && forall i :: 0 <= i < |bytes| ==> os[i] == Write(bytes[i])
  {
    seq(|bytes|, i requires 0 <= i < |bytes| => Write(bytes[i]))
  }

  /** One save, byte by byte: it may stop after any of these. */
  function Saving(bytes: seq<Byte>): seq<Operation> {
    [Create] + Writes(bytes) + [Sync, Rename]
  }

  function Content<T>(format: Format<T>, file: Option<File>): Option<T> {
    if file.None? then None else format.decode(file.value.bytes)
  }

  /** What `open` reads. */
  function Read<T>(format: Format<T>, f: Files): Option<T> {
    Content(format, f.main)
  }

  /** The files after the first n steps of a save. */
  function Stopped(f: Files, bytes: seq<Byte>, n: nat): Files
    requires n <= |Saving(bytes)|
  {
    if n == 0 then f
    else if n <= |bytes| + 1 then f.(temporary := Some(File(bytes[..n - 1], false)))
    else if n == |bytes| + 2 then f.(temporary := Some(File(bytes, true)))
    else Files(Some(File(bytes, true)), None, f.former + {f.main})
  }

  lemma StepAt(bytes: seq<Byte>, n: nat)
    requires n < |Saving(bytes)|
    ensures Saving(bytes)[n] ==
            if n == 0 then Create else if n <= |bytes| then Write(bytes[n - 1]) else if n == |bytes| + 1 then Sync else Rename
  {
  }

  lemma TakeNext(f: Files, bytes: seq<Byte>, n: nat)
    requires n < |Saving(bytes)|
    ensures Take(Stopped(f, bytes, n), Saving(bytes)[n]) == Stopped(f, bytes, n + 1)
  {
    StepAt(bytes, n);
    if 1 <= n <= |bytes| {
      assert bytes[..n - 1] + [bytes[n - 1]] == bytes[..n];
    } else if n == |bytes| + 1 {
      assert bytes[..|bytes|] == bytes;
    }
  }

  lemma {:induction false} StoppedIsPrefix(f: Files, bytes: seq<Byte>, n: nat)
    requires n <= |Saving(bytes)|
    ensures TakeAll(f, Saving(bytes)[..n]) == Stopped(f, bytes, n)
  {
    if n > 0 {
      assert Saving(bytes)[..n][..n - 1] == Saving(bytes)[..n - 1];
      StoppedIsPrefix(f, bytes, n - 1);
      TakeNext(f, bytes, n - 1);
    }
  }

  /** A process may die, or a call fail, after any of a save's steps, over any stale temporary file: the next
      process reads the new state if the save was complete, and otherwise exactly what it would have read
      before. */
  lemma SaveIsAtomic<T(!new)>(format: Format<T>, f: Files, state: T, n: nat)
    requires Sound(format) && n <= |Saving(format.encode(state))|
    ensures var steps := Saving(format.encode(state));
            Read(format, TakeAll(f, steps[..n])) == if n == |steps| then Some(state) else Read(format, f)
  {
    StoppedIsPrefix(f, format.encode(state), n);
  }

  // ---- power loss ----

  /** What the device may hold of a file: its bytes once synced, and anything at all before. */
  predicate Survives(file: Option<File>, left: Option<File>) {
    && file.Some? == left.Some?
    && (file.Some? && file.value.synced ==> left.value.bytes == file.value.bytes)
  }

  /** A loss of power leaves the main name as it is or as it once was, and the temporary one anyhow. */
  ghost predicate PowerLoss(f: Files, g: Files) {
    exists file :: file in f.former + {f.main} && Survives(file, g.main)
  }

  /** Nothing the main name stands for or once stood for is unsynced. */
  predicate Settled(f: Files) {
    forall file :: file in f.former + {f.main} && file.Some? ==> file.value.synced
  }

  lemma SaveKeepsSettled(f: Files, bytes: seq<Byte>, n: nat)
    requires Settled(f) && n <= |Saving(bytes)|
    ensures Settled(TakeAll(f, Saving(bytes)[..n]))
  {
    StoppedIsPrefix(f, bytes, n);
  }

  /** What a power loss can make of these files. */
  ghost predicate MayRead<T(!new)>(format: Format<T>, f: Files, read: Option<T>) {
    exists g :: PowerLoss(f, g) && Read(format, g) == read
  }

  lemma SettledReads<T(!new)>(format: Format<T>, f: Files, read: Option<T>)
    requires Settled(f)
    ensures MayRead(format, f, read) <==> exists file :: file in f.former + {f.main} && Content(format, file) == read
  {
    if file :| file in f.former + {f.main} && Content(format, file) == read {
      var g := Files(file, None, {});
      assert Survives(file, g.main);
      assert PowerLoss(f, g);
    }
  }

  /** A power loss after any number of a save's steps leaves what one before it could leave or, if the save
      was complete, possibly the new state: never a part of it, and never surely it. */
  lemma PowerLossLeavesAWholeState<T(!new)>(format: Format<T>, f: Files, state: T, n: nat, read: Option<T>)
    requires Sound(format) && Settled(f) && n <= |Saving(format.encode(state))|
    ensures var steps := Saving(format.encode(state));
            MayRead(format, TakeAll(f, steps[..n]), read) <==>
            MayRead(format, f, read) || (n == |steps| && read == Some(state))
  {
    var bytes := format.encode(state);
    var g := TakeAll(f, Saving(bytes)[..n]);
    StoppedIsPrefix(f, bytes, n);
    SaveKeepsSettled(f, bytes, n);
    SettledReads(format, f, read);
    SettledReads(format, g, read);
    if n == |Saving(bytes)| {
      assert g.former + {g.main} == f.former + {f.main} + {Some(File(bytes, true))};
      assert Content(format, Some(File(bytes, true))) == Some(state);
    } else {
      assert g.former + {g.main} == f.former + {f.main};
    }
  }

  /** Renamed without being synced, the main file could hold anything after a loss of power. */
  lemma SyncIsNeeded(f: Files, bytes: seq<Byte>, junk: seq<Byte>)
    ensures exists g :: PowerLoss(TakeAll(f, [Create] + Writes(bytes) + [Rename]), g) && g.main == Some(File(junk, true))
  {
    var os := [Create] + Writes(bytes) + [Rename];
    assert os[..|os| - 1] == Saving(bytes)[..|bytes| + 1];
    StoppedIsPrefix(f, bytes, |bytes| + 1);
    var renamed := TakeAll(f, os);
    var g := Files(Some(File(junk, true)), None, {});
    assert Survives(renamed.main, g.main);
    assert PowerLoss(renamed, g);
  }
}
