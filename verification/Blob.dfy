/**
 The IPMI blob handler of src/smbios-ipmi-blobs/handler.cpp: one session at a time stages the
 table in a buffer, and a commit writes the buffer to the cache file and asks the daemon to
 synchronise.

 `Step` is the handler as a function on values; the class methods are proved against it, and
 the lemmas at the end hold of every sequence of calls. The clock, the file system and the
 D-Bus call are parameters of a commit.
 */
module Blob {
  import opened Common
  import opened Bytes
  import opened Flash

  const MAX_BUFFER_SIZE := 0x1_0000

  datatype State = State(openWrite: bool, committing: bool, committed: bool, commitError: bool)

  datatype SmbiosBlob = SmbiosBlob(sessionId: Word16, blobId: string, state: State, buffer: seq<Byte>)

  /** What the file system does to a commit. A failed write leaves any content behind. */
  datatype FileOutcome = NoDirectory | OpenFails | WriteFails(left: seq<Byte>) | Written

  /** The environment of a commit: the time, the file system, and the daemon's answer. */
  datatype CommitEnv = CommitEnv(now: Word32, outcome: FileOutcome, synced: bool)

  datatype Op =
    | Open(session: Word16, read: bool, write: bool, path: string)
    | Write(session: Word16, offset: Word32, data: seq<Byte>)
    | Commit(session: Word16, data: seq<Byte>, env: CommitEnv)
    | Close(session: Word16)

  /** The handler and the file it shares with the daemon. */
  datatype World = World(blob: Option<SmbiosBlob>, file: Option<seq<Byte>>)

  /** The buffer after a write that fits: grown with zeros if needed, then overwritten. */
  function Overwrite(buffer: seq<Byte>, offset: nat, data: seq<Byte>): (b: seq<Byte>)
    ensures |b| == if offset + |data| > |buffer| then offset + |data| else |buffer|
  {
    var grown := if offset + |data| > |buffer| then buffer + Zeros(offset + |data| - |buffer|) else buffer;
    grown[..offset] + data + grown[offset + |data|..]
  }

  predicate Owns(w: World, session: Word16)
  {
    w.blob.Some? && w.blob.value.sessionId == session
  }

  predicate WriteFits(b: SmbiosBlob, offset: nat, data: seq<Byte>)
  {
    b.state.openWrite && offset < MAX_BUFFER_SIZE && |data| <= MAX_BUFFER_SIZE - offset
  }

  function Failed(w: World, file: Option<seq<Byte>>): (r: (World, bool))
    requires w.blob.Some?
  {
    (World(Some(w.blob.value.(state := w.blob.value.state.(commitError := true))), file), false)
  }

  function CommitStep(w: World, env: CommitEnv): (r: (World, bool))
    requires w.blob.Some?
  {
    var b := w.blob.value;
    if b.state.committing || b.state.committed then (w, true)
    else
      match env.outcome
      case NoDirectory => Failed(w, w.file)
      case OpenFails => Failed(w, w.file)
      case WriteFails(left) => Failed(w, Some(left))
      case Written =>
        var file := Some(Image(env.now, b.buffer));
        if env.synced
        then (World(Some(b.(state := b.state.(commitError := false, committed := true))), file), true)
        else Failed(w, file)
  }

  /** One call: the world after it and what it returns. */
  function Step(w: World, op: Op): (r: (World, bool))
  {
    match op
    case Open(session, read, write, path) =>
      if read || w.blob.Some? then (w, false)
      else (w.(blob := Some(SmbiosBlob(session, path, State(write, false, false, false), []))), true)
    case Write(session, offset, data) =>
      if !Owns(w, session) || !WriteFits(w.blob.value, offset, data) then (w, false)
      else
        var b := w.blob.value;
        (w.(blob := Some(b.(buffer := Overwrite(b.buffer, offset, data)))), true)
    case Commit(session, data, env) =>
      if data != [] || !Owns(w, session) then (w, false) else CommitStep(w, env)
    case Close(session) =>
      if !Owns(w, session) then (w, false) else (w.(blob := None), true)
  }

  // ----- The handler ----------------------------------------------------------------

  class CacheFile {
    var content: Option<seq<Byte>>

    constructor (content: Option<seq<Byte>>)
      ensures this.content == content
    {
      this.content := content;
    }
  }

  class SmbiosBlobHandler {
    var blob: Option<SmbiosBlob>
    const file: CacheFile

    ghost predicate Valid()
      reads this
    {
      blob.Some? ==> |blob.value.buffer| <= MAX_BUFFER_SIZE
    }

    ghost function View(): (w: World)
      reads this, file
    {
      World(blob, file.content)
    }

    constructor (file: CacheFile)
      ensures Valid() && this.file == file && blob.None?
    {
      blob := None;
      this.file := file;
    }

    method OpenBlob(session: Word16, read: bool, write: bool, path: string) returns (ok: bool)
      requires Valid()
      modifies this`blob
      ensures Valid()
      ensures (View(), ok) == Step(old(View()), Open(session, read, write, path))
    {
      if read {
        return false;
      }
      if blob.Some? {
        return false;
      }
      blob := Some(SmbiosBlob(session, path, State(write, false, false, false), []));
      return true;
    }

    method WriteBlob(session: Word16, offset: Word32, data: seq<Byte>) returns (ok: bool)
      requires Valid()
      modifies this`blob
      ensures Valid()
      ensures (View(), ok) == Step(old(View()), Write(session, offset, data))
    {
      if blob.None? || blob.value.sessionId != session {
        return false;
      }
      if !blob.value.state.openWrite {
        return false;
      }
      if offset >= MAX_BUFFER_SIZE {
        return false;
      }
      var remain := MAX_BUFFER_SIZE - offset;
      if |data| > remain {
        return false;
      }
      var buffer := blob.value.buffer;
      var newBufferSize := |data| + offset;
      if newBufferSize > |buffer| {
        buffer := buffer + Zeros(newBufferSize - |buffer|);
      }
      buffer := buffer[..offset] + data + buffer[offset + |data|..];
      blob := Some(blob.value.(buffer := buffer));
      return true;
    }

    method SetState(state: State)
      requires Valid() && blob.Some?
      modifies this`blob
      ensures Valid() && blob == Some(old(blob).value.(state := state))
    {
      blob := Some(blob.value.(state := state));
    }

    method CommitBlob(session: Word16, data: seq<Byte>, env: CommitEnv) returns (ok: bool)
      requires Valid()
      modifies this`blob, file
      ensures Valid()
      ensures (View(), ok) == Step(old(View()), Commit(session, data, env))
    {
      if data != [] {
        return false;
      }
      if blob.None? || blob.value.sessionId != session {
        return false;
      }
      if blob.value.state.committing || blob.value.state.committed {
        return true;
      }
      SetState(blob.value.state.(commitError := false));
      if env.outcome.NoDirectory? || env.outcome.OpenFails? {
        SetState(blob.value.state.(commitError := true));
        return false;
      }
      if env.outcome.WriteFails? {
        file.content := Some(env.outcome.left);
        SetState(blob.value.state.(commitError := true));
        return false;
      }
      file.content := Some(Image(env.now, blob.value.buffer));
      SetState(blob.value.state.(committing := true));
      if !env.synced {
        SetState(blob.value.state.(committing := false));
        SetState(blob.value.state.(commitError := true));
        return false;
      }
      SetState(blob.value.state.(committing := false));
      SetState(blob.value.state.(committed := true));
      return true;
    }

    method CloseBlob(session: Word16) returns (ok: bool)
      requires Valid()
      modifies this`blob
      ensures Valid()
      ensures (View(), ok) == Step(old(View()), Close(session))
    {
      if blob.None? || blob.value.sessionId != session {
        return false;
      }
      blob := None;
      return true;
    }

    /** stat by session: the staged size and the state bits, for the owner only. */
    method Stat(session: Word16) returns (ok: bool, size: nat, state: State)
      ensures ok <==> Owns(View(), session)
      ensures ok ==> size == |blob.value.buffer| && state == blob.value.state
    {
      if blob.None? || blob.value.sessionId != session {
        return false, 0, State(false, false, false, false);
      }
      return true, |blob.value.buffer|, blob.value.state;
    }
  }

  // ----- Histories ------------------------------------------------------------------

  /** An accepted write. */
  datatype Patch = Patch(offset: nat, data: seq<Byte>)

  /** The staged length: the furthest byte any accepted write reached. */
  ghost function Extent(log: seq<Patch>): (n: nat)
  {
    if log == [] then 0
    else
      var rest, last := Extent(log[..|log| - 1]), log[|log| - 1];
      if last.offset + |last.data| > rest then last.offset + |last.data| else rest
  }

  /** The staged byte `i`: what the last accepted write over it put there, or the zero of a gap. */
  ghost function LastWritten(log: seq<Patch>, i: nat): (b: Byte)
  {
    if log == [] then 0
    else
      var last := log[|log| - 1];
      if last.offset <= i < last.offset + |last.data| then last.data[i - last.offset]
      else LastWritten(log[..|log| - 1], i)
  }

  ghost predicate Overlays(buffer: seq<Byte>, log: seq<Patch>)
  {
    |buffer| == Extent(log) && forall i :: 0 <= i < |buffer| ==> buffer[i] == LastWritten(log, i)
  }

  /** The world, with the accepted writes since the blob was opened. */
  datatype Tracked = Tracked(world: World, log: seq<Patch>)

  ghost function TrackedStep(t: Tracked, op: Op): (r: Tracked)
    ensures r.world == Step(t.world, op).0
  {
    var (w, ok) := Step(t.world, op);
    match op
    case Open(_, _, _, _) => if ok then Tracked(w, []) else t
    case Write(_, offset, data) => if ok then Tracked(w, t.log + [Patch(offset, data)]) else t
    case Commit(_, _, _) => Tracked(w, t.log)
    case Close(_) => if ok then Tracked(w, []) else t
  }

  ghost predicate Inv(t: Tracked)
  {
    t.world.blob.Some? ==>
      var b := t.world.blob.value;
      && |b.buffer| <= MAX_BUFFER_SIZE
      && Overlays(b.buffer, t.log)
      && !b.state.committing
      && !(b.state.committed && b.state.commitError)
  }

  lemma OverwriteOverlays(buffer: seq<Byte>, log: seq<Patch>, offset: nat, data: seq<Byte>)
    requires Overlays(buffer, log)
    ensures Overlays(Overwrite(buffer, offset, data), log + [Patch(offset, data)])
  {
    var log' := log + [Patch(offset, data)];
    var buffer' := Overwrite(buffer, offset, data);
    assert log'[..|log|] == log;
    forall i | 0 <= i < |buffer'| ensures buffer'[i] == LastWritten(log', i) {
      if |buffer| <= i && !(offset <= i < offset + |data|) {
        BeyondExtent(log, i);
      }
    }
  }

  lemma {:induction false} BeyondExtent(log: seq<Patch>, i: nat)
    requires i >= Extent(log)
    ensures LastWritten(log, i) == 0
    decreases |log|
  {
    if log != [] {
      BeyondExtent(log[..|log| - 1], i);
    }
  }

  lemma StepKeepsInv(t: Tracked, op: Op)
    requires Inv(t)
    ensures Inv(TrackedStep(t, op))
  {
    hide Image, Overwrite, Overlays;
    match op
    case Open(_, _, _, _) => assert Overlays([], []) by { EmptyOverlays(); }
    case Write(session, offset, data) =>
      if Owns(t.world, session) && WriteFits(t.world.blob.value, offset, data) {
        OverwriteOverlays(t.world.blob.value.buffer, t.log, offset, data);
      }
    case Commit(_, _, _) =>
    case Close(_) =>
  }

  lemma EmptyOverlays()
    ensures Overlays([], [])
  {
  }

  /** The state after a sequence of calls on a fresh handler. */
  ghost function Run(file: Option<seq<Byte>>, ops: seq<Op>): (t: Tracked)
    decreases |ops|
  {
    if ops == [] then Tracked(World(None, file), [])
    else TrackedStep(Run(file, ops[..|ops| - 1]), ops[|ops| - 1])
  }

  /** The state after the first `k` calls. */
  ghost function RunTo(file: Option<seq<Byte>>, ops: seq<Op>, k: nat): (t: Tracked)
    requires k <= |ops|
  {
    Run(file, ops[..k])
  }

  lemma {:induction false} RunKeepsInv(file: Option<seq<Byte>>, ops: seq<Op>)
    ensures Inv(Run(file, ops))
    decreases |ops|
  {
    hide Inv, TrackedStep;
    if ops == [] {
      assert Inv(Tracked(World(None, file), [])) by { NothingOpen(file); }
    } else {
      RunKeepsInv(file, ops[..|ops| - 1]);
      StepKeepsInv(Run(file, ops[..|ops| - 1]), ops[|ops| - 1]);
    }
  }

  lemma NothingOpen(file: Option<seq<Byte>>)
    ensures Inv(Tracked(World(None, file), []))
  {
  }

  ghost predicate IsCommitted(w: World)
  {
    w.blob.Some? && w.blob.value.state.committed
  }

  /** Call `op` in world `w` is the commit that writes the file and is confirmed. */
  ghost predicate Commits(w: World, op: Op)
  {
    && op.Commit? && op.data == [] && Owns(w, op.session)
    && !w.blob.value.state.committed && !w.blob.value.state.committing
    && op.env.outcome.Written? && op.env.synced
  }

  /** A blob becomes committed by such a call only; while it is committed no call changes the
      file, and its accepted writes only grow. */
  lemma StepCommits(t: Tracked, op: Op)
    requires Inv(t) && IsCommitted(TrackedStep(t, op).world)
    ensures IsCommitted(t.world) ==>
              var r := TrackedStep(t, op);
              r.world.file == t.world.file && t.log <= r.log && r.world.blob.value.sessionId == t.world.blob.value.sessionId
    ensures !IsCommitted(t.world) ==>
              && Commits(t.world, op) && TrackedStep(t, op).log == t.log
              && TrackedStep(t, op).world.file == Some(Image(op.env.now, t.world.blob.value.buffer))
              && TrackedStep(t, op).world.blob.value.buffer == t.world.blob.value.buffer
  {
    hide Image, Overwrite, Overlays;
  }

  /** Call `k` is the commit the present file is owed to: it wrote the image of the buffer of
      that moment, and no later call has changed the file. */
  ghost predicate WroteFile(file: Option<seq<Byte>>, ops: seq<Op>, k: nat)
  {
    && k < |ops| && Commits(RunTo(file, ops, k).world, ops[k])
    && forall j :: k < j <= |ops| ==>
         RunTo(file, ops, j).world.file
         == Some(Image(ops[k].env.now, RunTo(file, ops, k).world.blob.value.buffer))
  }

  lemma {:induction false} CommittedOnce(file: Option<seq<Byte>>, ops: seq<Op>) returns (k: nat)
    requires IsCommitted(Run(file, ops).world)
    ensures WroteFile(file, ops, k)
    ensures RunTo(file, ops, k).log <= Run(file, ops).log
    decreases |ops|
  {
    hide TrackedStep, Inv, Image, Commits;
    var n := |ops| - 1;
    var init, op := ops[..n], ops[n];
    assert ops[..n + 1] == ops;
    RunKeepsInv(file, init);
    StepCommits(Run(file, init), op);
    if IsCommitted(Run(file, init).world) {
      k := CommittedOnce(file, init);
      assert forall j :: 0 <= j <= n ==> init[..j] == ops[..j];
      assert forall j :: 0 <= j <= n ==> RunTo(file, ops, j) == RunTo(file, init, j);
      assert RunTo(file, init, n).world.file == Run(file, init).world.file by { assert init[..n] == init; }
    } else {
      k := n;
    }
  }

  /** Over every sequence of calls: the buffer is the overlay of the accepted writes and fits,
      no commit is left half-done, committed and commit_error exclude each other, and while a
      blob is committed the file is the image, at the time of the one commit that wrote it, of
      the buffer of that moment. */
  lemma SessionInvariants(file: Option<seq<Byte>>, ops: seq<Op>)
    ensures var t := Run(file, ops);
            t.world.blob.Some? ==>
              var b := t.world.blob.value;
              && |b.buffer| == Extent(t.log) <= MAX_BUFFER_SIZE
              && (forall i :: 0 <= i < |b.buffer| ==> b.buffer[i] == LastWritten(t.log, i))
              && !b.state.committing && !(b.state.committed && b.state.commitError)
              && (b.state.committed ==> exists k: nat :: WroteFile(file, ops, k))
  {
    hide WroteFile;
    RunKeepsInv(file, ops);
    if IsCommitted(Run(file, ops).world) {
      var k := CommittedOnce(file, ops);
    }
  }

  /** Once committed, further commits succeed without writing anything. */
  lemma CommitShortCircuits(t: Tracked, env: CommitEnv)
    requires Inv(t) && IsCommitted(t.world)
    ensures Step(t.world, Commit(t.world.blob.value.sessionId, [], env)) == (t.world, true)
  {
  }

  /** Two lists of accepted writes stage the same bytes. */
  ghost predicate SameOverlay(a: seq<Patch>, b: seq<Patch>)
  {
    Extent(a) == Extent(b) && forall i :: 0 <= i < Extent(a) ==> LastWritten(a, i) == LastWritten(b, i)
  }

  /** After any sequence of calls, a commit that reports success leaves the file current if and
      only if the blob was not committed before, or the writes accepted since the commit `k`
      that wrote the file put back what was there: later writes never reach the file. */
  lemma CommitIsCurrent(file: Option<seq<Byte>>, ops: seq<Op>, session: Word16, env: CommitEnv) returns (k: nat)
    ensures var t := Run(file, ops);
            Owns(t.world, session) && IsCommitted(t.world) ==>
              WroteFile(file, ops, k) && RunTo(file, ops, k).log <= t.log
    ensures var t := Run(file, ops);
            Owns(t.world, session) && Step(t.world, Commit(session, [], env)).1 ==>
              ((exists now: Word32 :: Step(t.world, Commit(session, [], env)).0.file
                                      == Some(Image(now, t.world.blob.value.buffer)))
               <==> (IsCommitted(t.world) ==> k <= |ops| && SameOverlay(RunTo(file, ops, k).log, t.log)))
  {
    hide Image, Overlays, SameOverlay, Run;
    k := 0;
    var t := Run(file, ops);
    RunKeepsInv(file, ops);
    if Owns(t.world, session) && IsCommitted(t.world) {
      k := CommittedOnce(file, ops);
      FileIsCurrent(file, ops, k);
    } else if Owns(t.world, session) && Step(t.world, Commit(session, [], env)).1 {
      assert Step(t.world, Commit(session, [], env)).0.file == Some(Image(env.now, t.world.blob.value.buffer));
    }
  }

  lemma FileIsCurrent(file: Option<seq<Byte>>, ops: seq<Op>, k: nat)
    requires WroteFile(file, ops, k) && Run(file, ops).world.blob.Some?
    ensures (exists now: Word32 :: Run(file, ops).world.file == Some(Image(now, Run(file, ops).world.blob.value.buffer)))
       <==> SameOverlay(RunTo(file, ops, k).log, Run(file, ops).log)
  {
    hide Image, Run;
    var was, now := RunTo(file, ops, k), Run(file, ops);
    var snapshot, buffer := was.world.blob.value.buffer, now.world.blob.value.buffer;
    assert ops[..|ops|] == ops;
    assert now.world.file == Some(Image(ops[k].env.now, snapshot)) by { assert RunTo(file, ops, |ops|) == now; }
    RunKeepsInv(file, ops[..k]);
    RunKeepsInv(file, ops);
    OverlayDetermines(snapshot, was.log, buffer, now.log);
    ImageRoundTrip(ops[k].env.now, snapshot);
    if exists t: Word32 :: now.world.file == Some(Image(t, buffer)) {
      var t: Word32 :| now.world.file == Some(Image(t, buffer));
      ImageRoundTrip(t, buffer);
    }
  }

  lemma OverlayDetermines(a: seq<Byte>, la: seq<Patch>, b: seq<Byte>, lb: seq<Patch>)
    requires Overlays(a, la) && Overlays(b, lb)
    ensures a == b <==> SameOverlay(la, lb)
  {
    if SameOverlay(la, lb) {
      assert forall i :: 0 <= i < |a| ==> a[i] == b[i];
    } else if |a| == |b| {
      var i :| 0 <= i < Extent(la) && LastWritten(la, i) != LastWritten(lb, i);
      assert a[i] != b[i];
    }
  }

  /** From IPMI writes to the daemon: after any run whose commit wrote the file and whose
      blob was not committed before, the daemon loads the overlay of the accepted writes,
      zero-padded to 64 KiB, with a header that says so. */
  lemma CommitReachesDaemon(file: Option<seq<Byte>>, ops: seq<Op>, session: Word16, now: Word32, synced: bool)
    ensures var t := Run(file, ops);
            Owns(t.world, session) && !t.world.blob.value.state.committed ==>
              var w := Step(t.world, Commit(session, [], CommitEnv(now, Written, synced))).0;
              && Extent(t.log) <= MAX_BUFFER_SIZE
              && ReadFile(w.file) == Accepted(MdrHeader(MDR_DIR_VERSION, MDR_TYPE_II, now, Extent(t.log)),
                                              t.world.blob.value.buffer)
              && Loaded(w.file) == Padded(t.world.blob.value.buffer)
              && forall i :: 0 <= i < STORAGE_SIZE ==>
                   Loaded(w.file)[i] == if i < Extent(t.log) then LastWritten(t.log, i) else 0
  {
    hide Image, ReadFile, Loaded;
    RunKeepsInv(file, ops);
    var t := Run(file, ops);
    if Owns(t.world, session) && !t.world.blob.value.state.committed {
      ImageRoundTrip(now, t.world.blob.value.buffer);
    }
  }

  // ----- When calls are accepted ----------------------------------------------------

  /** The session that has the blob open, and whether for writing. */
  datatype Holder = Holder(session: Word16, writes: bool)

  /** From the calls alone: the first open that does not ask for reading holds the blob until the
      same session closes it. */
  ghost function HeldBy(ops: seq<Op>): (h: Option<Holder>)
  {
    if ops == [] then None
    else
      var h := HeldBy(ops[..|ops| - 1]);
      match ops[|ops| - 1]
      case Open(session, read, write, _) => if h.None? && !read then Some(Holder(session, write)) else h
      case Close(session) => if h.Some? && h.value.session == session then None else h
      case _ => h
  }

  lemma {:induction false} HolderExactly(file: Option<seq<Byte>>, ops: seq<Op>)
    ensures var b := Run(file, ops).world.blob;
            HeldBy(ops) == if b.None? then None else Some(Holder(b.value.sessionId, b.value.state.openWrite))
    decreases |ops|
  {
    hide Image, Overwrite;
    if ops != [] {
      HolderExactly(file, ops[..|ops| - 1]);
    }
  }

  /** After any calls, which call succeeds, from the calls alone and whatever is staged: an open
      when nobody holds the blob, a write of the holder's that ends within 64 KiB, a close of the
      holder's, and a commit of the holder's that finds the blob committed or gets through. */
  lemma AcceptedExactly(file: Option<seq<Byte>>, ops: seq<Op>, op: Op)
    ensures var h := HeldBy(ops);
            Step(Run(file, ops).world, op).1 <==>
              match op
              case Open(_, read, _, _) => h.None? && !read
              case Write(session, offset, data) =>
                h == Some(Holder(session, true)) && offset < 65536 && offset + |data| <= 65536
              case Commit(session, data, env) =>
                && h.Some? && h.value.session == session && data == []
                && (IsCommitted(Run(file, ops).world) || (env.outcome.Written? && env.synced))
              case Close(session) => h.Some? && h.value.session == session
  {
    hide Image, Overwrite, Run;
    HolderExactly(file, ops);
    RunKeepsInv(file, ops);
  }

  /** What a commit of the holder's leaves in the file: its own image, or what a failed write
      leaves, or what was there. It ends committed if it got through and with an error if not. */
  lemma CommitWrites(file: Option<seq<Byte>>, ops: seq<Op>, session: Word16, env: CommitEnv)
    ensures var w := Run(file, ops).world;
            var after := Step(w, Commit(session, [], env)).0.file;
            if HeldBy(ops).Some? && HeldBy(ops).value.session == session && !IsCommitted(w) then
              match env.outcome
              case Written => w.blob.Some? && after == Some(Image(env.now, w.blob.value.buffer))
              case WriteFails(left) => after == Some(left)
              case _ => after == w.file
            else after == w.file
    ensures var w := Run(file, ops).world;
            HeldBy(ops).Some? && HeldBy(ops).value.session == session && !IsCommitted(w) ==>
              var b, through := Step(w, Commit(session, [], env)).0.blob, env.outcome.Written? && env.synced;
              && b.Some? && w.blob.Some? && b.value.buffer == w.blob.value.buffer
              && b.value.state.committed == through && b.value.state.commitError == !through
  {
    hide Image, Run;
    HolderExactly(file, ops);
    RunKeepsInv(file, ops);
  }

  // ----- Staging in chunks ----------------------------------------------------------

  function Joined(chunks: seq<seq<Byte>>): (table: seq<Byte>)
  {
    if chunks == [] then [] else Joined(chunks[..|chunks| - 1]) + chunks[|chunks| - 1]
  }

  /** Open the blob for writing and write the chunks one after the other. */
  ghost function Staging(session: Word16, path: string, chunks: seq<seq<Byte>>): (ops: seq<Op>)
    requires |Joined(chunks)| <= 65536
    ensures |ops| == |chunks| + 1
    decreases |chunks|
  {
    if chunks == [] then [Open(session, false, true, path)]
    else
      var init := chunks[..|chunks| - 1];
      Staging(session, path, init) + [Write(session, |Joined(init)|, chunks[|chunks| - 1])]
  }

  lemma {:induction false} StagingWorks(file: Option<seq<Byte>>, ops: seq<Op>, session: Word16, path: string,
                                        chunks: seq<seq<Byte>>)
    requires HeldBy(ops).None? && |Joined(chunks)| <= 65536
    ensures var staged := ops + Staging(session, path, chunks);
            var w := Run(file, staged).world;
            && HeldBy(staged) == Some(Holder(session, true))
            && w.blob.Some? && w.blob.value.buffer == Joined(chunks)
    decreases |chunks|
  {
    hide Step, Run, HeldBy;
    var staged := ops + Staging(session, path, chunks);
    if chunks == [] {
      StageFirst(file, ops, session, path);
      assert staged == ops + [Open(session, false, true, path)];
    } else {
      var init, last := chunks[..|chunks| - 1], chunks[|chunks| - 1];
      var before := ops + Staging(session, path, init);
      var op := Write(session, |Joined(init)|, last);
      StagingWorks(file, ops, session, path, init);
      assert staged == before + [op];
      StageNext(file, before, session, last);
    }
  }

  lemma StageFirst(file: Option<seq<Byte>>, ops: seq<Op>, session: Word16, path: string)
    requires HeldBy(ops).None?
    ensures var op := Open(session, false, true, path);
            var w := Run(file, ops + [op]).world;
            HeldBy(ops + [op]) == Some(Holder(session, true)) && w.blob.Some? && w.blob.value.buffer == []
  {
    hide Run;
    RunAppend(file, ops, Open(session, false, true, path));
    HolderExactly(file, ops);
  }

  lemma StageNext(file: Option<seq<Byte>>, ops: seq<Op>, session: Word16, data: seq<Byte>)
    requires HeldBy(ops) == Some(Holder(session, true))
    requires var w := Run(file, ops).world; w.blob.Some? && |w.blob.value.buffer| + |data| <= 65536
    ensures var op := Write(session, |Run(file, ops).world.blob.value.buffer|, data);
            var w := Run(file, ops + [op]).world;
            && HeldBy(ops + [op]) == HeldBy(ops)
            && w.blob.Some? && w.blob.value.buffer == Run(file, ops).world.blob.value.buffer + data
  {
    hide Run, Overwrite;
    var buffer := Run(file, ops).world.blob.value.buffer;
    RunAppend(file, ops, Write(session, |buffer|, data));
    HolderExactly(file, ops);
    OverwriteAtEnd(buffer, data);
    assert data == [] ==> buffer + data == buffer;
  }

  lemma {:induction false} JoinedPrefix(chunks: seq<seq<Byte>>, n: nat)
    requires n <= |chunks|
    ensures |Joined(chunks[..n])| <= |Joined(chunks)|
    ensures n < |chunks| && chunks[n] != [] ==> |Joined(chunks[..n])| < |Joined(chunks)|
    decreases |chunks|
  {
    assert chunks[..|chunks|] == chunks;
    if n < |chunks| {
      var init := chunks[..|chunks| - 1];
      assert init[..n] == chunks[..n];
      if n < |init| {
        JoinedPrefix(init, n);
      }
    }
  }

  lemma {:induction false} StagingPrefix(session: Word16, path: string, chunks: seq<seq<Byte>>, n: nat)
    requires n < |chunks| && |Joined(chunks)| <= 65536
    ensures |Joined(chunks[..n])| <= 65536
    ensures var calls := Staging(session, path, chunks);
            && calls[..n + 1] == Staging(session, path, chunks[..n])
            && calls[n + 1] == Write(session, |Joined(chunks[..n])|, chunks[n])
    decreases |chunks|
  {
    JoinedPrefix(chunks, n);
    var init := chunks[..|chunks| - 1];
    if n < |init| {
      JoinedPrefix(chunks, |init|);
      StagingPrefix(session, path, init, n);
      assert init[..n] == chunks[..n];
      assert Staging(session, path, chunks)[..n + 1] == Staging(session, path, init)[..n + 1];
    } else {
      assert chunks[..n] == init;
    }
  }

  /** However a table of at most 64 KiB is cut into chunks, and after any calls that leave the blob
      closed: staging it leaves exactly the table, and every call is accepted but a write of nothing
      at the very end of 64 KiB. */
  lemma ChunkedStaging(file: Option<seq<Byte>>, ops: seq<Op>, session: Word16, path: string, chunks: seq<seq<Byte>>)
    requires HeldBy(ops).None? && |Joined(chunks)| <= 65536
    ensures var calls := Staging(session, path, chunks);
            && Step(Run(file, ops).world, calls[0]).1
            && (forall n :: 0 <= n < |chunks| ==>
                  (Step(Run(file, ops + calls[..n + 1]).world, calls[n + 1]).1
                   <==> chunks[n] != [] || |Joined(chunks[..n])| < 65536))
            && var w := Run(file, ops + calls).world;
               w.blob.Some? && w.blob.value.buffer == Joined(chunks)
  {
    hide Step, Run, Joined, Staging;
    var calls := Staging(session, path, chunks);
    StagingWorks(file, ops, session, path, chunks);
    StagingOpens(session, path, chunks);
    AcceptedExactly(file, ops, calls[0]);
    forall n | 0 <= n < |chunks|
      ensures Step(Run(file, ops + calls[..n + 1]).world, calls[n + 1]).1
              <==> chunks[n] != [] || |Joined(chunks[..n])| < 65536
    {
      StagingPrefix(session, path, chunks, n);
      JoinedPrefix(chunks, n);
      JoinedPrefix(chunks, n + 1);
      JoinedUnfold(chunks, n);
      StagingWorks(file, ops, session, path, chunks[..n]);
      AcceptedExactly(file, ops + calls[..n + 1], calls[n + 1]);
    }
  }

  lemma JoinedUnfold(chunks: seq<seq<Byte>>, n: nat)
    requires n < |chunks|
    ensures |Joined(chunks[..n + 1])| == |Joined(chunks[..n])| + |chunks[n]|
  {
    assert chunks[..n + 1][..n] == chunks[..n];
  }

  lemma {:induction false} StagingOpens(session: Word16, path: string, chunks: seq<seq<Byte>>)
    requires |Joined(chunks)| <= 65536
    ensures Staging(session, path, chunks)[0] == Open(session, false, true, path)
    decreases |chunks|
  {
    if chunks != [] {
      StagingOpens(session, path, chunks[..|chunks| - 1]);
    }
  }

  lemma RunAppend(file: Option<seq<Byte>>, ops: seq<Op>, op: Op)
    ensures Run(file, ops + [op]) == TrackedStep(Run(file, ops), op)
    ensures HeldBy((ops + [op])[..|ops|]) == HeldBy(ops)
  {
    hide TrackedStep;
    assert (ops + [op])[..|ops|] == ops;
  }

  lemma OverwriteAtEnd(buffer: seq<Byte>, data: seq<Byte>)
    ensures Overwrite(buffer, |buffer|, data) == buffer + data
  {
  }
}
