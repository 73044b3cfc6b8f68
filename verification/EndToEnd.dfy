/**
 From the host's writes to the published inventory: the blob handler, the cache file, the
 daemon's storage and the walker, composed.
 */
module EndToEnd {
  import opened Common
  import opened Bytes
  import opened Walker
  import opened Walks
  import opened EntryPoint
  import opened Encoding
  import opened RoundTrip
  import opened Flash
  import opened Blob
  import Naming
  import WalkSafety

  /** Whatever file the daemon synchronises with, if its data leaves 260 bytes of the storage
      free (or it is rejected), the storage has the zero tail the walker's safety rests on. */
  lemma LoadedHasZeroTail(file: Option<seq<Byte>>)
    ensures match ReadFile(file)
            case Rejected => WalkSafety.ZeroTail(Loaded(file), 0)
            case Accepted(_, data) =>
              |data| + WalkSafety.TAIL <= STORAGE_SIZE ==> WalkSafety.ZeroTail(Loaded(file), |data|)
  {
    hide ReadFile;
  }

  /** A staged buffer that is a 64-bit entry point, whatever else up to the address it names,
      and a printed table there. */
  ghost predicate StagedTable(buffer: seq<Byte>, e: Entry64, gap: seq<Byte>, ss: seq<Structure>)
  {
    && WellFormedTable(ss)
    && buffer == Print64(e) + gap + EncodeTable(ss)
    && |buffer| + 3 <= STORAGE_SIZE
    && e.address == 24 + |gap| < 0x8000
  }

  lemma StagedTableAt(buffer: seq<Byte>, e: Entry64, gap: seq<Byte>, ss: seq<Structure>)
    requires StagedTable(buffer, e, gap, ss)
    ensures var s := Padded(buffer);
            && TableAt(s, e.address, ss) && Entry64At(s, 0, e)
            && SkipEntryPoint(s, At(0)) == At(e.address)
  {
    hide Encode, GoodStrings, LooksLikeEntryPoint, TableAt, EncodeAll, Print64, SkipEntryPoint;
    var tail, pre := Zeros(STORAGE_SIZE - |buffer|), Print64(e) + gap;
    EncodeTableAt(pre, ss, tail);
    var s := Padded(buffer);
    assert s == pre + EncodeTable(ss) + tail;
    assert s[0..24] == Print64(e);
    SkipsToAddress(s, 0, e);
  }

  /** The daemon's version check on such a table: unless "_SM_" occurs somewhere in the storage, it
      depends on the entry point's version alone. */
  lemma StagedTableVersion(buffer: seq<Byte>, e: Entry64, gap: seq<Byte>, ss: seq<Structure>)
    requires StagedTable(buffer, e, gap, ss) && !Occurs(Padded(buffer), [0x5f, 0x53, 0x4d, 0x5f])
    ensures VersionOk(Padded(buffer)) <==> Supported(e.major, e.minor)
  {
    hide StagedTable, VersionOk, TableAt, SkipEntryPoint, Print64;
    var s := Padded(buffer);
    StagedTableAt(buffer, e, gap, ss);
    Fields64(s, 0, e);
    assert MatchAt(s, [0x5f, 0x53, 0x4d, 0x33, 0x5f], 0);
    Version64(s, 0, e);
  }

  // ----- The handler and the daemon together ----------------------------------------

  /** A call on the handler, or a synchronisation somebody else asks the daemon for.
      `reached` says whether a commit's own request got to the daemon. */
  datatype Event = Call(op: Op, reached: bool) | Sync

  datatype System = System(handler: Tracked, daemon: Daemon)

  /** The call gets as far as writing the file and asking the daemon. */
  ghost predicate Asks(w: World, op: Op)
  {
    && op.Commit? && op.data == [] && Owns(w, op.session)
    && !w.blob.value.state.committed && !w.blob.value.state.committing && op.env.outcome.Written?
  }

  ghost function Happen(y: System, e: Event): (r: System)
  {
    match e
    case Call(op, reached) =>
      var t := TrackedStep(y.handler, op);
      System(t, if Asks(y.handler.world, op) && reached then Synchronised(y.daemon, t.world.file) else y.daemon)
    case Sync => y.(daemon := Synchronised(y.daemon, y.handler.world.file))
  }

  /** A commit hears yes only if the daemon got the request and synchronised with the file just
      written. It may hear no, or nothing, either way. */
  ghost predicate Honest(y: System, e: Event)
  {
    e.Call? && Asks(y.handler.world, e.op) && e.op.env.synced ==>
      e.reached && Synchronises(Some(Image(e.op.env.now, y.handler.world.blob.value.buffer)))
  }

  ghost function After(file: Option<seq<Byte>>, d: Daemon, es: seq<Event>): (y: System)
    decreases |es|
  {
    if es == [] then System(Run(file, []), d) else Happen(After(file, d, es[..|es| - 1]), es[|es| - 1])
  }

  ghost predicate HonestRun(file: Option<seq<Byte>>, d: Daemon, es: seq<Event>)
  {
    forall n :: 0 <= n < |es| ==> Honest(After(file, d, es[..n]), es[n])
  }

  /** The calls the handler received. */
  ghost function Received(es: seq<Event>): (ops: seq<Op>)
  {
    if es == [] then []
    else
      var init, last := Received(es[..|es| - 1]), es[|es| - 1];
      if last.Call? then init + [last.op] else init
  }

  lemma {:induction false} HandlerRuns(file: Option<seq<Byte>>, d: Daemon, es: seq<Event>)
    ensures After(file, d, es).handler == Run(file, Received(es))
    decreases |es|
  {
    hide TrackedStep, Synchronised;
    if es != [] {
      var init, last := es[..|es| - 1], es[|es| - 1];
      HandlerRuns(file, d, init);
      if last.Call? {
        assert (Received(init) + [last.op])[..|Received(init)|] == Received(init);
      }
    }
  }

  /** While a blob is committed, synchronising again would succeed and change nothing. */
  ghost predicate InSync(y: System)
  {
    IsCommitted(y.handler.world) ==>
      Synchronises(y.handler.world.file) && y.daemon == Synchronised(y.daemon, y.handler.world.file)
  }

  lemma EventKeepsSync(y: System, e: Event)
    requires Blob.Inv(y.handler) && InSync(y) && Honest(y, e)
    ensures InSync(Happen(y, e))
  {
    hide TrackedStep, Synchronises, Blob.Inv;
    if e.Call? && IsCommitted(Happen(y, e).handler.world) {
      StepCommits(y.handler, e.op);
    }
  }

  lemma {:induction false} RunKeepsSync(file: Option<seq<Byte>>, d: Daemon, es: seq<Event>)
    requires HonestRun(file, d, es)
    ensures InSync(After(file, d, es))
    decreases |es|
  {
    hide Honest, InSync, Happen, Blob.Inv;
    if es == [] {
      assert InSync(System(Run(file, []), d)) by { NothingCommitted(file, d); }
    } else {
      var n := |es| - 1;
      var init := es[..n];
      assert forall m :: 0 <= m <= n ==> init[..m] == es[..m];
      RunKeepsSync(file, d, init);
      HandlerRuns(file, d, init);
      RunKeepsInv(file, Received(init));
      EventKeepsSync(After(file, d, init), es[n]);
    }
  }

  lemma NothingCommitted(file: Option<seq<Byte>>, d: Daemon)
    ensures InSync(System(Run(file, []), d))
  {
  }

  /** Over every honest run: while a blob is committed, the daemon's storage is what the writes
      accepted before the commit `k` staged, zero-padded, and its directory entry has that
      commit's time and size. */
  lemma CommittedIsPublished(file: Option<seq<Byte>>, d: Daemon, es: seq<Event>) returns (k: nat)
    requires HonestRun(file, d, es) && IsCommitted(After(file, d, es).handler.world)
    ensures var ops, daemon := Received(es), After(file, d, es).daemon;
            && WroteFile(file, ops, k)
            && var t := RunTo(file, ops, k);
               && Extent(t.log) <= MAX_BUFFER_SIZE && Overlays(t.world.blob.value.buffer, t.log)
               && daemon == Daemon(Padded(t.world.blob.value.buffer), MDR_DIR_VERSION, ops[k].env.now, Extent(t.log),
                                   StageLoaded, Unlock)
               && VersionOk(daemon.storage)
  {
    hide Happen, Honest, Image, Loaded, ReadFile, VersionOk, Run;
    var ops := Received(es);
    RunKeepsSync(file, d, es);
    HandlerRuns(file, d, es);
    k := CommittedOnce(file, ops);
    var t := RunTo(file, ops, k);
    RunKeepsInv(file, ops[..k]);
    assert RunTo(file, ops, |ops|) == Run(file, ops) by { assert ops[..|ops|] == ops; }
    ImageRoundTrip(ops[k].env.now, t.world.blob.value.buffer);
  }

  /** A commit the daemon refuses has already replaced its storage: the refused bytes are there
      under the old version, time and size. */
  lemma RefusedCommitLosesTable(y: System, op: Op)
    requires Blob.Inv(y.handler) && Asks(y.handler.world, op) && Honest(y, Call(op, true))
    requires !VersionOk(Padded(y.handler.world.blob.value.buffer))
    ensures var r := Happen(y, Call(op, true));
            && r.daemon == y.daemon.(storage := Padded(y.handler.world.blob.value.buffer))
            && r.handler.world.blob.value.state.commitError && !IsCommitted(r.handler.world)
  {
    hide Image, Loaded, ReadFile, VersionOk;
    ImageRoundTrip(op.env.now, y.handler.world.blob.value.buffer);
  }

  /** What the daemon's walker makes of a storage that holds a staged table: the decoder returns
      the printed structures, every type walk the offsets of that type, and with unique handles
      all DIMM names differ. */
  ghost predicate TableIsRead(s: seq<Byte>, p: nat, ss: seq<Structure>)
    requires WellFormedTable(ss)
  {
    && ((forall i :: 0 <= i < |ss| ==> |ss[i].strings| <= 0xff) ==> DecodeTable(s, SkipEntryPoint(s, At(0))) == ss)
    && (forall t: Byte :: Walk(s, At(0), t, 0) == Trail(OffsetsOfType(p, ss, t, 0), Null))
    && (UniqueHandles(ss) && (Naming.CompleteBoards(ss) || p + |EncodeTable(ss)| + Naming.BOARD_ROOM <= |s|) ==>
          Naming.NamingReadable(s) && Naming.Distinct(Naming.DimmNames(s)))
  }

  /** Over every honest run: while a blob is committed whose commit `k` found a printed table
      staged, that table is what the daemon's walker reads. */
  lemma CommittedTableIsRead(file: Option<seq<Byte>>, d: Daemon, es: seq<Event>,
                             e: Entry64, gap: seq<Byte>, ss: seq<Structure>)
    returns (k: nat)
    requires HonestRun(file, d, es) && IsCommitted(After(file, d, es).handler.world)
    ensures WroteFile(file, Received(es), k)
    ensures StagedTable(RunTo(file, Received(es), k).world.blob.value.buffer, e, gap, ss) ==>
              TableIsRead(After(file, d, es).daemon.storage, e.address, ss)
  {
    hide StagedTable, After, HonestRun, TableIsRead, Padded, Overlays, Run;
    k := CommittedIsPublished(file, d, es);
    var buffer := RunTo(file, Received(es), k).world.blob.value.buffer;
    if StagedTable(buffer, e, gap, ss) {
      StagedTableIsRead(buffer, e, gap, ss);
    }
  }

  lemma StagedTableIsRead(buffer: seq<Byte>, e: Entry64, gap: seq<Byte>, ss: seq<Structure>)
    requires StagedTable(buffer, e, gap, ss)
    ensures TableIsRead(Padded(buffer), e.address, ss)
  {
    hide Encode, GoodStrings, LooksLikeEntryPoint, TableAt, Walk, DecodeTable, OffsetsOfType, EncodeAll,
      StringSet, Print64, SkipEntryPoint, Naming.CompleteBoards, Naming.NamingReadable, Naming.Distinct;
    var s := Padded(buffer);
    StagedTableAt(buffer, e, gap, ss);
    forall t: Byte ensures Walk(s, At(0), t, 0) == Trail(OffsetsOfType(e.address, ss, t, 0), Null) {
      Naming.WalkFromStart(s, e.address, ss, t);
    }
    if forall i :: 0 <= i < |ss| ==> |ss[i].strings| <= 0xff {
      DecodeTableReads(s, e.address, ss);
    }
    if UniqueHandles(ss) && (Naming.CompleteBoards(ss) || e.address + |EncodeTable(ss)| + Naming.BOARD_ROOM <= |s|) {
      Naming.PrintedDimmNames(s, e.address, ss);
    }
  }

  // ----- A stale file ---------------------------------------------------------------

  /** A 64-bit entry point, version 3.0, and nothing else. */
  const ENTRY: seq<Byte> := Print64(Entry64(0x3b, 3, 0, 0, 1, 0, 24))

  function Reached(ops: seq<Op>): (es: seq<Event>)
    ensures |es| == |ops| && forall i :: 0 <= i < |ops| ==> es[i] == Call(ops[i], true)
  {
    seq(|ops|, i requires 0 <= i < |ops| => Call(ops[i], true))
  }

  lemma EntryAccepted()
    ensures Synchronises(Some(Image(7, ENTRY))) && Loaded(Some(Image(7, ENTRY))) == Padded(ENTRY)
  {
    hide Image, ReadFile, Loaded, VersionOk;
    ImageRoundTrip(7, ENTRY);
    var s, e := Padded(ENTRY), Entry64(0x3b, 3, 0, 0, 1, 0, 24);
    assert s[0..24] == Print64(e);
    Fields64(s, 0, e);
    EntryBytes();
    forall i: nat ensures !MatchAt(s, [0x5f, 0x53, 0x4d, 0x5f], i) {
      assert i + 4 <= |s| ==> s[i..i + 4][1] == s[i + 1] && s[i..i + 4][3] == s[i + 3];
    }
    assert MatchAt(s, [0x5f, 0x53, 0x4d, 0x33, 0x5f], 0);
    Version64(s, 0, e);
  }

  lemma EntryBytes()
    ensures forall i :: 0 <= i < 24 && i != 1 ==> ENTRY[i] != 0x53
    ensures ENTRY[23] == 0
  {
    assert Enc32(0) == [0, 0, 0, 0] && Enc64(24) == [24, 0, 0, 0, 0, 0, 0, 0];
  }

  lemma AfterOne(file: Option<seq<Byte>>, d: Daemon, es: seq<Event>, n: nat)
    requires n < |es|
    ensures After(file, d, es[..n + 1]) == Happen(After(file, d, es[..n]), es[n])
  {
    hide Happen;
    assert es[..n + 1][..n] == es[..n];
  }

  lemma AfterNone(file: Option<seq<Byte>>, d: Daemon, es: seq<Event>)
    ensures After(file, d, es[..0]) == System(Tracked(World(None, file), []), d)
  {
  }

  /** Stage `table`, commit it, overwrite its last byte with `b`, commit again. */
  function StaleCalls(table: seq<Byte>, b: Byte): (ops: seq<Op>)
    requires 0 < |table| <= MAX_BUFFER_SIZE
    ensures |ops| == 5
  {
    [Open(1, false, true, "/smbios"), Write(1, 0, table), Commit(1, [], CommitEnv(7, Written, true)),
     Write(1, |table| - 1, [b]), Commit(1, [], CommitEnv(8, Written, true))]
  }

  ghost function StaleWorld(table: seq<Byte>, b: Byte, n: nat): (w: World)
    requires 0 < |table| <= MAX_BUFFER_SIZE
  {
    var clean, done := State(true, false, false, false), State(true, false, true, false);
    var file := Some(Image(7, table));
    if n == 0 then World(None, None)
    else if n == 1 then World(Some(SmbiosBlob(1, "/smbios", clean, [])), None)
    else if n == 2 then World(Some(SmbiosBlob(1, "/smbios", clean, table)), None)
    else if n == 3 then World(Some(SmbiosBlob(1, "/smbios", done, table)), file)
    else World(Some(SmbiosBlob(1, "/smbios", done, table[|table| - 1 := b])), file)
  }

  lemma StaleStep(table: seq<Byte>, b: Byte, n: nat)
    requires 0 < |table| <= MAX_BUFFER_SIZE && n < 5
    ensures Step(StaleWorld(table, b, n), StaleCalls(table, b)[n]) == (StaleWorld(table, b, n + 1), true)
  {
    hide Image;
    assert Overwrite([], 0, table) == table;
    assert Overwrite(table, |table| - 1, [b]) == table[|table| - 1 := b];
  }

  lemma {:induction false} StaleAfter(d: Daemon, table: seq<Byte>, b: Byte, n: nat)
    requires 0 < |table| <= MAX_BUFFER_SIZE && n <= 5
    ensures var y := After(None, d, Reached(StaleCalls(table, b))[..n]);
            y.handler.world == StaleWorld(table, b, n)
            && (n >= 3 ==> y.daemon.storage == Loaded(Some(Image(7, table))))
    decreases n
  {
    hide After, Image, Loaded, Synchronises, TrackedStep;
    var es := Reached(StaleCalls(table, b));
    if n == 0 {
      AfterNone(None, d, es);
    } else {
      StaleAfter(d, table, b, n - 1);
      StaleStep(table, b, n - 1);
      AfterOne(None, d, es, n - 1);
    }
  }

  /** Whatever table the daemon accepts and whatever state it is in: an honest run of five calls,
      every one of them successful, after which the blob is committed but the file, and with it
      the daemon, has the bytes of the first commit and not those of the second. */
  lemma StaleFile(d: Daemon, table: seq<Byte>, b: Byte)
    requires 0 < |table| <= MAX_BUFFER_SIZE && Synchronises(Some(Image(7, table)))
    ensures var ops := StaleCalls(table, b);
            var es := Reached(ops);
            && HonestRun(None, d, es)
            && (forall n :: 0 <= n < 5 ==> Step(After(None, d, es[..n]).handler.world, ops[n]).1)
            && var y := After(None, d, es);
               && IsCommitted(y.handler.world) && y.handler.world.blob.value.buffer == table[|table| - 1 := b]
               && y.handler.world.file == Some(Image(7, table)) && y.daemon.storage == Padded(table)
  {
    hide After, Image, Synchronises, Loaded, Padded, Step;
    var ops := StaleCalls(table, b);
    var es := Reached(ops);
    ImageRoundTrip(7, table);
    forall n | 0 <= n < 5
      ensures Honest(After(None, d, es[..n]), es[n]) && Step(After(None, d, es[..n]).handler.world, ops[n]).1
    {
      StaleAfter(d, table, b, n);
      StaleStep(table, b, n);
    }
    StaleAfter(d, table, b, 5);
    assert es[..5] == es;
  }

  /** One such table: an entry point alone. Its last byte is 0, so the second commit loses a byte. */
  lemma StaleFileExample(d: Daemon)
    ensures var es := Reached(StaleCalls(ENTRY, 1));
            && HonestRun(None, d, es)
            && var y := After(None, d, es);
               && IsCommitted(y.handler.world) && y.handler.world.blob.value.buffer != ENTRY
               && y.handler.world.file == Some(Image(7, ENTRY)) && y.daemon.storage == Padded(ENTRY)
  {
    hide HonestRun, Image, Synchronises, Loaded, Padded, After;
    EntryAccepted();
    StaleFile(d, ENTRY, 1);
    EntryBytes();
  }
}
