/**
 The cache file /var/lib/smbios/smbios2 and the daemon's side of it: MDRV2::readDataFromFlash,
 checkSMBIOSVersion and agentSynchronizeData. Integers are stored little-endian, as on the
 machines that write and read the file.
 */
module Flash {
  import opened Common
  import opened Bytes
  import Walker
  import EntryPoint

  const MDR_HEADER_SIZE := 10
  const MDR_DIR_VERSION: Byte := 1
  const MDR_TYPE_II: Byte := 2

  /** The packed 10-byte header. */
  datatype MdrHeader = MdrHeader(dirVer: Byte, mdrType: Byte, timestamp: Word32, dataSize: Word32)

  function EncodeHeader(h: MdrHeader): (b: seq<Byte>)
    ensures |b| == 10 && b[0] == h.dirVer && b[1] == h.mdrType
    ensures Le32(b, 2) == h.timestamp && Le32(b, 6) == h.dataSize
  {
    [h.dirVer, h.mdrType] + Enc32(h.timestamp) + Enc32(h.dataSize)
  }

  function DecodeHeader(b: seq<Byte>): (h: MdrHeader)
    requires |b| >= MDR_HEADER_SIZE
  {
    MdrHeader(b[0], b[1], Le32(b, 2), Le32(b, 6))
  }

  lemma HeaderRoundTrip(h: MdrHeader, rest: seq<Byte>)
    ensures DecodeHeader(EncodeHeader(h) + rest) == h
  {
    var b, t, d := EncodeHeader(h) + rest, Enc32(h.timestamp), Enc32(h.dataSize);
    assert b[2] == t[0] && b[3] == t[1] && b[4] == t[2] && b[5] == t[3];
    assert b[6] == d[0] && b[7] == d[1] && b[8] == d[2] && b[9] == d[3];
  }

  /** The file a commit of `buffer` at time `now` writes. */
  function Image(now: Word32, buffer: seq<Byte>): (b: seq<Byte>)
  {
    EncodeHeader(MdrHeader(MDR_DIR_VERSION, MDR_TYPE_II, now, |buffer| % 0x1_0000_0000)) + buffer
  }

  // ----- Reading the file -----------------------------------------------------------

  datatype FlashRead = Rejected | Accepted(header: MdrHeader, data: seq<Byte>)

  /** What readDataFromFlash makes of a file: a short file gives the bytes it has. */
  function ReadFile(file: Option<seq<Byte>>): (r: FlashRead)
    ensures r.Accepted? ==> |r.data| <= r.header.dataSize <= STORAGE_SIZE
  {
    match file
    case None => Rejected
    case Some(b) =>
      if |b| < MDR_HEADER_SIZE then Rejected
      else
        var h, body := DecodeHeader(b), b[MDR_HEADER_SIZE..];
        if h.dataSize > STORAGE_SIZE then Rejected
        else if |body| < h.dataSize then Accepted(h, body)
        else Accepted(h, body[..h.dataSize])
  }

  /** Any file with a header that announces at most 64 KiB is accepted, and what it has of the
      announced bytes is its data. */
  lemma ReadFileExactly(b: seq<Byte>)
    ensures ReadFile(Some(b)).Accepted? <==> |b| >= 10 && Le32(b, 6) <= 0x1_0000
    ensures |b| >= 10 && Le32(b, 6) <= 0x1_0000 ==>
              var n: nat := Le32(b, 6);
              ReadFile(Some(b)) == Accepted(MdrHeader(b[0], b[1], Le32(b, 2), n),
                                            if 10 + n <= |b| then b[10..10 + n] else b[10..])
  {
    hide Le32;
    if |b| >= 10 {
      var n: nat := Le32(b, 6);
      assert 10 + n <= |b| ==> b[10..][..n] == b[10..10 + n];
    }
  }

  function Padded(data: seq<Byte>): (s: seq<Byte>)
    requires |data| <= STORAGE_SIZE
    ensures |s| == STORAGE_SIZE
  {
    data + Zeros(STORAGE_SIZE - |data|)
  }

  /** The storage after a synchronisation, whether or not it succeeds. */
  function Loaded(file: Option<seq<Byte>>): (s: seq<Byte>)
    ensures |s| == STORAGE_SIZE
  {
    match ReadFile(file)
    case Rejected => Zeros(STORAGE_SIZE)
    case Accepted(_, data) => Padded(data)
  }

  /** Every committed image is accepted and loads as the staged buffer, zero-padded. */
  lemma ImageRoundTrip(now: Word32, buffer: seq<Byte>)
    requires |buffer| <= STORAGE_SIZE
    ensures ReadFile(Some(Image(now, buffer)))
            == Accepted(MdrHeader(MDR_DIR_VERSION, MDR_TYPE_II, now, |buffer|), buffer)
    ensures Loaded(Some(Image(now, buffer))) == Padded(buffer)
  {
    var h := MdrHeader(MDR_DIR_VERSION, MDR_TYPE_II, now, |buffer|);
    hide DecodeHeader, EncodeHeader, Padded, ReadFile;
    var b := EncodeHeader(h) + buffer;
    assert Image(now, buffer) == b by { ImageUnfold(now, buffer); }
    HeaderRoundTrip(h, buffer);
    WholeFile(b, h);
    assert b[MDR_HEADER_SIZE..] == buffer;
  }

  lemma ImageUnfold(now: Word32, buffer: seq<Byte>)
    requires |buffer| <= STORAGE_SIZE
    ensures Image(now, buffer) == EncodeHeader(MdrHeader(MDR_DIR_VERSION, MDR_TYPE_II, now, |buffer|)) + buffer
  {
    hide EncodeHeader;
  }

  lemma WholeFile(b: seq<Byte>, h: MdrHeader)
    requires |b| >= MDR_HEADER_SIZE && DecodeHeader(b) == h && |b| - MDR_HEADER_SIZE == h.dataSize <= STORAGE_SIZE
    ensures ReadFile(Some(b)) == Accepted(h, b[MDR_HEADER_SIZE..])
  {
    hide DecodeHeader;
    var body := b[MDR_HEADER_SIZE..];
    assert body[..|body|] == body;
  }

  // ----- The SMBIOS version check ---------------------------------------------------

  const ANCHOR21: seq<Byte> := [0x5f, 0x53, 0x4d, 0x5f]
  const ENTRY21_SIZE := 31
  const ENTRY21_VERSION := 6
  const ENTRY30_VERSION := 7
  const SUPPORTED_VERSIONS: seq<(Byte, Byte)> := [(3, 0), (3, 2), (3, 3), (3, 5), (3, 6)]

  predicate MatchAt(s: seq<Byte>, pat: seq<Byte>, i: nat)
  {
    i + |pat| <= |s| && s[i..i + |pat|] == pat
  }

  ghost predicate Occurs(s: seq<Byte>, pat: seq<Byte>)
  {
    exists i: nat :: MatchAt(s, pat, i)
  }

  ghost predicate FirstMatch(s: seq<Byte>, pat: seq<Byte>, i: nat)
  {
    MatchAt(s, pat, i) && forall j: nat :: j < i ==> !MatchAt(s, pat, j)
  }

  /** std::search: the first occurrence, or the end. */
  method FindPattern(s: seq<Byte>, pat: seq<Byte>) returns (i: nat)
    requires pat != []
    ensures i == |s| <==> !Occurs(s, pat)
    ensures i < |s| ==> FirstMatch(s, pat, i)
    ensures i <= |s|
  {
    i := 0;
    while i + |pat| <= |s|
      invariant 0 <= i <= |s|
      invariant forall j: nat :: j < i ==> !MatchAt(s, pat, j)
    {
      if MatchAt(s, pat, i) {
        return;
      }
      i := i + 1;
    }
    i := |s|;
  }

  /** A 2.1 anchor anywhere in the storage takes precedence over a 3.0 entry point. */
  ghost predicate VersionOk(s: seq<Byte>)
  {
    if Occurs(s, ANCHOR21) then
      exists p: nat :: FirstMatch(s, ANCHOR21, p) && p + ENTRY21_SIZE <= |s|
                       && (s[p + ENTRY21_VERSION], s[p + ENTRY21_VERSION + 1]) in SUPPORTED_VERSIONS
    else
      exists p: nat :: FirstMatch(s, Walker.ANCHOR30, p) && p + Walker.ENTRY_POINT_SIZE <= |s|
                       && (s[p + ENTRY30_VERSION], s[p + ENTRY30_VERSION + 1]) in SUPPORTED_VERSIONS
  }

  /** The versions the daemon takes. */
  predicate Supported(major: Byte, minor: Byte)
  {
    major == 3 && (minor == 0 || minor == 2 || minor == 3 || minor == 5 || minor == 6)
  }

  lemma SupportedExactly(major: Byte, minor: Byte)
    ensures (major, minor) in SUPPORTED_VERSIONS <==> Supported(major, minor)
  {
    var v := SUPPORTED_VERSIONS;
    assert v[0] == (3, 0) && v[1] == (3, 2) && v[2] == (3, 3) && v[3] == (3, 5) && v[4] == (3, 6);
  }

  /** A storage whose first "_SM_" heads a printed 32-bit entry point is judged by its version,
      whatever 64-bit entry point there may be. */
  lemma Version32(s: seq<Byte>, p: nat, e: EntryPoint.Entry32)
    requires EntryPoint.Entry32At(s, p, e) && FirstMatch(s, [0x5f, 0x53, 0x4d, 0x5f], p)
    ensures VersionOk(s) <==> Supported(e.major, e.minor)
  {
    hide EntryPoint.Entry32At, MatchAt;
    EntryPoint.Fields32(s, p, e);
    SupportedExactly(e.major, e.minor);
    assert p + 31 <= |s| by { Entry32Inside(s, p, e); }
    assert Occurs(s, ANCHOR21);
  }

  lemma Entry32Inside(s: seq<Byte>, p: nat, e: EntryPoint.Entry32)
    requires EntryPoint.Entry32At(s, p, e)
    ensures p + 31 <= |s|
  {
  }

  /** With no "_SM_" anywhere, the first "_SM3_" decides, if it heads a 64-bit entry point. */
  lemma Version64(s: seq<Byte>, p: nat, e: EntryPoint.Entry64)
    requires !Occurs(s, [0x5f, 0x53, 0x4d, 0x5f])
    requires EntryPoint.Entry64At(s, p, e) && FirstMatch(s, [0x5f, 0x53, 0x4d, 0x33, 0x5f], p)
    ensures VersionOk(s) <==> Supported(e.major, e.minor)
  {
    hide MatchAt, EntryPoint.Print64;
    EntryPoint.Fields64(s, p, e);
    SupportedExactly(e.major, e.minor);
  }

  method CheckSMBIOSVersion(s: seq<Byte>) returns (ok: bool)
    ensures ok <==> VersionOk(s)
  {
    var it := FindPattern(s, ANCHOR21);
    var found21 := it != |s|;
    if !found21 {
      it := FindPattern(s, Walker.ANCHOR30);
      if it == |s| {
        return false;
      }
    }
    var length := |s| - it;
    var version: (Byte, Byte);
    if found21 {
      if length < ENTRY21_SIZE {
        return false;
      }
      version := (s[it + ENTRY21_VERSION], s[it + ENTRY21_VERSION + 1]);
    } else {
      if length < Walker.ENTRY_POINT_SIZE {
        return false;
      }
      version := (s[it + ENTRY30_VERSION], s[it + ENTRY30_VERSION + 1]);
    }
    return version in SUPPORTED_VERSIONS;
  }

  // ----- The daemon -----------------------------------------------------------------

  datatype Stage = Init | StageLoaded | Updated | Updating
  datatype Lock = Unlock | Locked

  /** The daemon's storage and directory entry as a value. */
  datatype Daemon = Daemon(storage: seq<Byte>, dataVersion: Byte, timestamp: Word32, size: Word32,
                           stage: Stage, lock: Lock)

  /** A synchronisation with this file succeeds. */
  ghost predicate Synchronises(file: Option<seq<Byte>>)
  {
    ReadFile(file).Accepted? && VersionOk(Loaded(file))
  }

  /** The storage is replaced before the file is judged: a failed synchronisation loses the old
      table but keeps the old version, time, size, stage and lock. */
  ghost function Synchronised(d: Daemon, file: Option<seq<Byte>>): (r: Daemon)
  {
    if Synchronises(file) then
      var h := ReadFile(file).header;
      Daemon(Loaded(file), h.dirVer, h.timestamp, h.dataSize, StageLoaded, Unlock)
    else
      d.(storage := Loaded(file))
  }

  /** The directory entry of the SMBIOS agent and its 64 KiB storage. */
  class Mdr {
    const storage: array<Byte>
    var dataVersion: Byte
    var timestamp: Word32
    var size: Word32
    var stage: Stage
    var lock: Lock

    ghost predicate Valid()
      reads this
    {
      storage.Length == STORAGE_SIZE
    }

    ghost function View(): (d: Daemon)
      reads this, storage
    {
      Daemon(storage[..], dataVersion, timestamp, size, stage, lock)
    }

    constructor ()
      ensures Valid() && fresh(storage) && storage[..] == Zeros(STORAGE_SIZE) && stage == Init
    {
      storage := new Byte[STORAGE_SIZE](_ => 0);
      dataVersion, timestamp, size, stage, lock := 0, 0, 0, Init, Unlock;
      new;
      assert storage[..] == Zeros(STORAGE_SIZE);
    }

    /** std::fill_n over the storage. */
    method Clear()
      requires Valid()
      modifies storage
      ensures storage[..] == Zeros(STORAGE_SIZE)
    {
      var i := 0;
      while i < STORAGE_SIZE
        invariant 0 <= i <= STORAGE_SIZE
        invariant forall k :: 0 <= k < i ==> storage[k] == 0
      {
        storage[i] := 0;
        i := i + 1;
      }
    }

    /** Copies the file's data over the front of the storage; the rest is left alone. */
    method ReadDataFromFlash(file: Option<seq<Byte>>) returns (ok: bool, header: MdrHeader)
      requires Valid()
      modifies storage
      ensures ok <==> ReadFile(file).Accepted?
      ensures ok ==> header == ReadFile(file).header
                     && storage[..] == ReadFile(file).data + old(storage[..])[|ReadFile(file).data|..]
      ensures !ok ==> storage[..] == old(storage[..])
    {
      header := MdrHeader(0, 0, 0, 0);
      if file.None? || |file.value| < MDR_HEADER_SIZE {
        return false, header;
      }
      var b := file.value;
      header := DecodeHeader(b);
      if header.dataSize > STORAGE_SIZE {
        return false, header;
      }
      var fileLength := |b| - MDR_HEADER_SIZE;
      var n: nat := if fileLength < header.dataSize then fileLength else header.dataSize;
      var i := 0;
      while i < n
        invariant 0 <= i <= n
        invariant forall k :: 0 <= k < i ==> storage[k] == b[MDR_HEADER_SIZE + k]
        invariant forall k :: i <= k < STORAGE_SIZE ==> storage[k] == old(storage[k])
      {
        storage[i] := b[MDR_HEADER_SIZE + i];
        i := i + 1;
      }
      ghost var data := ReadFile(file).data;
      assert |data| == n && forall k :: 0 <= k < n ==> data[k] == b[MDR_HEADER_SIZE + k];
      ok := true;
    }

    method AgentSynchronizeData(file: Option<seq<Byte>>) returns (ok: bool)
      requires Valid()
      modifies this, storage
      ensures Valid()
      ensures ok <==> Synchronises(file)
      ensures View() == Synchronised(old(View()), file)
    {
      hide VersionOk, ReadFile;
      Clear();
      var header;
      ok, header := ReadDataFromFlash(file);
      if !ok {
        return false;
      }
      ghost var data := ReadFile(file).data;
      assert Zeros(STORAGE_SIZE)[|data|..] == Zeros(STORAGE_SIZE - |data|);
      ok := CheckSMBIOSVersion(storage[..]);
      if !ok {
        return false;
      }
      dataVersion := header.dirVer;
      timestamp := header.timestamp;
      size := header.dataSize;
      stage := StageLoaded;
      lock := Unlock;
    }
  }
}
