/**
 The clients of the walker: they all alternate getSMBIOSTypePtr and smbiosNextPtr, each with
 its own loop. `Walk` is the one reference walk (all the records a type search selects, and
 how the walk ends); every loop is proved to agree with it on every storage, well-formed or not.
 */
module Walks {
  import opened Common
  import opened Bytes
  import opened Walker

  const LIMIT_ENTRY_LEN := 0xff
  const SYSTEM_SLOTS: Byte := 9
  const PHYSICAL_MEMORY_ARRAY: Byte := 16
  const MEMORY_DEVICE: Byte := 17
  const MEMORY_INFO_SIZE := 84

  /** The records selected, in order, and the pointer (null or wild) that ends the walk. */
  datatype Trail = Trail(hits: seq<nat>, end: Ptr)

  function Rank(s: seq<Byte>, p: Ptr): (n: nat)
  {
    if p.At? && p.off <= |s| then |s| - p.off + 1 else 0
  }

  function Walk(s: seq<Byte>, p: Ptr, t: Byte, size: nat): (w: Trail)
    ensures !w.end.At?
    decreases Rank(s, p)
  {
    match TypePtr(s, p, t, size)
    case At(q) =>
      var rest := Walk(s, Next(s, At(q)), t, size);
      Trail([q] + rest.hits, rest.end)
    case Null => Trail([], Null)
    case Wild => Trail([], Wild)
  }

  ghost predicate Ascending(hs: seq<nat>, lo: nat)
  {
    Increasing(hs) && forall i :: 0 <= i < |hs| ==> lo <= hs[i]
  }

  lemma AscendingCons(q: nat, hs: seq<nat>, lo: nat, mid: nat)
    requires lo <= q < mid && Ascending(hs, mid)
    ensures Ascending([q] + hs, lo)
  {
  }

  /** The walk only moves forward, so no record is selected twice. */
  lemma {:induction false} WalkAscends(s: seq<Byte>, p: Ptr, t: Byte, size: nat)
    requires p.At?
    ensures Ascending(Walk(s, p, t, size).hits, p.off)
    decreases Rank(s, p)
  {
    hide TypePtr, Next;
    match TypePtr(s, p, t, size)
    case At(q) =>
      var next := Next(s, At(q));
      if next.At? {
        WalkAscends(s, next, t, size);
        AscendingCons(q, Walk(s, next, t, size).hits, p.off, next.off);
      }
    case _ =>
  }

  /** Every selected record has the type and the minimum size asked for. */
  lemma {:induction false} WalkSelects(s: seq<Byte>, p: Ptr, t: Byte, size: nat, i: nat)
    requires i < |Walk(s, p, t, size).hits|
    ensures var h := Walk(s, p, t, size).hits[i]; h + 1 < |s| && s[h] == t && s[h + 1] >= size
    decreases i
  {
    hide TypePtr, Next;
    if i > 0 {
      WalkSelects(s, Next(s, TypePtr(s, p, t, size)), t, size, i - 1);
    }
  }

  /** The pointer the reference walk has at index `i`. */
  function Nth(w: Trail, i: nat): (p: Ptr)
  {
    if i < |w.hits| then At(w.hits[i]) else w.end
  }

  /** One step of a loop that has `n` records of the walk `w` behind it. */
  lemma WalkAdvances(s: seq<Byte>, p: Ptr, t: Byte, size: nat, w: Trail, n: nat)
    requires n <= |w.hits| && Walk(s, p, t, size) == Trail(w.hits[n..], w.end)
    ensures match TypePtr(s, p, t, size)
            case At(q) => && n < |w.hits| && q == w.hits[n]
                          && Walk(s, Next(s, At(q)), t, size) == Trail(w.hits[n + 1..], w.end)
            case e => n == |w.hits| && w.end == e
  {
    hide TypePtr, Next;
    if TypePtr(s, p, t, size).At? {
      var rest := Walk(s, Next(s, TypePtr(s, p, t, size)), t, size);
      assert w.hits[n..][1..] == rest.hits;
    }
  }

  // ----- Index lookup: getSMBIOSTypeIndexPtr, and the CPU and DIMM selection loops ---

  /** The same loop as Cpu::infoUpdate and Dimm::memoryInfoUpdate run with their own number. */
  method GetSMBIOSTypeIndexPtr(s: seq<Byte>, p: Ptr, t: Byte, target: Byte) returns (r: Ptr)
    ensures r == Nth(Walk(s, p, t, 0), target)
  {
    hide TypePtr, Next;
    ghost var w := Walk(s, p, t, 0);
    WalkAdvances(s, p, t, 0, w, 0);
    var dataIn := GetSMBIOSTypePtr(s, p, t, 0);
    if !dataIn.At? {
      return dataIn;
    }
    var index := 0;
    while index < target
      invariant 0 <= index <= target && index < |w.hits|
      invariant dataIn == At(w.hits[index])
      invariant Walk(s, Next(s, dataIn), t, 0) == Trail(w.hits[index + 1..], w.end)
    {
      dataIn := SmbiosNextPtr(s, dataIn);
      if !dataIn.At? {
        return dataIn;
      }
      WalkAdvances(s, dataIn, t, 0, w, index + 1);
      dataIn := GetSMBIOSTypePtr(s, dataIn, t, 0);
      if !dataIn.At? {
        return dataIn;
      }
      index := index + 1;
    }
    return dataIn;
  }

  // ----- Counting: getTotalNum and its CPU and DIMM copies --------------------------

  datatype Count = Total(num: nat) | Unsafe

  function Min(a: nat, b: nat): (m: nat)
  {
    if a < b then a else b
  }

  /** Whether the counting loop leaves the storage: it looks one `Next` past the 255th record. */
  ghost predicate CountLeaves(s: seq<Byte>, w: Trail)
  {
    && w.end.Wild?
    && (|w.hits| == LIMIT_ENTRY_LEN ==> Next(s, At(w.hits[LIMIT_ENTRY_LEN - 1])).Wild?)
    && |w.hits| <= LIMIT_ENTRY_LEN
  }

  method GetTotalNum(s: seq<Byte>, t: Byte, size: nat) returns (c: Count)
    ensures var w := Walk(s, At(0), t, size);
            c == if CountLeaves(s, w) then Unsafe else Total(Min(255, |w.hits|))
  {
    hide TypePtr, Next;
    ghost var w := Walk(s, At(0), t, size);
    var dataIn := At(0);
    var num := 0;
    while true
      invariant num <= |w.hits| && num < LIMIT_ENTRY_LEN
      invariant dataIn.At?
      invariant Walk(s, dataIn, t, size) == Trail(w.hits[num..], w.end)
      decreases Rank(s, dataIn)
    {
      WalkAdvances(s, dataIn, t, size, w, num);
      dataIn := GetSMBIOSTypePtr(s, dataIn, t, size);
      if dataIn.Wild? {
        return Unsafe;
      }
      if dataIn.Null? {
        break;
      }
      num := num + 1;
      dataIn := SmbiosNextPtr(s, dataIn);
      if dataIn.Wild? {
        return Unsafe;
      }
      if dataIn.Null? {
        break;
      }
      if num >= LIMIT_ENTRY_LEN {
        break;
      }
    }
    return Total(num);
  }

  /** systemInfoUpdate's object loop: count the records, then look each index up again. The
      two loops agree: no lookup comes back null, and object k gets the k-th record. */
  method SelectObjects(s: seq<Byte>, t: Byte) returns (c: Count, objects: seq<nat>)
    ensures c.Unsafe? <==> CountLeaves(s, Walk(s, At(0), t, 0))
    ensures c.Total? ==> c.num == Min(255, |Walk(s, At(0), t, 0).hits|)
                         && objects == Walk(s, At(0), t, 0).hits[..c.num]
    ensures Ascending(objects, 0)
  {
    hide Walk;
    objects := [];
    c := GetTotalNum(s, t, 0);
    if c.Unsafe? {
      return;
    }
    for index := 0 to c.num
      invariant objects == Walk(s, At(0), t, 0).hits[..index]
    {
      var r := GetSMBIOSTypeIndexPtr(s, At(0), t, index);
      objects := objects + [r.off];
    }
    WalkAscends(s, At(0), t, 0);
  }

  // ----- Records with a minimum size: getRecordType ----------------------------------

  /** The records GetRecordType(17) reports: the do-while loop. */
  method GetRecordType(s: seq<Byte>) returns (records: seq<nat>, end: Ptr)
    ensures Trail(records, end) == Walk(s, At(0), 17, 84)
  {
    hide TypePtr, Next;
    ghost var w := Walk(s, At(0), MEMORY_DEVICE, MEMORY_INFO_SIZE);
    records := [];
    var dataIn := At(0);
    while true
      invariant dataIn.At?
      invariant |records| <= |w.hits| && records == w.hits[..|records|]
      invariant Walk(s, dataIn, MEMORY_DEVICE, MEMORY_INFO_SIZE) == Trail(w.hits[|records|..], w.end)
      decreases Rank(s, dataIn)
    {
      WalkAdvances(s, dataIn, MEMORY_DEVICE, MEMORY_INFO_SIZE, w, |records|);
      dataIn := GetSMBIOSTypePtr(s, dataIn, MEMORY_DEVICE, MEMORY_INFO_SIZE);
      if !dataIn.At? {
        return records, dataIn;
      }
      records := records + [dataIn.off];
      dataIn := SmbiosNextPtr(s, dataIn);
      if !dataIn.At? {
        return records, dataIn;
      }
    }
  }

  ghost predicate LongEnough(s: seq<Byte>, hs: seq<nat>, size: nat)
  {
    forall i :: 0 <= i < |hs| ==> hs[i] + 1 < |s| && s[hs[i] + 1] >= size
  }

  /** `some` is the longest prefix of `all` whose records are all long enough. */
  ghost predicate LongestPrefix(s: seq<Byte>, all: seq<nat>, some: seq<nat>, size: nat)
  {
    && some <= all
    && LongEnough(s, some, size)
    && (|some| < |all| ==> all[|some|] + 1 < |s| && s[all[|some|] + 1] < size)
  }

  lemma LongestPrefixCons(s: seq<Byte>, q: nat, all: seq<nat>, some: seq<nat>, size: nat)
    requires q + 1 < |s| && s[q + 1] >= size && LongestPrefix(s, all, some, size)
    ensures LongestPrefix(s, [q] + all, [q] + some, size)
  {
  }

  /** A minimum size cuts the walk at the first short record instead of skipping it. */
  lemma {:induction false} MinSizeIsLongestPrefix(s: seq<Byte>, p: Ptr, t: Byte, size: nat)
    ensures LongestPrefix(s, Walk(s, p, t, 0).hits, Walk(s, p, t, size).hits, size)
    decreases Rank(s, p)
  {
    hide TypePtr, Next;
    TypePtrMinSize(s, p, t, size);
    match TypePtr(s, p, t, 0)
    case At(q) =>
      if s[q + 1] >= size {
        var next := Next(s, At(q));
        MinSizeIsLongestPrefix(s, next, t, size);
        LongestPrefixCons(s, q, Walk(s, next, t, 0).hits, Walk(s, next, t, size).hits, size);
      }
    case _ =>
  }

  lemma TypePtrMinSize(s: seq<Byte>, p: Ptr, t: Byte, size: nat)
    ensures TypePtr(s, p, t, size) ==
            match TypePtr(s, p, t, 0)
            case At(q) => if s[q + 1] < size then Null else At(q)
            case Null => Null
            case Wild => Wild
  {
    match SkipEntryPoint(s, p)
    case At(q) => SearchMinSize(s, q, t, size);
    case _ =>
  }

  lemma {:induction false} SearchMinSize(s: seq<Byte>, p: nat, t: Byte, size: nat)
    ensures Search(s, p, t, size) ==
            match Search(s, p, t, 0)
            case At(q) => if s[q + 1] < size then Null else At(q)
            case Null => Null
            case Wild => Wild
    decreases |s| - p
  {
    if p + 1 < |s| && !PairZero(s, p) && s[p] != t {
      match Scan(s, p + s[p + 1], s[p + 1])
      case At(q) => SearchMinSize(s, q, t, size);
      case _ =>
    }
  }

  /** GetRecordType reports as many records as there are DIMM objects exactly when no
      memory-device record is shorter than MemoryInfo, or, beyond the 255 that are counted, when
      the 256th is the first that is. */
  lemma RecordsMatchDimms(s: seq<Byte>)
    ensures var all, some := Walk(s, At(0), 17, 0).hits,
                             Walk(s, At(0), 17, 84).hits;
            |some| == Min(255, |all|) <==>
              if |all| <= 255 then LongEnough(s, all, 84)
              else && LongEnough(s, all[..255], 84)
                   && !LongEnough(s, all[..255 + 1], 84)
  {
    hide Walk, LongestPrefix, LongEnough;
    MinSizeIsLongestPrefix(s, At(0), MEMORY_DEVICE, MEMORY_INFO_SIZE);
    var all, some := Walk(s, At(0), MEMORY_DEVICE, 0).hits, Walk(s, At(0), MEMORY_DEVICE, MEMORY_INFO_SIZE).hits;
    PrefixReaches(s, all, some, MEMORY_INFO_SIZE, Min(LIMIT_ENTRY_LEN, |all|));
    if |all| > LIMIT_ENTRY_LEN {
      PrefixReaches(s, all, some, MEMORY_INFO_SIZE, LIMIT_ENTRY_LEN + 1);
    }
    assert all[..|all|] == all;
    assert |some| <= |all| by { PrefixReaches(s, all, some, MEMORY_INFO_SIZE, 0); }
  }

  lemma PrefixReaches(s: seq<Byte>, all: seq<nat>, some: seq<nat>, size: nat, n: nat)
    requires LongestPrefix(s, all, some, size) && n <= |all|
    ensures |some| <= |all|
    ensures n <= |some| <==> LongEnough(s, all[..n], size)
  {
    if n > |some| {
      assert all[..n][|some|] == all[|some|];
    }
  }

  // ----- The type-16 search of Dimm::updateEccType ----------------------------------

  function EccSearch(s: seq<Byte>, p: Ptr, handle: Word16): (r: Ptr)
    ensures !p.At? ==> r == p
    decreases Rank(s, p)
  {
    if !p.At? then p
    else
      match TypePtr(s, p, PHYSICAL_MEMORY_ARRAY, 0)
      case At(q) =>
        if q + HEADER_SIZE > |s| then Wild
        else if Le16(s, q + 2) == handle then At(q)
        else EccSearch(s, Next(s, At(q)), handle)
      case Null => Null
      case Wild => Wild
  }

  method UpdateEccType(s: seq<Byte>, handle: Word16) returns (r: Ptr)
    ensures r == EccSearch(s, At(0), handle)
  {
    hide TypePtr, Next;
    var dataIn := At(0);
    while dataIn.At?
      invariant EccSearch(s, dataIn, handle) == EccSearch(s, At(0), handle)
      decreases Rank(s, dataIn)
    {
      dataIn := GetSMBIOSTypePtr(s, dataIn, PHYSICAL_MEMORY_ARRAY, 0);
      if !dataIn.At? {
        return dataIn;
      }
      if dataIn.off + HEADER_SIZE > |s| {
        return Wild;
      }
      if Le16(s, dataIn.off + 2) == handle {
        return dataIn;
      }
      dataIn := SmbiosNextPtr(s, dataIn);
    }
    return dataIn;
  }

  // ----- PCIe slots: getTotalPcieSlot and the selection loop of pcieInfoUpdate -------

  const SLOT_TYPE_OFFSET := 5
  /** The slot types of the pcieSmbiosType table, which does not list 0x1e. */
  predicate PcieSlotType(b: Byte)
  {
    b == 0x09 || 0x14 <= b <= 0x1d || 0x1f <= b <= 0x29 || 0xa5 <= b <= 0xc6
  }

  predicate IsPcie(s: seq<Byte>, q: nat)
    requires q + SLOT_TYPE_OFFSET < |s|
  {
    PcieSlotType(s[q + SLOT_TYPE_OFFSET])
  }

  /** The PCIe slots among the system-slot records. */
  function PcieWalk(s: seq<Byte>, p: Ptr): (w: Trail)
    ensures !w.end.At?
    decreases Rank(s, p)
  {
    match TypePtr(s, p, SYSTEM_SLOTS, 0)
    case At(q) =>
      if q + SLOT_TYPE_OFFSET >= |s| then Trail([], Wild)
      else
        var rest := PcieWalk(s, Next(s, At(q)));
        if IsPcie(s, q) then Trail([q] + rest.hits, rest.end) else rest
    case Null => Trail([], Null)
    case Wild => Trail([], Wild)
  }

  ghost function PcieOnly(s: seq<Byte>, hs: seq<nat>): (r: seq<nat>)
    requires forall i :: 0 <= i < |hs| ==> hs[i] + SLOT_TYPE_OFFSET < |s|
  {
    if hs == [] then []
    else if IsPcie(s, hs[0]) then [hs[0]] + PcieOnly(s, hs[1..])
    else PcieOnly(s, hs[1..])
  }

  /** The PCIe walk is the plain walk, filtered. */
  lemma {:induction false} PcieWalkFilters(s: seq<Byte>, p: Ptr)
    requires forall i :: 0 <= i < |Walk(s, p, SYSTEM_SLOTS, 0).hits| ==>
               Walk(s, p, SYSTEM_SLOTS, 0).hits[i] + SLOT_TYPE_OFFSET < |s|
    ensures var w := Walk(s, p, SYSTEM_SLOTS, 0);
            PcieWalk(s, p) == Trail(PcieOnly(s, w.hits), w.end)
    decreases Rank(s, p)
  {
    hide TypePtr, Next;
    var q := TypePtr(s, p, SYSTEM_SLOTS, 0);
    if p.At? && q.At? {
      var w, rest := Walk(s, p, SYSTEM_SLOTS, 0), Walk(s, Next(s, q), SYSTEM_SLOTS, 0);
      assert w.hits[1..] == rest.hits;
      forall i | 0 <= i < |rest.hits| ensures rest.hits[i] + SLOT_TYPE_OFFSET < |s| {
        assert rest.hits[i] == w.hits[i + 1];
      }
      PcieWalkFilters(s, Next(s, q));
    }
  }

  lemma {:induction false} PcieWalkAscends(s: seq<Byte>, p: Ptr)
    requires p.At?
    ensures Ascending(PcieWalk(s, p).hits, p.off)
    decreases Rank(s, p)
  {
    hide TypePtr, Next;
    match TypePtr(s, p, SYSTEM_SLOTS, 0)
    case At(q) =>
      var next := Next(s, At(q));
      if next.At? {
        PcieWalkAscends(s, next);
        AscendingCons(q, PcieWalk(s, next).hits, p.off, next.off);
      }
    case _ =>
  }

  method GetTotalPcieSlot(s: seq<Byte>) returns (c: Count)
    ensures var w := PcieWalk(s, At(0));
            c == if CountLeaves(s, w) then Unsafe else Total(Min(255, |w.hits|))
  {
    hide TypePtr, Next;
    ghost var w := PcieWalk(s, At(0));
    var dataIn := At(0);
    var num := 0;
    while true
      invariant num <= |w.hits| && num < LIMIT_ENTRY_LEN
      invariant dataIn.At?
      invariant PcieWalk(s, dataIn) == Trail(w.hits[num..], w.end)
      decreases Rank(s, dataIn)
    {
      dataIn := GetSMBIOSTypePtr(s, dataIn, SYSTEM_SLOTS, 0);
      if dataIn.Null? {
        break;
      }
      if dataIn.Wild? || dataIn.off + SLOT_TYPE_OFFSET >= |s| {
        return Unsafe;
      }
      if IsPcie(s, dataIn.off) {
        assert dataIn == At(w.hits[num]);
        assert PcieWalk(s, Next(s, dataIn)) == Trail(w.hits[num + 1..], w.end);
        num := num + 1;
      }
      dataIn := SmbiosNextPtr(s, dataIn);
      if dataIn.Wild? {
        return Unsafe;
      }
      if dataIn.Null? {
        break;
      }
      if num >= LIMIT_ENTRY_LEN {
        break;
      }
    }
    return Total(num);
  }

  /** The first system-slot record is itself a PCIe slot. */
  ghost predicate FirstSlotIsPcie(s: seq<Byte>)
  {
    var first := TypePtr(s, At(0), SYSTEM_SLOTS, 0);
    first.At? && first.off + SLOT_TYPE_OFFSET < |s| && IsPcie(s, first.off)
  }

  /** The rank, among the PCIe slots, of the slot that object `k` reads. */
  ghost function PcieRank(s: seq<Byte>, k: nat): (rank: nat)
  {
    if FirstSlotIsPcie(s) || k == 0 then k else k - 1
  }

  /** What the loop will select, when it stands on record `q` with counter `index`. */
  ghost function PcieGoal(s: seq<Byte>, q: nat, index: nat, pcieNum: nat): (r: Ptr)
    requires q + SLOT_TYPE_OFFSET < |s|
  {
    if index < pcieNum then Nth(PcieWalk(s, Next(s, At(q))), pcieNum - index - 1)
    else if !IsPcie(s, q) then Nth(PcieWalk(s, Next(s, At(q))), 0)
    else At(q)
  }

  method SelectPcieSlot(s: seq<Byte>, pcieNum: Byte) returns (r: Ptr)
    ensures r == Nth(PcieWalk(s, At(0)), PcieRank(s, pcieNum))
  {
    hide TypePtr, Next;
    ghost var goal := Nth(PcieWalk(s, At(0)), PcieRank(s, pcieNum));
    var dataIn := GetSMBIOSTypePtr(s, At(0), SYSTEM_SLOTS, 0);
    if !dataIn.At? {
      return dataIn;
    }
    if dataIn.off + SLOT_TYPE_OFFSET >= |s| {
      return Wild;
    }
    var index := 0;
    while index < pcieNum || !IsPcie(s, dataIn.off)
      invariant dataIn.At? && dataIn.off + SLOT_TYPE_OFFSET < |s|
      invariant 0 <= index <= 0xff  // an 8-bit counter that does not wrap
      invariant index <= 1 || index <= pcieNum
      invariant index == 0 || index < pcieNum || IsPcie(s, dataIn.off)
      invariant PcieGoal(s, dataIn.off, index, pcieNum) == goal
      decreases Rank(s, dataIn)
    {
      dataIn := SmbiosNextPtr(s, dataIn);
      if !dataIn.At? {
        return dataIn;
      }
      dataIn := GetSMBIOSTypePtr(s, dataIn, SYSTEM_SLOTS, 0);
      if !dataIn.At? {
        return dataIn;
      }
      if dataIn.off + SLOT_TYPE_OFFSET >= |s| {
        return Wild;
      }
      if IsPcie(s, dataIn.off) {
        index := index + 1;
      }
    }
    return dataIn;
  }

  /** When the first slot record is a PCIe slot, object k reads slot k. */
  lemma PcieBijection(s: seq<Byte>, k: nat)
    requires FirstSlotIsPcie(s) && k < |PcieWalk(s, At(0)).hits|
    ensures var w := PcieWalk(s, At(0)); Nth(w, PcieRank(s, k)) == At(w.hits[k])
  {
  }

  /** Otherwise objects 0 and 1 read the same slot, and no object reads the last one. */
  lemma PcieShift(s: seq<Byte>)
    requires !FirstSlotIsPcie(s)
    requires 2 <= |PcieWalk(s, At(0)).hits|
    ensures var w := PcieWalk(s, At(0));
            && Nth(w, PcieRank(s, 0)) == Nth(w, PcieRank(s, 1)) == At(w.hits[0])
            && forall k :: 0 <= k < |w.hits| ==>
                 Nth(w, PcieRank(s, k)).At? && Nth(w, PcieRank(s, k)) != At(w.hits[|w.hits| - 1])
  {
    PcieWalkAscends(s, At(0));
  }

  /** The objects created for the counted slots read different slots if and only if the first
      slot record is a PCIe slot or there is at most one PCIe slot. */
  lemma PcieDistinctExactly(s: seq<Byte>)
    ensures var w := PcieWalk(s, At(0));
            (forall i, j :: 0 <= i < j < |w.hits| ==> Nth(w, PcieRank(s, i)) != Nth(w, PcieRank(s, j)))
            <==> FirstSlotIsPcie(s) || |w.hits| <= 1
  {
    hide PcieWalk, FirstSlotIsPcie;
    PcieWalkAscends(s, At(0));
    var w := PcieWalk(s, At(0));
    if !FirstSlotIsPcie(s) && |w.hits| > 1 {
      assert Nth(w, PcieRank(s, 0)) == Nth(w, PcieRank(s, 1));
    }
  }

  /** A table of three slot records: an ISA slot, then two PCIe slots. */
  const SHIFTED_SLOTS: seq<Byte> :=
    [9, 6, 1, 0, 0, 0x03, 0, 0,
     9, 6, 2, 0, 0, 0xa5, 0, 0,
     9, 6, 3, 0, 0, 0xa6, 0, 0,
     0, 0, 0, 0, 0]

  lemma SlotAt(s: seq<Byte>, q: nat)
    requires q + 8 <= |s| && s[q] == SYSTEM_SLOTS && s[q + 1] == 6 && s[q + 6] == 0 && s[q + 7] == 0
    ensures TypePtr(s, At(q), SYSTEM_SLOTS, 0) == At(q) && Next(s, At(q)) == At(q + 8)
  {
    assert PairZero(s, q + 6);
  }

  lemma TableEndAt(s: seq<Byte>, q: nat)
    requires q + 5 <= |s| && s[q] == 0 && s[q + 1] == 0
    ensures TypePtr(s, At(q), SYSTEM_SLOTS, 0) == Null
  {
  }

  const SHIFTED_STORAGE: seq<Byte> := SHIFTED_SLOTS + Zeros(STORAGE_SIZE - |SHIFTED_SLOTS|)

  /** In a 64 KiB storage that starts with it, the two objects created both read the slot at
      offset 8, and the one at 16 is lost. */
  lemma PcieShiftExample()
    ensures var s := SHIFTED_STORAGE;
            && |s| == STORAGE_SIZE
            && PcieWalk(s, At(0)) == Trail([8, 16], Null)
            && Nth(PcieWalk(s, At(0)), PcieRank(s, 0)) == Nth(PcieWalk(s, At(0)), PcieRank(s, 1)) == At(8)
  {
    hide TypePtr, Next;
    var s := SHIFTED_STORAGE;
    assert forall i :: 0 <= i < |SHIFTED_SLOTS| ==> s[i] == SHIFTED_SLOTS[i];
    SlotAt(s, 0);
    SlotAt(s, 8);
    SlotAt(s, 16);
    TableEndAt(s, 24);
    assert !IsPcie(s, 0) && IsPcie(s, 8) && IsPcie(s, 16);
    assert PcieWalk(s, At(24)) == Trail([], Null);
    assert PcieWalk(s, At(16)) == Trail([16], Null);
    assert PcieWalk(s, At(8)) == Trail([8, 16], Null);
  }
}
