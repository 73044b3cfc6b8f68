/**
 Memory safety of the walker on arbitrary bytes. agentSynchronizeData zeroes the storage
 before it copies an image in, so the data is followed by zeros. If at least 260 of them
 follow, then whatever the data bytes are, a walk leaves the storage if and only if an entry
 point at a boundary where it starts a search points outside; string lookups never do.
 */
module WalkSafety {
  import opened Common
  import opened Bytes
  import opened Walker
  import opened Walks

  /** A structure starts at least two bytes before the end of the data, its length takes the
      scan at most 255 bytes further, the separator adds two, and the entry-point test that
      follows reads 5 bytes there. */
  const TAIL := 260
  const REACH := 255

  ghost predicate ZeroTail(s: seq<Byte>, end: nat)
  {
    end + TAIL <= |s| && forall i :: end <= i < |s| ==> s[i] == 0
  }

  /** A pointer the walk may hold between two steps. */
  ghost predicate Reachable(p: Ptr, end: nat)
  {
    p.Null? || (p.At? && p.off <= end + REACH)
  }

  /** A search started at `p` lands inside the storage: there is no entry point there, or its
      table address leads to a readable pair of bytes, or it is too large to be followed. */
  ghost predicate LandsInside(s: seq<Byte>, p: nat)
  {
    p + ENTRY_POINT_SIZE <= |s| && AnchorAt(s, p) && TableAddr(s, p) < MDR_SMBIOS_SIZE ==>
      p + TableAddr(s, p) + 1 < |s|
  }

  /** Every search of the walk lands inside: the condition is asked only of the boundaries at
      which the walk does start a search. */
  ghost predicate SearchesLandInside(s: seq<Byte>, p: Ptr, t: Byte, size: nat)
    decreases Rank(s, p)
  {
    p.At? ==>
      && LandsInside(s, p.off)
      && match TypePtr(s, p, t, size)
         case At(q) => SearchesLandInside(s, Next(s, At(q)), t, size)
         case _ => true
  }

  lemma {:induction false} ScanSafe(s: seq<Byte>, end: nat, d: nat, len: nat)
    requires ZeroTail(s, end)
    requires d <= end + REACH - 2
    ensures Reachable(Scan(s, d, len), end)
    decreases |s| - d
  {
    if !PairZero(s, d) && len + 1 < MDR_SMBIOS_SIZE {
      ScanSafe(s, end, d + 1, len + 1);
    }
  }

  lemma NextSafe(s: seq<Byte>, end: nat, p: nat)
    requires ZeroTail(s, end) && p < end
    ensures Reachable(Next(s, At(p)), end)
  {
    ScanSafe(s, end, p + s[p + 1], 0);
  }

  /** From anywhere inside, a search stays inside and finds only records in the data. */
  lemma {:induction false} SearchSafe(s: seq<Byte>, end: nat, p: nat, t: Byte, size: nat)
    requires ZeroTail(s, end) && p + 1 < |s|
    ensures var r := Search(s, p, t, size); r.Null? || (r.At? && r.off < end)
    decreases |s| - p
  {
    if !PairZero(s, p) && s[p] != t {
      assert p < end;
      ScanSafe(s, end, p + s[p + 1], s[p + 1]);
      match Scan(s, p + s[p + 1], s[p + 1])
      case At(q) => SearchSafe(s, end, q, t, size);
      case _ =>
    }
  }

  /** The entry-point test itself is safe, and skips to a place inside if and only if the
      search lands inside. */
  lemma SkipSafe(s: seq<Byte>, end: nat, p: nat)
    requires ZeroTail(s, end) && p <= end + REACH
    ensures var r := SkipEntryPoint(s, At(p)); r.At? && (r.off + 1 < |s| <==> LandsInside(s, p))
  {
    if AnchorAt(s, p) {
      assert p < end;
    }
  }

  lemma TypePtrSafe(s: seq<Byte>, end: nat, p: nat, t: Byte, size: nat)
    requires ZeroTail(s, end) && p <= end + REACH
    ensures var r := TypePtr(s, At(p), t, size);
            if LandsInside(s, p) then r.Null? || (r.At? && r.off < end) else r.Wild?
  {
    hide LandsInside, SkipEntryPoint;
    SkipSafe(s, end, p);
    var q := SkipEntryPoint(s, At(p)).off;
    if q + 1 < |s| {
      SearchSafe(s, end, q, t, size);
    }
  }

  /** Index lookups, counts and record lists: the reference walk they agree with leaves the
      storage if and only if one of its searches lands outside, and selects only records that
      start inside the data. */
  lemma {:induction false} WalkSafe(s: seq<Byte>, end: nat, p: Ptr, t: Byte, size: nat)
    requires ZeroTail(s, end) && Reachable(p, end)
    ensures var w := Walk(s, p, t, size);
            && (w.end.Null? <==> SearchesLandInside(s, p, t, size))
            && forall i :: 0 <= i < |w.hits| ==> w.hits[i] < end
    decreases Rank(s, p)
  {
    hide TypePtr, Next, LandsInside;
    if p.At? {
      TypePtrSafe(s, end, p.off, t, size);
      match TypePtr(s, p, t, size)
      case At(q) =>
        NextSafe(s, end, q);
        WalkSafe(s, end, Next(s, At(q)), t, size);
      case _ =>
    }
  }

  /** The PCIe walk starts the same searches, and its slot-type reads are safe. */
  lemma {:induction false} PcieWalkSafe(s: seq<Byte>, end: nat, p: Ptr)
    requires ZeroTail(s, end) && Reachable(p, end)
    ensures PcieWalk(s, p).end.Null? <==> SearchesLandInside(s, p, SYSTEM_SLOTS, 0)
    decreases Rank(s, p)
  {
    hide TypePtr, Next, LandsInside;
    if p.At? {
      TypePtrSafe(s, end, p.off, SYSTEM_SLOTS, 0);
      match TypePtr(s, p, SYSTEM_SLOTS, 0)
      case At(q) =>
        NextSafe(s, end, q);
        PcieWalkSafe(s, end, Next(s, At(q)));
      case _ =>
    }
  }

  /** Every search the ECC lookup starts lands inside; it starts none after a match. */
  ghost predicate EccLandsInside(s: seq<Byte>, p: Ptr, handle: Word16)
    decreases Rank(s, p)
  {
    p.At? ==>
      && LandsInside(s, p.off)
      && match TypePtr(s, p, PHYSICAL_MEMORY_ARRAY, 0)
         case At(q) =>
           q + HEADER_SIZE <= |s| && Le16(s, q + 2) != handle ==> EccLandsInside(s, Next(s, At(q)), handle)
         case _ => true
  }

  lemma {:induction false} EccSearchSafe(s: seq<Byte>, end: nat, p: Ptr, handle: Word16)
    requires ZeroTail(s, end) && Reachable(p, end)
    ensures EccSearch(s, p, handle).Wild? <==> !EccLandsInside(s, p, handle)
    decreases Rank(s, p)
  {
    hide TypePtr, Next, LandsInside;
    if p.At? {
      TypePtrSafe(s, end, p.off, PHYSICAL_MEMORY_ARRAY, 0);
      match TypePtr(s, p, PHYSICAL_MEMORY_ARRAY, 0)
      case At(q) =>
        NextSafe(s, end, q);
        EccSearchSafe(s, end, Next(s, At(q)), handle);
      case _ =>
    }
  }

  /** A count leaves the storage if and only if the walk does, before the 255th record. */
  lemma CountSafe(s: seq<Byte>, end: nat, t: Byte, size: nat)
    requires ZeroTail(s, end)
    ensures var w := Walk(s, At(0), t, size);
            CountLeaves(s, w) <==> !SearchesLandInside(s, At(0), t, size) && |w.hits| < LIMIT_ENTRY_LEN
  {
    hide Walk, SearchesLandInside, Next;
    assert Reachable(At(0), end);
    WalkSafe(s, end, At(0), t, size);
    var w := Walk(s, At(0), t, size);
    if |w.hits| >= LIMIT_ENTRY_LEN {
      NextSafe(s, end, w.hits[LIMIT_ENTRY_LEN - 1]);
    }
  }

  lemma {:induction false} HandleSearchSafe(s: seq<Byte>, end: nat, p: Ptr, handle: Word16)
    requires ZeroTail(s, end) && (p.Null? || (p.At? && p.off + 1 < |s|))
    ensures !HandleSearch(s, p, handle).Wild?
    decreases Rank(s, p)
  {
    if p.At? && s[p.off + 1] >= HEADER_SIZE {
      NextSafe(s, end, p.off);
      HandleSearchSafe(s, end, Next(s, p), handle);
    }
  }

  lemma HandlePtrSafe(s: seq<Byte>, end: nat, handle: Word16)
    requires ZeroTail(s, end)
    ensures HandlePtr(s, At(0), handle).Wild? <==> !LandsInside(s, 0)
  {
    hide LandsInside, SkipEntryPoint;
    SkipSafe(s, end, 0);
    var q := SkipEntryPoint(s, At(0));
    if q.off + 1 < |s| {
      HandleSearchSafe(s, end, q, handle);
    }
  }

  lemma {:induction false} CStringSafe(s: seq<Byte>, end: nat, d: nat)
    requires ZeroTail(s, end) && d <= end + REACH
    ensures CString(s, d).Text?
    decreases |s| - d
  {
    if s[d] != 0 {
      CStringSafe(s, end, d + 1);
    }
  }

  lemma {:induction false} SkipStringSafe(s: seq<Byte>, end: nat, d: nat, limit: nat)
    requires ZeroTail(s, end) && d < end + REACH && 1 <= limit
    ensures var r := SkipString(s, d, limit); r.Exhausted? || (r.Nul? && r.off < end + REACH)
    decreases |s| - d
  {
    if s[d] != 0 && limit > 1 {
      SkipStringSafe(s, end, d + 1, limit - 1);
    }
  }

  lemma {:induction false} NthStringSafe(s: seq<Byte>, end: nat, d: nat, k: nat, limit: nat)
    requires ZeroTail(s, end) && d < end + REACH && 1 <= limit
    ensures NthString(s, d, k, limit).Text?
    decreases k
  {
    if k == 0 {
      CStringSafe(s, end, d);
    } else {
      SkipStringSafe(s, end, d, limit);
      match SkipString(s, d, limit)
      case Nul(e, rest) =>
        if s[e + 1] != 0 {
          NthStringSafe(s, end, e + 1, k - 1, rest);
        }
      case _ =>
    }
  }

  /** The whole claim, from the start of the storage: exact conditions for walks and counts of any
      type and size, the PCIe walk, handle lookups and the ECC search; none for string lookups. */
  lemma WalkerNeverLeavesStorage(s: seq<Byte>, end: nat, t: Byte, size: nat, handle: Word16,
                                 position: Byte, structLen: Byte, p: nat)
    requires ZeroTail(s, end) && p < end
    ensures (exists i: nat :: Nth(Walk(s, At(0), t, size), i).Wild?) <==> !SearchesLandInside(s, At(0), t, size)
    ensures CountLeaves(s, Walk(s, At(0), t, size))
       <==> !SearchesLandInside(s, At(0), t, size) && |Walk(s, At(0), t, size).hits| < LIMIT_ENTRY_LEN
    ensures (exists i: nat :: Nth(PcieWalk(s, At(0)), i).Wild?) <==> !SearchesLandInside(s, At(0), SYSTEM_SLOTS, 0)
    ensures HandlePtr(s, At(0), handle).Wild? <==> !LandsInside(s, 0)
    ensures EccSearch(s, At(0), handle).Wild? <==> !EccLandsInside(s, At(0), handle)
    ensures StringAt(s, position, structLen, At(p)).Text?
  {
    hide Walk, PcieWalk, EccSearch, HandlePtr, NthString, SearchesLandInside, LandsInside, CountLeaves,
      EccLandsInside;
    assert Reachable(At(0), end);
    WalkSafe(s, end, At(0), t, size);
    PcieWalkSafe(s, end, At(0));
    HandlePtrSafe(s, end, handle);
    var w, v := Walk(s, At(0), t, size), PcieWalk(s, At(0));
    assert Nth(w, |w.hits|) == w.end && Nth(v, |v.hits|) == v.end;
    CountSafe(s, end, t, size);
    EccSearchSafe(s, end, At(0), handle);
    if position > 0 {
      NthStringSafe(s, end, p + structLen, position - 1, MDR_SMBIOS_SIZE);
    }
  }

  // ----- 259 zeros are not enough ---------------------------------------------------

  /** A full storage: two structures of type 2 with string areas of 7s, at 0 and 32769, and one
      of type 17 and length 255 at 65275, whose length byte is the last before 259 zeros. */
  function TightByte(i: nat): (b: Byte)
  {
    if i == 0 || i == 32769 then 2
    else if i == 1 || i == 32770 then 4
    else if i == 32767 || i == 32768 || i == 65273 || i == 65274 then 0
    else if i == 65275 then MEMORY_DEVICE
    else if i == 65276 then 0xff
    else if i > 65276 then 0
    else 7
  }

  function TightStorage(): (s: seq<Byte>)
    ensures |s| == STORAGE_SIZE
    ensures forall i :: 0 <= i < |s| ==> s[i] == TightByte(i)
  {
    seq(STORAGE_SIZE, i => if i >= 0 then TightByte(i) else 0)
  }

  lemma TightFiller(s: seq<Byte>, p: nat, e: nat)
    requires s == TightStorage() && ((p == 0 && e == 32767) || (p == 32769 && e == 65273))
    ensures Search(s, p, MEMORY_DEVICE, MEMORY_INFO_SIZE) == Search(s, e + 2, MEMORY_DEVICE, MEMORY_INFO_SIZE)
  {
    hide TightStorage;
    assert s[p] == 2 && s[p + 1] == 4;
    assert FirstPair(s, p + 4, e);
    ScanFinds(s, p + 4, 4, e);
  }

  /** 260 is tight: the daemon's 64 KiB storage with 259 zeros after the data, and no entry point
      anywhere in it, and still GetRecordType's walk leaves it. */
  lemma TailIsTight()
    ensures var s, end := TightStorage(), STORAGE_SIZE - (TAIL - 1);
            && (forall i :: end <= i < STORAGE_SIZE ==> s[i] == 0)
            && (forall p: nat :: p + |ANCHOR30| <= |s| ==> !AnchorAt(s, p))
            && Walk(s, At(0), MEMORY_DEVICE, MEMORY_INFO_SIZE).end.Wild?
  {
    hide TightStorage, Search, Scan, Walk;
    var s := TightStorage();
    assert forall p: nat :: p + |ANCHOR30| <= |s| ==> !AnchorAt(s, p);
    TightFiller(s, 0, 32767);
    TightFiller(s, 32769, 65273);
    TightWalk(s);
  }

  lemma TightWalk(s: seq<Byte>)
    requires s == TightStorage()
    requires TypePtr(s, At(0), MEMORY_DEVICE, MEMORY_INFO_SIZE) == Search(s, 65275, MEMORY_DEVICE, MEMORY_INFO_SIZE)
    ensures Walk(s, At(0), MEMORY_DEVICE, MEMORY_INFO_SIZE).end.Wild?
  {
    hide TightStorage;
    assert s[65275] == MEMORY_DEVICE && s[65276] == 0xff;
    assert TypePtr(s, At(0), MEMORY_DEVICE, MEMORY_INFO_SIZE) == At(65275);
    assert s[65530] == 0 && s[65531] == 0;
    assert Next(s, At(65275)) == At(65532);
    assert TypePtr(s, At(65532), MEMORY_DEVICE, MEMORY_INFO_SIZE).Wild?;
    assert Walk(s, At(65532), MEMORY_DEVICE, MEMORY_INFO_SIZE).end.Wild?;
  }
}
