/**
 What the walker's clients compute on a printed table: type walks, handle lookups, the ECC
 search and string lookups, and a decoder built from them that returns the printed list.
 */
module RoundTrip {
  import opened Bytes
  import opened Walker
  import opened Walks
  import opened Encoding
  import EntryPoint

  // ----- Walks by type --------------------------------------------------------------

  lemma TypePtrIsTableSearch(s: seq<Byte>, p: nat, ss: seq<Structure>, t: Byte, size: nat)
    requires WellFormedTable(ss) && TableAt(s, p, ss)
    ensures TypePtr(s, At(p), t, size) == TableSearch(p, ss, t, size)
  {
    hide Encode, WellFormed, TableAt, Search, SkipEntryPoint, TableSearch;
    NoSkipAt(s, p, ss);
    SearchIsTableSearch(s, p, ss, t, size);
  }

  /** The offsets of the type-`t` structures, up to the first one shorter than `size`. */
  ghost function OffsetsOfType(p: nat, ss: seq<Structure>, t: Byte, size: nat): (hs: seq<nat>)
    requires WellFormedTable(ss)
    decreases |ss|
  {
    if ss == [] then []
    else
      var q := p + |Encode(ss[0])|;
      if ss[0].typ != t then OffsetsOfType(q, ss[1..], t, size)
      else if Length(ss[0]) < size then []
      else [p] + OffsetsOfType(q, ss[1..], t, size)
  }

  /** Every counter, index lookup and record list agrees with `Walk`, and on a printed table
      `Walk` is the list of offsets of the structures of that type. */
  lemma {:induction false} WalkOfTable(s: seq<Byte>, p: nat, ss: seq<Structure>, t: Byte, size: nat)
    requires WellFormedTable(ss) && TableAt(s, p, ss)
    ensures Walk(s, At(p), t, size) == Trail(OffsetsOfType(p, ss, t, size), Null)
    decreases |ss|
  {
    hide Encode, GoodStrings, LooksLikeEntryPoint, StructureAt, TypePtr, Next;
    TypePtrIsTableSearch(s, p, ss, t, size);
    if ss != [] {
      var q := p + |Encode(ss[0])|;
      StepsOver(s, p, ss[0]);
      TypePtrIsTableSearch(s, q, ss[1..], t, size);
      WalkOfTable(s, q, ss[1..], t, size);
    }
  }

  // ----- Handles --------------------------------------------------------------------

  ghost function TableHandle(p: nat, ss: seq<Structure>, handle: Word16): (r: Ptr)
    requires WellFormedTable(ss)
    ensures !r.Wild?
    decreases |ss|
  {
    if ss == [] then Null
    else if ss[0].handle == handle then At(p)
    else TableHandle(p + |Encode(ss[0])|, ss[1..], handle)
  }

  lemma {:induction false} HandleSearchOfTable(s: seq<Byte>, p: nat, ss: seq<Structure>, handle: Word16)
    requires WellFormedTable(ss) && TableAt(s, p, ss)
    ensures HandleSearch(s, At(p), handle) == TableHandle(p, ss, handle)
    decreases |ss|
  {
    hide Encode, GoodStrings, LooksLikeEntryPoint, StringSet, Next, StructureAt, AnchorAt;
    if ss != [] {
      AnchorExactly(s, p, ss[0]);
      FieldsAt(s, p, ss[0]);
      StepsOver(s, p, ss[0]);
      HandleSearchOfTable(s, p + |Encode(ss[0])|, ss[1..], handle);
    }
  }

  /** smbiosHandlePtr returns the first structure with the handle, or null if there is none. */
  lemma {:induction false} TableHandleFindsFirst(p: nat, ss: seq<Structure>, handle: Word16, j: nat)
    requires WellFormedTable(ss)
    ensures j < |ss| && ss[j].handle == handle && (forall k :: 0 <= k < j ==> ss[k].handle != handle) ==>
              TableHandle(p, ss, handle) == At(Boundary(p, ss, j))
    ensures TableHandle(p, ss, handle) == Null <==> forall k :: 0 <= k < |ss| ==> ss[k].handle != handle
    decreases |ss|
  {
    hide Encode, GoodStrings, LooksLikeEntryPoint;
    if ss != [] && ss[0].handle != handle {
      TableHandleFindsFirst(p + |Encode(ss[0])|, ss[1..], handle, if j > 0 then j - 1 else 0);
      assert forall k :: 0 < k < |ss| ==> ss[k] == ss[1..][k - 1];
    }
  }

  ghost function TableEcc(p: nat, ss: seq<Structure>, handle: Word16): (r: Ptr)
    requires WellFormedTable(ss)
    decreases |ss|
  {
    if ss == [] then Null
    else if ss[0].typ == 16 && ss[0].handle == handle then At(p)
    else TableEcc(p + |Encode(ss[0])|, ss[1..], handle)
  }

  lemma {:induction false} EccSearchOfTable(s: seq<Byte>, p: nat, ss: seq<Structure>, handle: Word16)
    requires WellFormedTable(ss) && TableAt(s, p, ss)
    ensures EccSearch(s, At(p), handle) == TableEcc(p, ss, handle)
    decreases |ss|
  {
    hide Encode, GoodStrings, LooksLikeEntryPoint, StringSet, TypePtr, Next, StructureAt, AnchorAt;
    TypePtrIsTableSearch(s, p, ss, PHYSICAL_MEMORY_ARRAY, 0);
    if ss != [] {
      var q := p + |Encode(ss[0])|;
      AnchorExactly(s, p, ss[0]);
      FieldsAt(s, p, ss[0]);
      StepsOver(s, p, ss[0]);
      TypePtrIsTableSearch(s, q, ss[1..], PHYSICAL_MEMORY_ARRAY, 0);
      EccSearchOfTable(s, q, ss[1..], handle);
    }
  }

  ghost predicate UniqueHandles(ss: seq<Structure>)
  {
    forall i, j :: 0 <= i < j < |ss| ==> ss[i].handle != ss[j].handle
  }

  lemma {:induction false} EccAgreesOnList(p: nat, ss: seq<Structure>, handle: Word16)
    requires WellFormedTable(ss) && UniqueHandles(ss)
    ensures var h := TableHandle(p, ss, handle);
            TableEcc(p, ss, handle) == if exists k :: 0 <= k < |ss| && ss[k].handle == handle
                                                      && ss[k].typ == 16
                                       then h else Null
    decreases |ss|
  {
    hide Encode, GoodStrings, LooksLikeEntryPoint;
    if ss != [] {
      var rest := ss[1..];
      EccAgreesOnList(p + |Encode(ss[0])|, rest, handle);
      assert forall k :: 0 <= k < |rest| ==> rest[k] == ss[k + 1];
      if ss[0].handle != handle {
        assert (exists k :: 0 <= k < |ss| && ss[k].handle == handle && ss[k].typ == PHYSICAL_MEMORY_ARRAY)
          <==> exists k :: 0 <= k < |rest| && rest[k].handle == handle && rest[k].typ == PHYSICAL_MEMORY_ARRAY;
      }
    }
  }

  /** With unique handles, updateEccType's own search stops on the structure smbiosHandlePtr
      finds exactly when that structure is a physical memory array. */
  lemma EccSearchAgreesWithHandle(s: seq<Byte>, p: nat, ss: seq<Structure>, handle: Word16)
    requires WellFormedTable(ss) && TableAt(s, p, ss) && UniqueHandles(ss)
    ensures var h := HandlePtr(s, At(p), handle);
            EccSearch(s, At(p), handle) ==
              if h.At? && s[h.off] == 16 then h else Null
  {
    hide Encode, GoodStrings, LooksLikeEntryPoint, EccSearch, HandleSearch, SkipEntryPoint, TableEcc;
    NoSkipAt(s, p, ss);
    HandleSearchOfTable(s, p, ss, handle);
    EccSearchOfTable(s, p, ss, handle);
    EccAgreesOnList(p, ss, handle);
    TableHandleFindsFirst(p, ss, handle, 0);
    if exists k :: 0 <= k < |ss| && ss[k].handle == handle {
      var k :| 0 <= k < |ss| && ss[k].handle == handle;
      TableHandleFindsFirst(p, ss, handle, k);
      TableSuffix(s, p, ss, k);
      FieldsAt(s, Boundary(p, ss, k), ss[k]);
    }
  }

  // ----- Strings --------------------------------------------------------------------

  ghost predicate StringsAt(s: seq<Byte>, d: nat, strs: seq<seq<Byte>>)
  {
    d + |StringSet(strs)| <= |s| && s[d..d + |StringSet(strs)|] == StringSet(strs)
  }

  /** The characters of the first `k` strings. */
  ghost function Chars(strs: seq<seq<Byte>>, k: nat): (n: nat)
    requires k <= |strs|
  {
    if k == 0 then 0 else |strs[0]| + Chars(strs[1..], k - 1)
  }

  lemma StringsUnfold(s: seq<Byte>, d: nat, strs: seq<seq<Byte>>)
    requires GoodStrings(strs) && strs != [] && StringsAt(s, d, strs)
    ensures d + |strs[0]| + 1 < |s|
    ensures s[d..d + |strs[0]|] == strs[0] && s[d + |strs[0]|] == 0
    ensures |strs| == 1 ==> s[d + |strs[0]| + 1] == 0
    ensures |strs| > 1 ==> s[d + |strs[0]| + 1] != 0 && StringsAt(s, d + |strs[0]| + 1, strs[1..])
  {
    hide Strings, StringSet, GoodString;
    StringSetUnfold(strs);
    var n, b, rest := |strs[0]|, StringSet(strs), Strings(strs[1..]) + [0];
    SplitsInThree(strs[0], [0], rest);
    SliceOfSlice(s, d, |b|, 0, n);
    SliceOfSlice(s, d, |b|, n, n + 1);
    SliceOfSlice(s, d, |b|, n + 1, |b|);
    assert s[d + n] == s[d + n..d + n + 1][0];
    assert s[d + n + 1] == s[d + n + 1..d + |b|][0];
  }

  lemma StringSetUnfold(strs: seq<seq<Byte>>)
    requires GoodStrings(strs) && strs != []
    ensures var rest := Strings(strs[1..]) + [0];
            && StringSet(strs) == strs[0] + [0] + rest
            && (|strs| == 1 ==> rest == [0])
            && (|strs| > 1 ==> rest == StringSet(strs[1..]) && rest[0] != 0)
  {
    var tail := Strings(strs[1..]);
    assert strs[0] + [0] + tail + [0] == strs[0] + [0] + (tail + [0]);
    if |strs| > 1 {
      assert GoodString(strs[1]);
      assert (tail + [0])[0] == strs[1][0];
    }
  }

  lemma {:induction false} CStringReads(s: seq<Byte>, d: nat, str: seq<Byte>)
    requires (forall i :: 0 <= i < |str| ==> str[i] != 0)
    requires d + |str| < |s| && s[d..d + |str|] == str && s[d + |str|] == 0
    ensures CString(s, d) == Text(str)
    decreases |str|
  {
    if str != [] {
      assert s[d] == s[d..d + |str|][0];
      assert s[d + 1..d + |str|] == s[d..d + |str|][1..];
      CStringReads(s, d + 1, str[1..]);
    }
  }

  lemma {:induction false} SkipStringSkips(s: seq<Byte>, d: nat, str: seq<Byte>, limit: nat)
    requires (forall i :: 0 <= i < |str| ==> str[i] != 0)
    requires d + |str| < |s| && s[d..d + |str|] == str && s[d + |str|] == 0 && 1 <= limit
    ensures SkipString(s, d, limit) == if |str| < limit then Nul(d + |str|, limit - |str|) else Exhausted
    decreases |str|
  {
    if str != [] {
      assert s[d] == s[d..d + |str|][0];
      assert s[d + 1..d + |str|] == s[d..d + |str|][1..];
      if limit > 1 {
        SkipStringSkips(s, d + 1, str[1..], limit - 1);
      }
    }
  }

  lemma EmptyStringSet(s: seq<Byte>, d: nat)
    requires StringsAt(s, d, [])
    ensures d + 1 < |s| && s[d] == 0 && s[d + 1] == 0
  {
    assert s[d] == s[d..d + 2][0] && s[d + 1] == s[d..d + 2][1];
  }

  lemma {:induction false} NthStringReads(s: seq<Byte>, d: nat, strs: seq<seq<Byte>>, k: nat, limit: nat)
    requires GoodStrings(strs) && StringsAt(s, d, strs) && 1 <= limit
    ensures NthString(s, d, k, limit) ==
            Text(if k < |strs| && Chars(strs, k) < limit then strs[k] else [])
    decreases k
  {
    hide Strings, StringSet, StringsAt;
    if strs == [] {
      EmptyStringSet(s, d);
    } else {
      StringsUnfold(s, d, strs);
      assert GoodString(strs[0]);
      if k == 0 {
        CStringReads(s, d, strs[0]);
      } else {
        SkipStringSkips(s, d, strs[0], limit);
        if |strs| > 1 && |strs[0]| < limit {
          NthStringReads(s, d + |strs[0]| + 1, strs[1..], k - 1, limit - |strs[0]|);
        }
      }
    }
  }

  /** positionToString on a printed string set, for every position: the numbered string while
      the strings before it have fewer than 32768 characters, and empty otherwise, which
      covers position 0, positions past the end and the empty set. */
  lemma PositionToStringReads(s: seq<Byte>, p: nat, structLen: Byte, strs: seq<seq<Byte>>, position: Byte)
    requires GoodStrings(strs) && StringsAt(s, p + structLen, strs)
    ensures StringAt(s, position, structLen, At(p)) ==
            Text(if 1 <= position <= |strs| && Chars(strs, position - 1) < MDR_SMBIOS_SIZE
                 then strs[position - 1] else [])
  {
    hide NthString, GoodStrings, StringsAt, Chars;
    if position > 0 {
      NthStringReads(s, p + structLen, strs, position - 1, MDR_SMBIOS_SIZE);
    }
  }

  lemma {:induction false} CharsBound(strs: seq<seq<Byte>>, k: nat)
    requires k <= |strs|
    ensures Chars(strs, k) <= |Strings(strs)|
    decreases k
  {
    if k > 0 {
      CharsBound(strs[1..], k - 1);
    }
  }

  /** In a well-formed structure the limit never bites. */
  lemma StructureStrings(s: seq<Byte>, p: nat, st: Structure, position: Byte)
    requires WellFormed(st) && StructureAt(s, p, st)
    ensures StringAt(s, position, s[p + 1], At(p)) ==
            Text(if 1 <= position <= |st.strings| then st.strings[position - 1] else [])
  {
    FieldsAt(s, p, st);
    PositionToStringReads(s, p, s[p + 1], st.strings, position);
    if 1 <= position <= |st.strings| {
      CharsBound(st.strings, position - 1);
    }
  }

  // ----- The decoder ----------------------------------------------------------------

  /** The strings numbered `k` and up, read with positionToString. String numbers are bytes. */
  function DecodeStrings(s: seq<Byte>, p: nat, len: Byte, k: nat): (strs: seq<seq<Byte>>)
    requires k >= 1
    decreases 0x100 - k
  {
    if k > 0xff then []
    else
      match StringAt(s, k, len, At(p))
      case Text(b) => if b == [] then [] else [b] + DecodeStrings(s, p, len, k + 1)
      case Unreadable => []
  }

  /** Everything the walker can read of a table, structure by structure. */
  function DecodeTable(s: seq<Byte>, p: Ptr): (ss: seq<Structure>)
    decreases Rank(s, p)
  {
    if !p.At? || p.off + HEADER_SIZE > |s| || PairZero(s, p.off) then []
    else
      var len := s[p.off + 1];
      if len < HEADER_SIZE || p.off + len > |s| then []
      else
        [Structure(s[p.off], Le16(s, p.off + 2), s[p.off + HEADER_SIZE..p.off + len],
                   DecodeStrings(s, p.off, len, 1))]
        + DecodeTable(s, Next(s, p))
  }

  lemma {:induction false} DecodeStringsReads(s: seq<Byte>, p: nat, st: Structure, k: nat)
    requires WellFormed(st) && StructureAt(s, p, st) && p + 1 < |s|
    requires 1 <= k <= |st.strings| + 1 <= 0x100
    ensures DecodeStrings(s, p, s[p + 1], k) == st.strings[k - 1..]
    decreases 0x100 - k
  {
    hide Encode, StructureAt, StringAt, LooksLikeEntryPoint, StringSet;
    if k <= 0xff {
      StructureStrings(s, p, st, k);
      if k <= |st.strings| {
        assert GoodString(st.strings[k - 1]);
        DecodeStringsReads(s, p, st, k + 1);
      }
    }
  }

  lemma {:induction false} DecodeTableReads(s: seq<Byte>, p: nat, ss: seq<Structure>)
    requires WellFormedTable(ss) && TableAt(s, p, ss)
    requires forall i :: 0 <= i < |ss| ==> |ss[i].strings| <= 0xff
    ensures DecodeTable(s, At(p)) == ss
    decreases |ss|
  {
    hide Encode, Next, DecodeStrings, GoodStrings, LooksLikeEntryPoint, StringSet, AnchorAt, StructureAt;
    if ss != [] {
      AnchorExactly(s, p, ss[0]);
      FieldsAt(s, p, ss[0]);
      StepsOver(s, p, ss[0]);
      DecodeStringsReads(s, p, ss[0], 1);
      DecodeTableReads(s, p + |Encode(ss[0])|, ss[1..]);
    }
  }

  /** Decoding a printed table gives the printed list back, wherever it is in the storage. */
  lemma DecodeInvertsEncode(pre: seq<Byte>, ss: seq<Structure>, tail: seq<Byte>)
    requires WellFormedTable(ss) && |tail| >= 3
    requires forall i :: 0 <= i < |ss| ==> |ss[i].strings| <= 0xff
    ensures DecodeTable(pre + EncodeTable(ss) + tail, At(|pre|)) == ss
  {
    EncodeTableAt(pre, ss, tail);
    DecodeTableReads(pre + EncodeTable(ss) + tail, |pre|, ss);
  }

  // ----- From the entry point -------------------------------------------------------

  /** A storage that starts with a 64-bit entry point whose address is `p`: every client that
      starts at the beginning of the storage works on the table at `p`. */
  lemma EntryPointLeadsToTable(s: seq<Byte>, e: EntryPoint.Entry64, p: nat, ss: seq<Structure>,
                               t: Byte, size: nat, handle: Word16)
    requires EntryPoint.Entry64At(s, 0, e) && e.address == p < 0x8000
    requires WellFormedTable(ss) && TableAt(s, p, ss)
    ensures Walk(s, At(0), t, size) == Trail(OffsetsOfType(p, ss, t, size), Null)
    ensures HandlePtr(s, At(0), handle) == TableHandle(p, ss, handle)
    ensures EccSearch(s, At(0), handle) == TableEcc(p, ss, handle)
  {
    hide Encode, WellFormed, Search, Next, SkipEntryPoint, EntryPoint.Print64;
    EntryPoint.SkipsToAddress(s, 0, e);
    NoSkipAt(s, p, ss);
    assert SkipEntryPoint(s, At(0)) == SkipEntryPoint(s, At(p)) == At(p);
    WalkOfTable(s, p, ss, t, size);
    HandleSearchOfTable(s, p, ss, handle);
    EccSearchOfTable(s, p, ss, handle);
    assert TypePtr(s, At(0), t, size) == TypePtr(s, At(p), t, size);
    assert TypePtr(s, At(0), PHYSICAL_MEMORY_ARRAY, 0) == TypePtr(s, At(p), PHYSICAL_MEMORY_ARRAY, 0);
  }
}
