/**
 The table format of DSP0134 (SMBIOS Reference Specification): section 6.1.2, the structure
 header, and section 6.1.3, the string set. The printer is written from the specification;
 the walker of the program is proved to invert it.
 */
module Encoding {
  import opened Bytes
  import opened Walker
  import opened Walks

  /** A structure: header fields, formatted area after the header, strings. */
  datatype Structure = Structure(typ: Byte, handle: Word16, body: seq<Byte>, strings: seq<seq<Byte>>)

  function Length(st: Structure): (n: nat)
    ensures n >= HEADER_SIZE
  {
    HEADER_SIZE + |st.body|
  }

  function Strings(strs: seq<seq<Byte>>): (b: seq<Byte>)
  {
    if strs == [] then [] else strs[0] + [0] + Strings(strs[1..])
  }

  function StringSet(strs: seq<seq<Byte>>): (b: seq<Byte>)
    ensures |b| >= 2
  {
    if strs == [] then [0, 0] else Strings(strs) + [0]
  }

  function Header(st: Structure): (b: seq<Byte>)
    requires |st.body| <= 0xff - HEADER_SIZE
    ensures |b| == HEADER_SIZE
  {
    [st.typ, Length(st)] + Enc16(st.handle)
  }

  function Encode(st: Structure): (b: seq<Byte>)
    requires |st.body| <= 0xff - HEADER_SIZE
  {
    Header(st) + st.body + StringSet(st.strings)
  }

  ghost predicate GoodString(str: seq<Byte>)
  {
    str != [] && forall i :: 0 <= i < |str| ==> str[i] != 0
  }

  ghost predicate GoodStrings(strs: seq<seq<Byte>>)
  {
    forall i :: 0 <= i < |strs| ==> GoodString(strs[i])
  }

  /** The first five bytes of the structure spell the 64-bit entry point's anchor. */
  ghost predicate LooksLikeEntryPoint(st: Structure)
  {
    && st.typ == ANCHOR30[0] && Length(st) == ANCHOR30[1]
    && st.handle == Le16(ANCHOR30, 2)
    && st.body[0] == ANCHOR30[4]
  }

  ghost predicate WellFormed(st: Structure)
  {
    && |st.body| <= 0xff - HEADER_SIZE
    && GoodStrings(st.strings)
    && Length(st) + |StringSet(st.strings)| - SEPARATE_LEN < MDR_SMBIOS_SIZE
    && !LooksLikeEntryPoint(st)
  }

  ghost predicate WellFormedTable(ss: seq<Structure>)
  {
    forall i :: 0 <= i < |ss| ==> WellFormed(ss[i])
  }

  function EncodeAll(ss: seq<Structure>): (b: seq<Byte>)
    requires forall i :: 0 <= i < |ss| ==> |ss[i].body| <= 0xff - HEADER_SIZE
  {
    if ss == [] then [] else Encode(ss[0]) + EncodeAll(ss[1..])
  }

  /** The structures followed by the double NUL where a boundary would be. */
  function EncodeTable(ss: seq<Structure>): (b: seq<Byte>)
    requires forall i :: 0 <= i < |ss| ==> |ss[i].body| <= 0xff - HEADER_SIZE
  {
    EncodeAll(ss) + [0, 0]
  }

  // ----- A table inside a storage ---------------------------------------------------

  ghost predicate StructureAt(s: seq<Byte>, p: nat, st: Structure)
    requires |st.body| <= 0xff - HEADER_SIZE
  {
    p + |Encode(st)| <= |s| && s[p..p + |Encode(st)|] == Encode(st)
  }

  /** `s` holds the structures `ss` from offset `p` on, then the end of the table. */
  ghost predicate TableAt(s: seq<Byte>, p: nat, ss: seq<Structure>)
    requires WellFormedTable(ss)
    decreases |ss|
  {
    if ss == [] then p + |ANCHOR30| <= |s| && PairZero(s, p)
    else StructureAt(s, p, ss[0]) && TableAt(s, p + |Encode(ss[0])|, ss[1..])
  }

  lemma TableUnfold(ss: seq<Structure>)
    requires WellFormedTable(ss)
    ensures ss == [] ==> EncodeTable(ss) == [0, 0]
    ensures ss != [] ==>
              var b, e, rest := EncodeTable(ss), Encode(ss[0]), EncodeTable(ss[1..]);
              |b| == |e| + |rest| && b[0..|e|] == e && b[|e|..|b|] == rest
  {
    hide Encode, GoodStrings, LooksLikeEntryPoint;
    if ss != [] {
      assert EncodeTable(ss) == Encode(ss[0]) + EncodeTable(ss[1..]);
    }
  }

  lemma {:induction false} PrintedTableAt(s: seq<Byte>, p: nat, ss: seq<Structure>)
    requires WellFormedTable(ss) && p + |EncodeTable(ss)| + 3 <= |s|
    requires s[p..p + |EncodeTable(ss)|] == EncodeTable(ss)
    ensures TableAt(s, p, ss)
    decreases |ss|
  {
    hide Encode, EncodeTable, GoodStrings, LooksLikeEntryPoint;
    var b := EncodeTable(ss);
    TableUnfold(ss);
    if ss == [] {
      assert s[p] == s[p..p + |b|][0] && s[p + 1] == s[p..p + |b|][1];
    } else {
      var e := Encode(ss[0]);
      SliceOfSlice(s, p, |b|, 0, |e|);
      SliceOfSlice(s, p, |b|, |e|, |b|);
      PrintedTableAt(s, p + |e|, ss[1..]);
    }
  }

  lemma EncodeTableAt(pre: seq<Byte>, ss: seq<Structure>, tail: seq<Byte>)
    requires WellFormedTable(ss) && |tail| >= 3
    ensures TableAt(pre + EncodeTable(ss) + tail, |pre|, ss)
  {
    hide EncodeTable, TableAt, GoodStrings, LooksLikeEntryPoint;
    SplitsInThree(pre, EncodeTable(ss), tail);
    PrintedTableAt(pre + EncodeTable(ss) + tail, |pre|, ss);
  }

  /** The offset of structure `i` of a table at `p`. */
  ghost function Boundary(p: nat, ss: seq<Structure>, i: nat): (q: nat)
    requires WellFormedTable(ss) && i <= |ss|
    decreases i
  {
    if i == 0 then p else Boundary(p + |Encode(ss[0])|, ss[1..], i - 1)
  }

  lemma {:induction false} TableSuffix(s: seq<Byte>, p: nat, ss: seq<Structure>, i: nat)
    requires WellFormedTable(ss) && i <= |ss| && TableAt(s, p, ss)
    ensures TableAt(s, Boundary(p, ss, i), ss[i..])
    decreases i
  {
    if i == 0 {
      assert ss[0..] == ss;
    } else {
      TableSuffix(s, p + |Encode(ss[0])|, ss[1..], i - 1);
      assert ss[1..][i - 1..] == ss[i..];
    }
  }

  // ----- One structure --------------------------------------------------------------

  /** What the packed header and formatted area read back. */
  lemma FieldsAt(s: seq<Byte>, p: nat, st: Structure)
    requires |st.body| <= 0xff - HEADER_SIZE && StructureAt(s, p, st)
    ensures s[p] == st.typ && s[p + 1] == Length(st) && Le16(s, p + 2) == st.handle
    ensures s[p + HEADER_SIZE..p + Length(st)] == st.body
    ensures s[p + Length(st)..p + |Encode(st)|] == StringSet(st.strings)
    ensures !PairZero(s, p)
  {
    hide StringSet;
    var e, h, len := Encode(st), Header(st), Length(st);
    SplitsInThree(h, st.body, StringSet(st.strings));
    SliceOfSlice(s, p, |e|, 0, HEADER_SIZE);
    SliceOfSlice(s, p, |e|, HEADER_SIZE, len);
    SliceOfSlice(s, p, |e|, len, |e|);
    assert s[p..p + HEADER_SIZE] == h;
    assert s[p] == h[0] && s[p + 1] == h[1] && s[p + 2] == h[2] && s[p + 3] == h[3];
    assert h[2] == Enc16(st.handle)[0] && h[3] == Enc16(st.handle)[1];
  }

  /** The walker takes a structure for an entry point exactly when its first five bytes
      spell the anchor. */
  lemma AnchorExactly(s: seq<Byte>, p: nat, st: Structure)
    requires |st.body| <= 0xff - HEADER_SIZE && StructureAt(s, p, st)
    ensures p + |ANCHOR30| <= |s| && (AnchorAt(s, p) <==> LooksLikeEntryPoint(st))
  {
    FieldsAt(s, p, st);
    if Length(st) > HEADER_SIZE {
      assert st.body[0] == s[p + HEADER_SIZE..p + Length(st)][0];
    }
  }

  /** A search that starts at a structure's boundary starts with that structure if and only if
      it is no lookalike, or its bytes where the table address would be say zero, or 32 KiB or
      more; otherwise the search jumps ahead. */
  lemma SearchStartsHere(s: seq<Byte>, p: nat, st: Structure)
    requires |st.body| <= 0xff - HEADER_SIZE && StructureAt(s, p, st) && p + ENTRY_POINT_SIZE <= |s|
    ensures SkipEntryPoint(s, At(p)) == At(p)
       <==> !LooksLikeEntryPoint(st) || TableAddr(s, p) == 0 || TableAddr(s, p) >= MDR_SMBIOS_SIZE
  {
    hide LooksLikeEntryPoint, AnchorAt, TableAddr;
    AnchorExactly(s, p, st);
  }

  /** The only double NUL of a string set is the one at its end. */
  lemma {:induction false} StringSetPairs(strs: seq<seq<Byte>>, j: nat)
    requires GoodStrings(strs) && strs != []
    ensures var b := Strings(strs) + [0];
            && |b| >= 3 && b[|b| - 1] == 0 && b[|b| - 2] == 0 && b[0] != 0
            && (j < |b| - 2 ==> b[j] != 0 || b[j + 1] != 0)
    decreases |strs|
  {
    var b, first := Strings(strs) + [0], strs[0];
    assert GoodString(first);
    if |strs| == 1 {
      assert Strings(strs[1..]) == [];
      assert b == first + [0, 0];
    } else {
      var rest := Strings(strs[1..]) + [0];
      assert b == first + [0] + rest;
      StringSetPairs(strs[1..], if j > |first| then j - |first| - 1 else 0);
    }
  }

  lemma ScanStringSet(s: seq<Byte>, d: nat, len: nat, strs: seq<seq<Byte>>)
    requires GoodStrings(strs)
    requires d + |StringSet(strs)| <= |s| && s[d..d + |StringSet(strs)|] == StringSet(strs)
    requires len + |StringSet(strs)| - SEPARATE_LEN < MDR_SMBIOS_SIZE && len < MDR_SMBIOS_SIZE
    ensures Scan(s, d, len) == At(d + |StringSet(strs)|)
  {
    var b := StringSet(strs);
    var e := d + |b| - 2;
    if strs != [] {
      StringSetPairs(strs, 0);
    }
    assert s[e] == b[|b| - 2] && s[e + 1] == b[|b| - 1];
    forall j | d <= j < e ensures !PairZero(s, j) {
      StringSetPairs(strs, j - d);
      assert s[j] == b[j - d] && s[j + 1] == b[j - d + 1];
    }
    ScanFinds(s, d, len, e);
  }

  /** smbiosNextPtr steps over exactly one encoded structure, and so does the type search,
      whose guard counter starts at the structure's length. */
  lemma StepsOver(s: seq<Byte>, p: nat, st: Structure)
    requires WellFormed(st) && StructureAt(s, p, st)
    ensures Next(s, At(p)) == At(p + |Encode(st)|)
    ensures Scan(s, p + s[p + 1], s[p + 1]) == At(p + |Encode(st)|)
  {
    FieldsAt(s, p, st);
    ScanStringSet(s, p + Length(st), 0, st.strings);
    ScanStringSet(s, p + Length(st), Length(st), st.strings);
  }

  // ----- The walker inverts the printer ---------------------------------------------

  /** Repeated smbiosNextPtr visits exactly the structure offsets, in order, and then the
      double NUL that every search stops at. */
  lemma VisitsInOrder(s: seq<Byte>, p: nat, ss: seq<Structure>, i: nat)
    requires WellFormedTable(ss) && TableAt(s, p, ss) && i < |ss|
    ensures Boundary(p, ss, i) < Boundary(p, ss, i + 1)
    ensures Next(s, At(Boundary(p, ss, i))) == At(Boundary(p, ss, i + 1))
    ensures Boundary(p, ss, |ss|) + 1 < |s| && PairZero(s, Boundary(p, ss, |ss|))
  {
    hide Encode, GoodStrings, LooksLikeEntryPoint, Next, Boundary;
    TableSuffix(s, p, ss, i);
    TableSuffix(s, p, ss, |ss|);
    BoundaryStep(p, ss, i);
    StepsOver(s, Boundary(p, ss, i), ss[i]);
  }

  lemma {:induction false} BoundaryStep(p: nat, ss: seq<Structure>, i: nat)
    requires WellFormedTable(ss) && i < |ss|
    ensures Boundary(p, ss, i + 1) == Boundary(p, ss, i) + |Encode(ss[i])|
    decreases i
  {
    hide Encode, GoodStrings, LooksLikeEntryPoint;
    if i > 0 {
      BoundaryStep(p + |Encode(ss[0])|, ss[1..], i - 1);
    }
  }

  /** What a type search means on a list of structures laid out from `p`. */
  ghost function TableSearch(p: nat, ss: seq<Structure>, t: Byte, size: nat): (r: Ptr)
    requires WellFormedTable(ss)
    decreases |ss|
  {
    if ss == [] then Null
    else if ss[0].typ == t then
      if Length(ss[0]) < size then Null else At(p)
    else TableSearch(p + |Encode(ss[0])|, ss[1..], t, size)
  }

  lemma {:induction false} SearchIsTableSearch(s: seq<Byte>, p: nat, ss: seq<Structure>, t: Byte, size: nat)
    requires WellFormedTable(ss) && TableAt(s, p, ss)
    ensures Search(s, p, t, size) == TableSearch(p, ss, t, size)
    decreases |ss|
  {
    hide Encode, Scan, StructureAt, GoodStrings, LooksLikeEntryPoint;
    if ss != [] {
      FieldsAt(s, p, ss[0]);
      StepsOver(s, p, ss[0]);
      SearchIsTableSearch(s, p + |Encode(ss[0])|, ss[1..], t, size);
    }
  }

  /** `j` is the first structure of type `t` at or after `i`. */
  ghost predicate FirstOfType(ss: seq<Structure>, t: Byte, i: nat, j: nat)
  {
    i <= j < |ss| && ss[j].typ == t && forall k :: i <= k < j ==> ss[k].typ != t
  }

  ghost predicate NoneOfType(ss: seq<Structure>, t: Byte, i: nat)
  {
    forall j :: i <= j < |ss| ==> ss[j].typ != t
  }

  lemma {:induction false} TableSearchFindsFirst(p: nat, ss: seq<Structure>, i: nat, t: Byte, j: nat)
    requires WellFormedTable(ss) && i <= |ss|
    ensures FirstOfType(ss, t, i, j) ==> TableSearch(Boundary(p, ss, i), ss[i..], t, 0) == At(Boundary(p, ss, j))
    ensures NoneOfType(ss, t, i) ==> TableSearch(Boundary(p, ss, i), ss[i..], t, 0) == Null
    decreases |ss| - i
  {
    hide Encode, WellFormed;
    if i < |ss| {
      assert ss[i..][0] == ss[i] && ss[i..][1..] == ss[i + 1..];
      BoundaryStep(p, ss, i);
      TableSearchFindsFirst(p, ss, i + 1, t, j);
    }
  }

  lemma NoSkipAt(s: seq<Byte>, p: nat, ss: seq<Structure>)
    requires WellFormedTable(ss) && TableAt(s, p, ss)
    ensures SkipEntryPoint(s, At(p)) == At(p)
  {
    hide Encode;
    if ss != [] {
      AnchorExactly(s, p, ss[0]);
    }
  }

  /** getSMBIOSTypePtr, from any structure boundary, returns the first structure of the type
      at or after it, or null if there is none. */
  lemma TypePtrFindsFirst(s: seq<Byte>, p: nat, ss: seq<Structure>, i: nat, t: Byte, j: nat)
    requires WellFormedTable(ss) && TableAt(s, p, ss) && i <= |ss|
    ensures FirstOfType(ss, t, i, j) ==> TypePtr(s, At(Boundary(p, ss, i)), t, 0) == At(Boundary(p, ss, j))
    ensures NoneOfType(ss, t, i) ==> TypePtr(s, At(Boundary(p, ss, i)), t, 0) == Null
  {
    hide Encode, WellFormed, TableAt, Search, Boundary, SkipEntryPoint, TableSearch;
    var q, rest := Boundary(p, ss, i), ss[i..];
    TableSuffix(s, p, ss, i);
    NoSkipAt(s, q, rest);
    SearchIsTableSearch(s, q, rest, t, 0);
    TableSearchFindsFirst(p, ss, i, t, j);
  }
}
