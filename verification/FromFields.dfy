/**
 Board names, DIMM names and PCIe slots on a printed table, from the fields of its structures
 alone, by the offsets DSP0134 (SMBIOS Reference Specification) gives them: section 7.3, the
 baseboard structure, has the board type at 0Dh, the number of contained objects at 0Eh and their
 handles from 0Fh on; section 7.10, the system slot, has the slot type at 05h.
 */
module FromFields {
  import opened Common
  import opened Bytes
  import opened Decimals
  import opened Walker
  import opened Walks
  import opened Encoding
  import opened RoundTrip
  import opened Naming

  // ----- The structures behind the records ------------------------------------------

  ghost function OfType(ss: seq<Structure>, t: Byte): (some: seq<Structure>)
  {
    if ss == [] then []
    else if ss[0].typ == t then [ss[0]] + OfType(ss[1..], t)
    else OfType(ss[1..], t)
  }

  lemma {:induction false} OfTypeAt(s: seq<Byte>, p: nat, ss: seq<Structure>, t: Byte, k: nat)
    requires WellFormedTable(ss) && TableAt(s, p, ss)
    ensures |OffsetsOfType(p, ss, t, 0)| == |OfType(ss, t)|
    ensures k < |OfType(ss, t)| ==>
              && WellFormed(OfType(ss, t)[k]) && OfType(ss, t)[k].typ == t
              && StructureAt(s, OffsetsOfType(p, ss, t, 0)[k], OfType(ss, t)[k])
    decreases |ss|
  {
    hide Encode, StructureAt, GoodStrings, LooksLikeEntryPoint;
    if ss != [] {
      OfTypeAt(s, p + |Encode(ss[0])|, ss[1..], t, if ss[0].typ == t && k > 0 then k - 1 else k);
    }
  }

  // ----- Board names ----------------------------------------------------------------

  /** The structure's own board type, byte 13, is that of a processor module. */
  predicate Module(st: Structure)
  {
    |st.body| > 9 && (st.body[9] == 6 || st.body[9] == 11 || st.body[9] == 12)
  }

  ghost function ModulesBefore(boards: seq<Structure>, k: nat): (n: nat)
    requires k <= |boards|
  {
    if k == 0 then 0 else ModulesBefore(boards, k - 1) + if Module(boards[k - 1]) then 1 else 0
  }

  ghost function FieldName(boards: seq<Structure>, k: nat): (name: string)
    requires k < |boards|
  {
    if Module(boards[k]) then "ProcessorModule_" + Decimal(ModulesBefore(boards, k)) else "Board_" + Decimal(k)
  }

  ghost predicate Agree(types: seq<Byte>, boards: seq<Structure>, k: nat)
    requires k < |types| <= |boards|
  {
    IsProcessorModule(types[k]) <==> Module(boards[k])
  }

  lemma {:induction false} ModulesAgree(types: seq<Byte>, boards: seq<Structure>, k: nat)
    requires k <= |types| <= |boards| && forall j :: 0 <= j < k ==> Agree(types, boards, j)
    ensures Modules(types[..k]) == ModulesBefore(boards, k)
    decreases k
  {
    hide IsProcessorModule, Module;
    if k > 0 {
      ModulesAgree(types, boards, k - 1);
      assert types[..k][..k - 1] == types[..k - 1];
      assert Agree(types, boards, k - 1);
    }
  }

  lemma NamesAgree(types: seq<Byte>, boards: seq<Structure>)
    requires |types| <= |boards|
    ensures (forall k :: 0 <= k < |types| ==> BoardName(types, k) == FieldName(boards, k))
       <==> (forall k :: 0 <= k < |types| ==> Agree(types, boards, k))
  {
    hide Modules, ModulesBefore, Decimal;
    if forall k :: 0 <= k < |types| ==> BoardName(types, k) == FieldName(boards, k) {
      forall k | 0 <= k < |types| ensures Agree(types, boards, k) {
        assert BoardName(types, k)[0] == FieldName(boards, k)[0];
      }
    }
    if forall k :: 0 <= k < |types| ==> Agree(types, boards, k) {
      forall k | 0 <= k < |types| ensures BoardName(types, k) == FieldName(boards, k) {
        assert Agree(types, boards, k);
        ModulesAgree(types, boards, k);
      }
    }
  }

  lemma TypeByte(s: seq<Byte>, q: nat, st: Structure)
    requires |st.body| <= 0xff - HEADER_SIZE && StructureAt(s, q, st) && |st.body| > 9
    ensures q + 13 < |s| && s[q + 13] == st.body[9]
  {
    hide Encode;
    FieldsAt(s, q, st);
    EncodedLength(st);
    assert s[q + HEADER_SIZE..q + Length(st)][9] == s[q + 13];
  }

  /** On a printed table the boards are named from their own fields, a board without a type byte
      as a plain one, if and only if no such board is followed by a byte that looks like a
      processor module's type where its own would be. */
  lemma BoardNamesExactly(s: seq<Byte>, p: nat, ss: seq<Structure>)
    requires StorageHolds(s, p, ss) && BoardsReadable(s)
    ensures |BoardViews(s)| == Min(255, |OfType(ss, 2)|)
    ensures (forall k :: 0 <= k < |BoardViews(s)| ==> BoardViews(s)[k].name == FieldName(OfType(ss, 2), k))
       <==> (forall k :: 0 <= k < |BoardViews(s)| && |OfType(ss, 2)[k].body| <= 9 ==>
               BoardHits(s)[k] + 13 < |s| && !IsModuleByte(s[BoardHits(s)[k] + 13]))
  {
    hide Walk, Encode, StructureAt, WellFormed, TableAt, OffsetsOfType, OfType, SkipEntryPoint, BoardName, FieldName,
      CountLeaves, ContainedOf, BoardReadable;
    WalkFromStart(s, p, ss, BASEBOARD);
    OfTypeAt(s, p, ss, BASEBOARD, 0);
    var boards, types := OfType(ss, 2), BoardTypes(s);
    NamesAgree(types, boards);
    forall k | 0 <= k < |types|
      ensures |boards[k].body| > 9 ==> Agree(types, boards, k)
      ensures |boards[k].body| <= 9 ==>
                (Agree(types, boards, k) <==> BoardHits(s)[k] + 13 < |s| && !IsModuleByte(s[BoardHits(s)[k] + 13]))
    {
      ReadableFits(s, BoardHits(s)[k]);
      OfTypeAt(s, p, ss, BASEBOARD, k);
      TypeAgrees(s, BoardHits(s)[k], boards[k], types, boards, k);
    }
  }

  predicate IsModuleByte(b: Byte)
  {
    b == 6 || b == 11 || b == 12
  }

  lemma TypeAgrees(s: seq<Byte>, q: nat, st: Structure, types: seq<Byte>, boards: seq<Structure>, k: nat)
    requires WellFormed(st) && StructureAt(s, q, st) && BoardFits(s, q)
    requires k < |types| <= |boards| && boards[k] == st && types[k] == s[q + BOARD_TYPE_OFFSET]
    ensures q + 13 < |s|
    ensures |st.body| > 9 ==> Agree(types, boards, k)
    ensures |st.body| <= 9 ==> (Agree(types, boards, k) <==> !IsModuleByte(s[q + 13]))
  {
    hide Encode, StructureAt, GoodStrings, LooksLikeEntryPoint;
    if |st.body| > 9 {
      TypeByte(s, q, st);
    }
  }

  /** So boards that have their type byte are named from it. */
  lemma PrintedBoardNames(s: seq<Byte>, p: nat, ss: seq<Structure>, k: nat)
    requires StorageHolds(s, p, ss) && BoardsReadable(s) && k < |BoardViews(s)|
    requires forall i :: 0 <= i < |OfType(ss, 2)| ==> |OfType(ss, 2)[i].body| > 9
    ensures k < |OfType(ss, 2)| && BoardViews(s)[k].name == FieldName(OfType(ss, 2), k)
  {
    hide StorageHolds, BoardsReadable, BoardViews, OfType, FieldName, BoardHits;
    BoardNamesExactly(s, p, ss);
  }

  // ----- A board without a type byte ------------------------------------------------

  /** A board with no formatted area at all, whose string has a 6 where a type would be. */
  const SHORT_STRING: seq<Byte> := [7, 7, 7, 7, 7, 7, 7, 7, 7, 6]
  const SHORT_BOARD := Structure(2, 1, [], [SHORT_STRING])
  const SHORT_STORAGE: seq<Byte> := EncodeTable([SHORT_BOARD]) + Zeros(STORAGE_SIZE - 18)

  lemma ShortBoardBytes()
    ensures WellFormed(SHORT_BOARD) && |Encode(SHORT_BOARD)| == 16
    ensures Encode(SHORT_BOARD)[13] == 6 && Encode(SHORT_BOARD)[14] == 0
  {
    assert Strings([]) == [] && [SHORT_STRING][1..] == [];
    assert Strings([SHORT_STRING]) == SHORT_STRING + [0] + Strings([]);
    assert GoodString(SHORT_STRING);
  }

  lemma ShortStorageHolds()
    ensures |SHORT_STORAGE| == STORAGE_SIZE && StorageHolds(SHORT_STORAGE, 0, [SHORT_BOARD])
    ensures SHORT_STORAGE[13] == 6 && SHORT_STORAGE[14] == 0
  {
    hide Encode, WellFormed, TableAt, SkipEntryPoint, EncodeTable;
    ShortBoardBytes();
    var s, tail, ss := SHORT_STORAGE, Zeros(STORAGE_SIZE - 18), [SHORT_BOARD];
    assert ss[1..] == [];
    TableUnfold([]);
    TableUnfold(ss);
    EncodeTableAt([], ss, tail);
    assert [] + EncodeTable(ss) + tail == s;
    NoSkipAt(s, 0, ss);
    var b := EncodeTable(ss);
    assert s[13] == b[13] == b[0..16][13] && s[14] == b[14] == b[0..16][14];
  }

  /** The exact condition can fail: here a board that has no type is named as a module. */
  lemma ShortBoardExample()
    ensures var s := SHORT_STORAGE;
            && |s| == STORAGE_SIZE && BoardsReadable(s) && |BoardViews(s)| == 1
            && BoardViews(s)[0].name == "ProcessorModule_0" && FieldName([SHORT_BOARD], 0) == "Board_0"
  {
    hide Encode, WellFormed, TableAt, SkipEntryPoint, EncodeTable, Walk, HandlePtr, ContainedOf;
    var s, ss := SHORT_STORAGE, [SHORT_BOARD];
    ShortBoardBytes();
    ShortStorageHolds();
    WalkFromStart(s, 0, ss, BASEBOARD);
    assert ss[1..] == [];
    assert OffsetsOfType(16, [], BASEBOARD, 0) == [];
    assert OffsetsOfType(0, ss, BASEBOARD, 0) == [0] + OffsetsOfType(16, [], BASEBOARD, 0);
    assert BoardHits(s) == [0];
    assert BoardReadable(s, 0);
    assert BoardTypes(s) == [6];
    assert Modules([6][..0]) == 0 && Decimal(0) == "0";
  }

  // ----- Contained objects ----------------------------------------------------------

  /** The first structure with the handle. */
  ghost function FirstWith(ss: seq<Structure>, handle: Word16): (st: Option<Structure>)
  {
    if ss == [] then None else if ss[0].handle == handle then Some(ss[0]) else FirstWith(ss[1..], handle)
  }

  lemma {:induction false} FirstWithAt(s: seq<Byte>, p: nat, ss: seq<Structure>, handle: Word16)
    requires WellFormedTable(ss) && TableAt(s, p, ss)
    ensures var r, st := TableHandle(p, ss, handle), FirstWith(ss, handle);
            if st.None? then r == Null else r.At? && r.off < |s| && s[r.off] == st.value.typ
    decreases |ss|
  {
    hide Encode, StructureAt, GoodStrings, LooksLikeEntryPoint;
    if ss != [] {
      FieldsAt(s, p, ss[0]);
      AnchorExactly(s, p, ss[0]);
      FirstWithAt(s, p + |Encode(ss[0])|, ss[1..], handle);
    }
  }

  /** The handles the board's formatted area lists from the i-th to before the n-th, each with the
      type of the first structure that has it; handles no structure has are skipped. */
  ghost function FieldObjects(ss: seq<Structure>, body: seq<Byte>, i: nat, n: nat): (objects: seq<Contained>)
    requires i <= n && 11 + 2 * n <= |body|
    decreases n - i
  {
    if i == n then []
    else
      var lo: int, hi: int := body[11 + 2 * i], body[12 + 2 * i];
      var h := lo + 0x100 * hi;
      match FirstWith(ss, h)
      case Some(st) => [Contained(h, st.typ)] + FieldObjects(ss, body, i + 1, n)
      case None => FieldObjects(ss, body, i + 1, n)
  }

  /** The board is long enough for its count byte and for the handles it announces. */
  predicate Complete(st: Structure)
  {
    |st.body| > 10 && 11 + 2 * (st.body[10] as nat) <= |st.body|
  }

  lemma BodyBytes(s: seq<Byte>, q: nat, st: Structure, i: nat)
    requires |st.body| <= 0xff - HEADER_SIZE && StructureAt(s, q, st) && i < |st.body|
    ensures q + 4 + |st.body| <= |s| && s[q + 4 + i] == st.body[i]
  {
    hide Encode;
    FieldsAt(s, q, st);
    EncodedLength(st);
    assert s[q + HEADER_SIZE..q + Length(st)][i] == s[q + 4 + i];
  }

  lemma ListedField(s: seq<Byte>, q: nat, st: Structure, i: nat)
    requires WellFormed(st) && StructureAt(s, q, st) && 11 + 2 * (i + 1) <= |st.body|
    ensures q + CONTAINED_HANDLES_OFFSET + 2 * (i + 1) <= |s|
    ensures var lo: int, hi: int := st.body[11 + 2 * i], st.body[12 + 2 * i];
            ListedHandle(s, q, i) == lo + 0x100 * hi
  {
    hide Encode, StructureAt, GoodStrings, LooksLikeEntryPoint;
    BodyBytes(s, q, st, 11 + 2 * i);
    BodyBytes(s, q, st, 12 + 2 * i);
  }

  lemma HandleLeadsToFirst(s: seq<Byte>, p: nat, ss: seq<Structure>, handle: Word16)
    requires StorageHolds(s, p, ss)
    ensures var r, st := HandlePtr(s, At(0), handle), FirstWith(ss, handle);
            if st.None? then r == Null else r.At? && s[r.off] == st.value.typ
  {
    hide Encode, WellFormed, TableAt, SkipEntryPoint, HandleSearch;
    HandleSearchOfTable(s, p, ss, handle);
    FirstWithAt(s, p, ss, handle);
  }

  lemma {:induction false} ObjectsFromFields(s: seq<Byte>, p: nat, ss: seq<Structure>, q: nat, st: Structure, i: nat, n: nat)
    requires StorageHolds(s, p, ss) && WellFormed(st) && StructureAt(s, q, st)
    requires i <= n && 11 + 2 * n <= |st.body| && q + CONTAINED_HANDLES_OFFSET + 2 * n <= |s|
    ensures ContainedFrom(s, q, i, n) == FieldObjects(ss, st.body, i, n)
    decreases n - i
  {
    hide StorageHolds, WellFormed, StructureAt, HandlePtr, FirstWith, ListedHandle, ContainedFrom, FieldObjects;
    ContainedUnfold(s, q, i, n);
    FieldUnfold(ss, st.body, i, n);
    if i < n {
      ListedField(s, q, st, i);
      HandleLeadsToFirst(s, p, ss, ListedHandle(s, q, i));
      ObjectsFromFields(s, p, ss, q, st, i + 1, n);
    }
  }

  lemma ContainedUnfold(s: seq<Byte>, q: nat, i: nat, n: nat)
    requires i <= n && q + CONTAINED_HANDLES_OFFSET + 2 * n <= |s|
    ensures i == n ==> ContainedFrom(s, q, i, n) == []
    ensures i < n ==>
              var h, rest := ListedHandle(s, q, i), ContainedFrom(s, q, i + 1, n);
              var r := HandlePtr(s, At(0), h);
              ContainedFrom(s, q, i, n) == if r.At? then [Contained(h, s[r.off])] + rest else rest
  {
    hide HandlePtr, ListedHandle;
  }

  lemma FieldUnfold(ss: seq<Structure>, body: seq<Byte>, i: nat, n: nat)
    requires i <= n && 11 + 2 * n <= |body|
    ensures i == n ==> FieldObjects(ss, body, i, n) == []
    ensures i < n ==>
              var lo: int, hi: int := body[11 + 2 * i], body[12 + 2 * i];
              var h, rest := lo + 0x100 * hi, FieldObjects(ss, body, i + 1, n);
              var st := FirstWith(ss, h);
              FieldObjects(ss, body, i, n) == if st.Some? then [Contained(h, st.value.typ)] + rest else rest
  {
    hide FirstWith;
  }

  /** On a printed table a complete board contains what its own fields list. */
  lemma PrintedBoardObjects(s: seq<Byte>, p: nat, ss: seq<Structure>, k: nat)
    requires StorageHolds(s, p, ss) && BoardsReadable(s) && k < |BoardViews(s)|
    ensures k < |OfType(ss, 2)|
    ensures var st := OfType(ss, 2)[k];
            Complete(st) ==> BoardViews(s)[k].objects == FieldObjects(ss, st.body, 0, st.body[10])
  {
    hide Walk, Encode, StructureAt, TableAt, SkipEntryPoint, CountLeaves, FieldObjects, ContainedFrom, OfType, OffsetsOfType,
      GoodStrings, LooksLikeEntryPoint, HandlePtr;
    WalkFromStart(s, p, ss, BASEBOARD);
    OfTypeAt(s, p, ss, BASEBOARD, k);
    var st, q := OfType(ss, 2)[k], BoardHits(s)[k];
    if Complete(st) {
      ReadableFits(s, q);
      BodyBytes(s, q, st, 10);
      ObjectsFromFields(s, p, ss, q, st, 0, st.body[10]);
    }
  }

  // ----- DIMM names -----------------------------------------------------------------

  /** The boards of a printed table, from its structures. */
  ghost function FieldViews(ss: seq<Structure>): (views: seq<BoardView>)
    requires forall k :: 0 <= k < |OfType(ss, 2)| ==> Complete(OfType(ss, 2)[k])
    ensures |views| == Min(255, |OfType(ss, 2)|)
  {
    var boards := OfType(ss, 2);
    seq(Min(255, |boards|), k requires 0 <= k < Min(255, |boards|) =>
      assert Complete(OfType(ss, 2)[k]);
      BoardView(FieldName(boards, k), FieldObjects(ss, boards[k].body, 0, boards[k].body[10])))
  }

  lemma ViewsFromFields(s: seq<Byte>, p: nat, ss: seq<Structure>)
    requires StorageHolds(s, p, ss) && BoardsReadable(s)
    requires forall k :: 0 <= k < |OfType(ss, 2)| ==> Complete(OfType(ss, 2)[k])
    ensures BoardViews(s) == FieldViews(ss)
  {
    hide StorageHolds, BoardsReadable, BoardViews, OfType, FieldName, FieldObjects, BoardHits;
    BoardNamesExactly(s, p, ss);
    forall k | 0 <= k < |BoardViews(s)| ensures BoardViews(s)[k] == FieldViews(ss)[k] {
      PrintedBoardNames(s, p, ss, k);
      PrintedBoardObjects(s, p, ss, k);
    }
  }

  /** On a printed table with complete boards the DIMM loop succeeds and the i-th memory device is
      named after the first board whose fields list its handle, or else by its number. */
  lemma PrintedNames(s: seq<Byte>, p: nat, ss: seq<Structure>)
    requires StorageHolds(s, p, ss)
    requires forall k :: 0 <= k < |OfType(ss, 2)| ==> Complete(OfType(ss, 2)[k])
    ensures NamingReadable(s)
    ensures |DimmNames(s)| == Min(255, |OfType(ss, 17)|)
    ensures forall i :: 0 <= i < |DimmNames(s)| ==>
              DimmNames(s)[i] == DimmName(FieldViews(ss), i, OfType(ss, 17)[i].handle)
  {
    hide Walk, Encode, StructureAt, TableAt, SkipEntryPoint, CountLeaves, OffsetsOfType, WellFormed, OfType, DimmName,
      BoardsReadable, BoardViews, FieldViews, EncodeTable;
    assert CompleteBoards(ss) by { AllComplete(ss); }
    PrintedNamingReadable(s, p, ss);
    ViewsFromFields(s, p, ss);
    WalkFromStart(s, p, ss, MEMORY_DEVICE);
    OfTypeAt(s, p, ss, MEMORY_DEVICE, 0);
    forall i | 0 <= i < |DimmNames(s)|
      ensures DimmNames(s)[i] == DimmName(FieldViews(ss), i, OfType(ss, 17)[i].handle)
    {
      OfTypeAt(s, p, ss, MEMORY_DEVICE, i);
      HandleField(s, DimmHits(s)[i], OfType(ss, 17)[i]);
    }
  }

  lemma HandleField(s: seq<Byte>, q: nat, st: Structure)
    requires WellFormed(st) && StructureAt(s, q, st)
    ensures q + 4 <= |s| && Le16(s, q + 2) == st.handle
  {
    FieldsAt(s, q, st);
  }

  lemma {:induction false} InOfType(ss: seq<Structure>, t: Byte, k: nat)
    requires k < |ss| && ss[k].typ == t
    ensures ss[k] in OfType(ss, t)
    decreases |ss|
  {
    if k > 0 {
      InOfType(ss[1..], t, k - 1);
    }
  }

  lemma AllComplete(ss: seq<Structure>)
    requires forall k :: 0 <= k < |OfType(ss, 2)| ==> Complete(OfType(ss, 2)[k])
    ensures CompleteBoards(ss)
  {
    forall k | 0 <= k < |ss| && ss[k].typ == BASEBOARD ensures Complete(ss[k]) {
      InOfType(ss, 2, k);
    }
  }

  /** The places before `n` at which an object of type `t` is listed. */
  ghost function Earlier(objects: seq<Contained>, t: Byte, n: nat): (places: set<int>)
    requires n <= |objects|
  {
    set j | 0 <= j < n && objects[j].typ == t
  }

  lemma EarlierStep(objects: seq<Contained>, t: Byte, n: nat)
    requires n < |objects|
    ensures Earlier(objects, t, n + 1)
            == if objects[n].typ == t then Earlier(objects, t, n) + {n} else Earlier(objects, t, n)
    ensures n !in Earlier(objects, t, n)
  {
  }

  lemma {:induction false} CountIsSize(objects: seq<Contained>, t: Byte, n: nat)
    requires n <= |objects|
    ensures CountOfType(objects[..n], t) == |Earlier(objects, t, n)|
    decreases n
  {
    if n > 0 {
      hide Earlier;
      CountIsSize(objects, t, n - 1);
      EarlierStep(objects, t, n - 1);
      assert objects[..n][..n - 1] == objects[..n - 1];
    } else {
      assert Earlier(objects, t, 0) == {};
    }
  }

  /** A contained object's number is how many objects of its type the board lists before it. */
  lemma IndexIsRank(objects: seq<Contained>, handle: Word16, a: nat)
    requires FirstListed(objects, handle, a)
    ensures Lists(objects, handle)
    ensures IndexOfType(objects, handle) == |Earlier(objects, objects[a].typ, a)|
  {
    assert Lists(objects, handle);
    assert FirstAt(objects, handle) == a;
    CountIsSize(objects, objects[a].typ, a);
  }

  /** The name of a DIMM: board `b` is the first to list its handle, `a` is where; or no board
      lists it. */
  lemma DimmNameExactly(views: seq<BoardView>, i: nat, handle: Word16, b: nat, a: nat)
    ensures b < |views| && FirstListed(views[b].objects, handle, a)
            && (forall c :: 0 <= c < b ==> !Lists(views[c].objects, handle)) ==>
              DimmName(views, i, handle)
              == views[b].name + "_Memory_" + Decimal(|Earlier(views[b].objects, views[b].objects[a].typ, a)|)
    ensures (forall c :: 0 <= c < |views| ==> !Lists(views[c].objects, handle)) ==>
              DimmName(views, i, handle) == "Memory_" + Decimal(i)
  {
    hide Lists, IndexOfType, Decimal;
    if b < |views| && FirstListed(views[b].objects, handle, a)
       && (forall c :: 0 <= c < b ==> !Lists(views[c].objects, handle)) {
      IndexIsRank(views[b].objects, handle, a);
      assert FirstBoard(views, handle) == b;
    }
  }

  // ----- PCIe slots -----------------------------------------------------------------

  /** The slot types of the program's table. */
  predicate PcieCode(b: Byte)
  {
    b in {0x09, 0x14, 0x15, 0x16, 0x17, 0x18, 0x19, 0x1a, 0x1b, 0x1c, 0x1d, 0x1f, 0x20, 0x21, 0x22, 0x23, 0x24, 0x25,
          0x26, 0x27, 0x28, 0x29, 0xa5, 0xa6, 0xa7, 0xa8, 0xa9, 0xaa, 0xab, 0xac, 0xad, 0xae, 0xaf, 0xb0, 0xb1, 0xb2,
          0xb3, 0xb4, 0xb5, 0xb6, 0xb7, 0xb8, 0xb9, 0xba, 0xbb, 0xbc, 0xbd, 0xbe, 0xbf, 0xc0, 0xc1, 0xc2, 0xc3, 0xc4,
          0xc5, 0xc6}
  }

  lemma PcieCodesExactly(b: Byte)
    ensures PcieSlotType(b) <==> PcieCode(b)
  {
  }

  /** The offsets of the PCIe slots among the structures of a table at `p`. */
  ghost function PcieOffsets(p: nat, ss: seq<Structure>): (hs: seq<nat>)
    requires WellFormedTable(ss)
    decreases |ss|
  {
    if ss == [] then []
    else
      var rest := PcieOffsets(p + |Encode(ss[0])|, ss[1..]);
      if ss[0].typ == 9 && |ss[0].body| > 1 && PcieCode(ss[0].body[1]) then [p] + rest else rest
  }

  /** On a printed table whose slots have a type byte, the walk behind the PCIe slot count and the
      slot objects finds exactly the PCIe slots, in order. */
  lemma {:induction false} PrintedPcieSlots(s: seq<Byte>, p: nat, ss: seq<Structure>)
    requires WellFormedTable(ss) && TableAt(s, p, ss)
    requires forall k :: 0 <= k < |ss| && ss[k].typ == 9 ==> |ss[k].body| > 1
    ensures PcieWalk(s, At(p)) == Trail(PcieOffsets(p, ss), Null)
    decreases |ss|
  {
    hide Encode, GoodStrings, LooksLikeEntryPoint, TypePtr, Next, StructureAt, PcieSlotType, PcieCode;
    TypePtrIsTableSearch(s, p, ss, SYSTEM_SLOTS, 0);
    if ss != [] {
      var st, rest := ss[0], ss[1..];
      var q := p + |Encode(st)|;
      TypePtrIsTableSearch(s, q, rest, SYSTEM_SLOTS, 0);
      StepsOver(s, p, st);
      PrintedPcieSlots(s, q, rest);
      if st.typ == 9 {
        assert |ss[0].body| > 1;
        BodyBytes(s, p, st, 1);
        PcieCodesExactly(st.body[1]);
      }
    }
  }
}
