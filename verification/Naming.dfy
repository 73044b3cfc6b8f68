/**
 Board objects and DIMM object names: the Baseboard class of include/baseboard.hpp and the
 naming loops of MDRV2::systemInfoUpdate. Names become D-Bus object paths, so two DIMMs with
 one name would be two objects on one path.
 */
module Naming {
  import opened Common
  import opened Bytes
  import opened Decimals
  import opened Walker
  import opened Walks
  import opened Encoding
  import opened RoundTrip

  // ----- Contained objects ----------------------------------------------------------

  const BASEBOARD: Byte := 2
  const BOARD_TYPE_OFFSET := 13
  const CONTAINED_COUNT_OFFSET := 14
  const CONTAINED_HANDLES_OFFSET := 15

  /** A handle a board lists, and the type of the structure it leads to. */
  datatype Contained = Contained(handle: Word16, typ: Byte)

  ghost function CountOfType(objects: seq<Contained>, t: Byte): (n: nat)
  {
    if objects == [] then 0
    else CountOfType(objects[..|objects| - 1], t) + if objects[|objects| - 1].typ == t then 1 else 0
  }

  /** `a` is where the handle is first listed. */
  ghost predicate FirstListed(objects: seq<Contained>, handle: Word16, a: nat)
  {
    a < |objects| && objects[a].handle == handle && forall b :: 0 <= b < a ==> objects[b].handle != handle
  }

  ghost predicate Lists(objects: seq<Contained>, handle: Word16)
  {
    exists a :: 0 <= a < |objects| && objects[a].handle == handle
  }

  ghost function FirstAt(objects: seq<Contained>, handle: Word16): (a: nat)
    requires Lists(objects, handle)
    ensures FirstListed(objects, handle, a)
    decreases |objects|
  {
    if objects[0].handle == handle then 0
    else
      var a :| 0 <= a < |objects| && objects[a].handle == handle;
      assert objects[1..][a - 1].handle == handle;
      1 + FirstAt(objects[1..], handle)
  }

  /** The number of objects of the same type listed before it. */
  ghost function IndexOfType(objects: seq<Contained>, handle: Word16): (n: nat)
    requires Lists(objects, handle)
  {
    var a := FirstAt(objects, handle);
    CountOfType(objects[..a], objects[a].typ)
  }

  lemma {:induction false} CountGrows(objects: seq<Contained>, a: nat, b: nat, t: Byte)
    requires a < b <= |objects| && objects[a].typ == t
    ensures CountOfType(objects[..a], t) < CountOfType(objects[..b], t)
    decreases b
  {
    assert objects[..b][..b - 1] == objects[..b - 1];
    if a < b - 1 {
      CountGrows(objects, a, b - 1, t);
    }
  }

  /** Within a board, two objects of one type never get the same index. */
  lemma IndexOfTypeInjective(objects: seq<Contained>, h1: Word16, h2: Word16, t: Byte)
    requires h1 != h2 && Lists(objects, h1) && Lists(objects, h2)
    requires forall a :: 0 <= a < |objects| && objects[a].handle in {h1, h2} ==> objects[a].typ == t
    ensures IndexOfType(objects, h1) != IndexOfType(objects, h2)
  {
    var a, b := FirstAt(objects, h1), FirstAt(objects, h2);
    if a < b {
      CountGrows(objects, a, b, t);
    } else {
      CountGrows(objects, b, a, t);
    }
  }

  // ----- The Baseboard class --------------------------------------------------------

  /** The i-th handle listed by the board structure at `q`. */
  function ListedHandle(s: seq<Byte>, q: nat, i: nat): (h: Word16)
    requires q + CONTAINED_HANDLES_OFFSET + 2 * (i + 1) <= |s|
  {
    Le16(s, q + CONTAINED_HANDLES_OFFSET + 2 * i)
  }

  /** The count byte and the listed handles are inside the storage. */
  predicate BoardFits(s: seq<Byte>, q: nat)
  {
    && q + CONTAINED_COUNT_OFFSET < |s|
    && var num: nat := s[q + CONTAINED_COUNT_OFFSET];
       q + CONTAINED_HANDLES_OFFSET + 2 * num <= |s|
  }

  /** Nothing the constructor does with the board at `q` reads outside the storage. */
  ghost predicate BoardReadable(s: seq<Byte>, q: nat)
  {
    && BoardFits(s, q)
    && forall i :: 0 <= i < s[q + CONTAINED_COUNT_OFFSET] ==> !HandlePtr(s, At(0), ListedHandle(s, q, i)).Wild?
  }

  /** The listed handles from the i-th to before the n-th that lead to a structure, each with
      that structure's type. */
  ghost function ContainedFrom(s: seq<Byte>, q: nat, i: nat, n: nat): (objects: seq<Contained>)
    requires i <= n && q + CONTAINED_HANDLES_OFFSET + 2 * n <= |s|
    decreases n - i
  {
    if i == n then []
    else
      var h := ListedHandle(s, q, i);
      match HandlePtr(s, At(0), h)
      case At(r) => [Contained(h, s[r])] + ContainedFrom(s, q, i + 1, n)
      case _ => ContainedFrom(s, q, i + 1, n)
  }

  ghost function ContainedOf(s: seq<Byte>, q: nat): (objects: seq<Contained>)
    requires BoardFits(s, q)
  {
    ContainedFrom(s, q, 0, s[q + CONTAINED_COUNT_OFFSET])
  }

  /** Every listed object leads, by the handle lookup, to a structure of the noted type. */
  ghost predicate Resolved(s: seq<Byte>, objects: seq<Contained>)
  {
    forall a :: 0 <= a < |objects| ==>
      var p := HandlePtr(s, At(0), objects[a].handle);
      p.At? && p.off < |s| && s[p.off] == objects[a].typ
  }

  lemma {:induction false} ContainedResolved(s: seq<Byte>, q: nat, i: nat, n: nat)
    requires i <= n && q + CONTAINED_HANDLES_OFFSET + 2 * n <= |s|
    ensures Resolved(s, ContainedFrom(s, q, i, n))
    decreases n - i
  {
    hide HandlePtr;
    if i < n {
      ContainedResolved(s, q, i + 1, n);
    }
  }

  ghost predicate CountsMatch(typeCount: map<Byte, nat>, objects: seq<Contained>)
  {
    forall t: Byte :: CountOfType(objects, t) == if t in typeCount then typeCount[t] else 0
  }

  lemma CountsMatchStep(typeCount: map<Byte, nat>, objects: seq<Contained>, o: Contained)
    requires CountsMatch(typeCount, objects)
    ensures CountsMatch(typeCount[o.typ := 1 + if o.typ in typeCount then typeCount[o.typ] else 0], objects + [o])
  {
    assert (objects + [o])[..|objects|] == objects;
  }

  class Baseboard {
    const index: nat
    var name: string
    var boardType: Byte  // indeterminate in the program when the structure is missing; 0 here
    var containedObjects: seq<Contained>
    var faulted: bool    // construction read outside the storage

    constructor (index: Byte, s: seq<Byte>)
      ensures this.index == index && name == "Board_" + Decimal(index)
      ensures var p := Nth(Walk(s, At(0), BASEBOARD, 0), index);
              && (faulted <==> p.Wild? || (p.At? && !BoardReadable(s, p.off)))
              && (p.Null? ==> containedObjects == [] && boardType == 0)
              && (p.At? && !faulted ==>
                    boardType == s[p.off + BOARD_TYPE_OFFSET] && containedObjects == ContainedOf(s, p.off))
    {
      hide Walk, HandlePtr, Nth;
      var objects: seq<Contained> := [];
      var kind: Byte, bad := 0, false;
      var p := GetSMBIOSTypeIndexPtr(s, At(0), BASEBOARD, index);
      if p.Wild? || (p.At? && !BoardFits(s, p.off)) {
        bad := true;
      } else if p.At? {
        kind := s[p.off + BOARD_TYPE_OFFSET];
        var num: nat := s[p.off + CONTAINED_COUNT_OFFSET];
        for i := 0 to num
          invariant !bad && objects + ContainedFrom(s, p.off, i, num) == ContainedOf(s, p.off)
          invariant forall k :: 0 <= k < i ==> !HandlePtr(s, At(0), ListedHandle(s, p.off, k)).Wild?
        {
          var h := ListedHandle(s, p.off, i);
          var data := SmbiosHandlePtr(s, At(0), h);
          if data.Wild? {
            bad := true;
            break;
          }
          if data.At? {
            objects := objects + [Contained(h, s[data.off])];
          }
        }
      }
      this.index := index;
      name := "Board_" + Decimal(index);
      boardType := kind;
      containedObjects := objects;
      faulted := bad;
    }

    method SetName(newName: string)
      modifies this`name
      ensures name == newName
    {
      name := newName;
    }

    /** findIndexOfType, with its running count per type. */
    method FindIndexOfType(handle: Word16) returns (found: bool, n: nat)
      ensures found <==> Lists(containedObjects, handle)
      ensures n == if found then IndexOfType(containedObjects, handle) else 0
    {
      var typeCount: map<Byte, nat> := map[];
      var i := 0;
      while i < |containedObjects|
        invariant 0 <= i <= |containedObjects|
        invariant forall b :: 0 <= b < i ==> containedObjects[b].handle != handle
        invariant CountsMatch(typeCount, containedObjects[..i])
      {
        var o := containedObjects[i];
        if handle == o.handle {
          assert FirstAt(containedObjects, handle) == i;
          return true, if o.typ in typeCount then typeCount[o.typ] else 0;
        }
        CountsMatchStep(typeCount, containedObjects[..i], o);
        assert containedObjects[..i + 1] == containedObjects[..i] + [o];
        typeCount := typeCount[o.typ := 1 + if o.typ in typeCount then typeCount[o.typ] else 0];
        i := i + 1;
      }
      return false, 0;
    }
  }

  // ----- Board names ----------------------------------------------------------------

  predicate IsProcessorModule(boardType: Byte)
  {
    boardType == 6 || boardType == 11 || boardType == 12
  }

  ghost function Modules(types: seq<Byte>): (n: nat)
  {
    if types == [] then 0
    else Modules(types[..|types| - 1]) + if IsProcessorModule(types[|types| - 1]) then 1 else 0
  }

  /** Processor modules are numbered among themselves; every other board keeps its index. */
  ghost function BoardName(types: seq<Byte>, k: nat): (name: string)
    requires k < |types|
  {
    if IsProcessorModule(types[k]) then "ProcessorModule_" + Decimal(Modules(types[..k])) else "Board_" + Decimal(k)
  }

  lemma BoardNamesKept(types: seq<Byte>, t: Byte)
    ensures forall k :: 0 <= k < |types| ==> BoardName(types + [t], k) == BoardName(types, k)
    ensures BoardName(types + [t], |types|) ==
            if IsProcessorModule(t) then "ProcessorModule_" + Decimal(Modules(types)) else "Board_" + Decimal(|types|)
    ensures Modules(types + [t]) == Modules(types) + if IsProcessorModule(t) then 1 else 0
  {
    hide Decimal;
    assert (types + [t])[..|types|] == types;
    assert forall k :: 0 <= k < |types| ==> (types + [t])[..k] == types[..k];
  }

  lemma {:induction false} ModulesGrow(types: seq<Byte>, j: nat, k: nat)
    requires j < k <= |types| && IsProcessorModule(types[j])
    ensures Modules(types[..j]) < Modules(types[..k])
    decreases k
  {
    assert types[..k][..k - 1] == types[..k - 1];
    if j < k - 1 {
      ModulesGrow(types, j, k - 1);
    }
  }

  lemma BoardNamesDistinct(types: seq<Byte>, j: nat, k: nat)
    requires j < k < |types|
    ensures BoardName(types, j) != BoardName(types, k)
  {
    var a, b := BoardName(types, j), BoardName(types, k);
    assert a[0] == (if IsProcessorModule(types[j]) then 'P' else 'B');
    assert b[0] == (if IsProcessorModule(types[k]) then 'P' else 'B');
    if a == b {
      if IsProcessorModule(types[j]) && IsProcessorModule(types[k]) {
        ModulesGrow(types, j, k);
        SuffixesEqual("ProcessorModule_", Decimal(Modules(types[..j])), Decimal(Modules(types[..k])));
        DecimalInjective(Modules(types[..j]), Modules(types[..k]));
      } else {
        SuffixesEqual("Board_", Decimal(j), Decimal(k));
        DecimalInjective(j, k);
      }
    }
  }

  /** What naming a DIMM uses of a board. */
  datatype BoardView = BoardView(name: string, objects: seq<Contained>)

  /** The board records objects are created for. */
  ghost function BoardHits(s: seq<Byte>): (hits: seq<nat>)
  {
    var hits := Walk(s, At(0), BASEBOARD, 0).hits;
    hits[..Min(LIMIT_ENTRY_LEN, |hits|)]
  }

  /** Counting and constructing the boards reads nothing outside the storage. */
  ghost predicate BoardsReadable(s: seq<Byte>)
  {
    && !CountLeaves(s, Walk(s, At(0), BASEBOARD, 0))
    && forall k :: 0 <= k < |BoardHits(s)| ==> BoardReadable(s, BoardHits(s)[k])
  }

  ghost function BoardTypes(s: seq<Byte>): (types: seq<Byte>)
    requires BoardsReadable(s)
    ensures |types| == |BoardHits(s)|
  {
    var hits := BoardHits(s);
    seq(|hits|, k requires 0 <= k < |hits| => assert BoardReadable(s, hits[k]); s[hits[k] + BOARD_TYPE_OFFSET])
  }

  /** The boards of a storage: each has the name its type and place call for, and the objects
      its listed handles lead to. */
  ghost function BoardViews(s: seq<Byte>): (views: seq<BoardView>)
    requires BoardsReadable(s)
    ensures |views| == |BoardHits(s)|
  {
    var hits, types := BoardHits(s), BoardTypes(s);
    seq(|hits|, k requires 0 <= k < |hits| =>
      assert BoardReadable(s, hits[k]); BoardView(BoardName(types, k), ContainedOf(s, hits[k])))
  }

  ghost function View(board: Baseboard): (v: BoardView)
    reads board
  {
    BoardView(board.name, board.containedObjects)
  }

  ghost predicate Show(boards: seq<Baseboard>, views: seq<BoardView>)
    reads boards
  {
    |boards| == |views| && forall k :: 0 <= k < |boards| ==> View(boards[k]) == views[k]
  }

  /** systemInfoUpdate's board loop: it builds the boards of the storage, unless that reads
      outside it. */
  method BuildBoards(s: seq<Byte>) returns (ok: bool, boards: seq<Baseboard>)
    ensures ok <==> BoardsReadable(s)
    ensures ok ==> Show(boards, BoardViews(s))
    ensures ok ==> forall k :: 0 <= k < |boards| ==> boards[k].boardType == BoardTypes(s)[k]
    ensures fresh(boards)
  {
    hide Walk, CountLeaves, Modules, BoardReadable, BoardFits, ContainedOf, BoardName, Built, IsProcessorModule;
    boards := [];
    ghost var hits := BoardHits(s);
    var c := GetTotalNum(s, BASEBOARD, 0);
    if c.Unsafe? {
      return false, boards;
    }
    ghost var types: seq<Byte>, views: seq<BoardView> := [], [];
    var moduleIndex: nat := 0;
    NothingBuilt(s, hits);
    for index := 0 to c.num
      invariant |boards| == |types| == |views| == index <= |hits| == c.num
      invariant moduleIndex == Modules(types) && Built(s, hits, types, views)
      invariant fresh(boards) && Show(boards, views)
      invariant forall k :: 0 <= k < index ==> boards[k].boardType == types[k]
    {
      var board := BuildBoard(s, index, moduleIndex, types);
      if board.faulted {
        BuiltReads(s, hits, types, views);
        return false, boards;
      }
      BuiltAppend(s, hits, types, views);
      if IsProcessorModule(board.boardType) {
        moduleIndex := moduleIndex + 1;
      }
      boards := boards + [board];
      types, views := types + [board.boardType], views + [View(board)];
    }
    BuiltReads(s, hits, types, views);
    ok := true;
  }

  /** One board, renamed if it is a processor module. `types` are those of the boards before it. */
  method BuildBoard(s: seq<Byte>, index: Byte, moduleIndex: nat, ghost types: seq<Byte>) returns (board: Baseboard)
    requires index < |BoardHits(s)| && |types| == index && moduleIndex == Modules(types)
    ensures fresh(board) && (board.faulted <==> !BoardReadable(s, BoardHits(s)[index]))
    ensures !board.faulted ==>
              && BoardFits(s, BoardHits(s)[index]) && board.boardType == s[BoardHits(s)[index] + BOARD_TYPE_OFFSET]
              && View(board) == BoardView(BoardName(types + [board.boardType], index), ContainedOf(s, BoardHits(s)[index]))
              && Modules(types + [board.boardType]) == moduleIndex + if IsProcessorModule(board.boardType) then 1 else 0
  {
    hide Walk, Decimal, Modules, BoardReadable, BoardFits, ContainedOf, BoardName;
    board := new Baseboard(index, s);
    if !board.faulted {
      ReadableFits(s, BoardHits(s)[index]);
      BoardNamesKept(types, board.boardType);
      if IsProcessorModule(board.boardType) {
        board.SetName("ProcessorModule_" + Decimal(moduleIndex));
      }
    }
  }

  /** The first boards of the storage, by the types read for them. */
  ghost predicate Built(s: seq<Byte>, hits: seq<nat>, types: seq<Byte>, views: seq<BoardView>)
  {
    && |types| == |views| <= |hits|
    && forall k :: 0 <= k < |types| ==> BuiltAt(s, hits[k], types[k], BoardName(types, k), views[k])
  }

  ghost predicate BuiltAt(s: seq<Byte>, q: nat, t: Byte, name: string, view: BoardView)
  {
    BoardReadable(s, q) && t == s[q + BOARD_TYPE_OFFSET] && view == BoardView(name, ContainedOf(s, q))
  }

  lemma NothingBuilt(s: seq<Byte>, hits: seq<nat>)
    ensures Built(s, hits, [], []) && Modules([]) == 0
  {
  }

  lemma BuiltAppend(s: seq<Byte>, hits: seq<nat>, types: seq<Byte>, views: seq<BoardView>)
    requires Built(s, hits, types, views) && |types| < |hits| && BoardReadable(s, hits[|types|])
    ensures var q := hits[|types|];
            var t := s[q + BOARD_TYPE_OFFSET];
            Built(s, hits, types + [t], views + [BoardView(BoardName(types + [t], |types|), ContainedOf(s, q))])
  {
    hide IsProcessorModule, Decimal, Modules, BoardReadable, BoardFits, ContainedOf, BoardName, BuiltAt;
    var n := |types|;
    var q := hits[n];
    ReadableFits(s, q);
    var t := s[q + BOARD_TYPE_OFFSET];
    BoardNamesKept(types, t);
    var name := BoardName(types + [t], n);
    var types', views' := types + [t], views + [BoardView(name, ContainedOf(s, q))];
    forall k | 0 <= k < n + 1 ensures BuiltAt(s, hits[k], types'[k], BoardName(types', k), views'[k]) {
      if k < n {
        assert BuiltAt(s, hits[k], types[k], BoardName(types, k), views[k]);
      } else {
        BuiltNow(s, q, name);
      }
    }
  }

  lemma BuiltNow(s: seq<Byte>, q: nat, name: string)
    requires BoardReadable(s, q)
    ensures BuiltAt(s, q, s[q + BOARD_TYPE_OFFSET], name, BoardView(name, ContainedOf(s, q)))
  {
  }

  lemma BuiltReads(s: seq<Byte>, hits: seq<nat>, types: seq<Byte>, views: seq<BoardView>)
    requires Built(s, hits, types, views)
    ensures forall k :: 0 <= k < |types| ==> BoardReadable(s, hits[k])
    ensures BoardsReadable(s) && hits == BoardHits(s) && |types| == |hits| ==>
              types == BoardTypes(s) && views == BoardViews(s)
  {
    hide BoardReadable, ContainedOf, BoardName, Walk, CountLeaves;
    assert forall k :: 0 <= k < |types| ==> BuiltAt(s, hits[k], types[k], BoardName(types, k), views[k]);
  }

  lemma ReadableFits(s: seq<Byte>, q: nat)
    requires BoardReadable(s, q)
    ensures BoardFits(s, q)
  {
  }

  // ----- DIMM names -----------------------------------------------------------------

  /** The first board that contains the handle, or the number of boards if none does. */
  ghost function FirstBoard(views: seq<BoardView>, handle: Word16): (b: nat)
    ensures b <= |views|
    ensures b < |views| ==> Lists(views[b].objects, handle)
    ensures forall c :: 0 <= c < b ==> !Lists(views[c].objects, handle)
    decreases |views|
  {
    if views == [] || Lists(views[0].objects, handle) then 0 else 1 + FirstBoard(views[1..], handle)
  }

  ghost function ContainedName(view: BoardView, handle: Word16): (name: string)
    requires Lists(view.objects, handle)
  {
    view.name + "_Memory_" + Decimal(IndexOfType(view.objects, handle))
  }

  /** The first containing board wins; a DIMM no board contains keeps its own number. */
  ghost function DimmName(views: seq<BoardView>, index: nat, handle: Word16): (name: string)
  {
    var b := FirstBoard(views, handle);
    if b < |views| then ContainedName(views[b], handle) else "Memory_" + Decimal(index)
  }

  /** The name loop for one DIMM. */
  method NameDimm(boards: seq<Baseboard>, ghost views: seq<BoardView>, index: nat, handle: Word16)
    returns (name: string)
    requires Show(boards, views)
    ensures name == DimmName(views, index, handle)
  {
    hide Lists, IndexOfType, FirstBoard;
    name := "Memory_" + Decimal(index);
    for b := 0 to |boards|
      invariant forall c :: 0 <= c < b ==> !Lists(views[c].objects, handle)
      invariant name == "Memory_" + Decimal(index)
    {
      assert View(boards[b]) == views[b];
      var found, n := boards[b].FindIndexOfType(handle);
      if found {
        name := boards[b].name + "_" + "Memory_" + Decimal(n);
        assert FirstBoard(views, handle) == b;
        assert name == views[b].name + ("_" + "Memory_") + Decimal(n);
        assert "_" + "Memory_" == "_Memory_";
        return;
      }
    }
    assert FirstBoard(views, handle) == |views|;
  }

  /** A name ends where its last underscore is, so its number cannot swallow one. */
  lemma LongerPrefixDiffers(u: string, d: string, v: string, e: string)
    requires |v| < |u| && u[|u| - 1] == '_' && forall i :: 0 <= i < |e| ==> e[i] != '_'
    ensures u + d != v + e
  {
    if |u| + |d| == |v| + |e| {
      assert (u + d)[|u| - 1] == '_' && (v + e)[|u| - 1] == e[|u| - 1 - |v|];
    }
  }

  lemma JoinInjective(a: string, b: string, m: nat, n: nat)
    requires a + "_Memory_" + Decimal(m) == b + "_Memory_" + Decimal(n)
    ensures a == b && m == n
  {
    var u, v, d, e := a + "_Memory_", b + "_Memory_", Decimal(m), Decimal(n);
    assert |u| == |v| by {
      if |u| > |v| {
        LongerPrefixDiffers(u, d, v, e);
      } else if |v| > |u| {
        LongerPrefixDiffers(v, e, u, d);
      }
    }
    assert (u + d)[..|u|] == u && (v + e)[..|u|] == v && (u + d)[|u|..] == d && (v + e)[|u|..] == e;
    assert u[..|a|] == a && v[..|b|] == b;
    DecimalInjective(m, n);
  }

  /** Names numbered as the board loop numbers them, handles resolved. */
  ghost predicate BoardsBuilt(s: seq<Byte>, views: seq<BoardView>, types: seq<Byte>)
  {
    && |types| == |views|
    && forall k :: 0 <= k < |views| ==> views[k].name == BoardName(types, k) && Resolved(s, views[k].objects)
  }

  /** The handle of the DIMM record at `q` leads back to it. */
  ghost predicate LeadsBack(s: seq<Byte>, q: nat)
  {
    q + HEADER_SIZE <= |s| && s[q] == MEMORY_DEVICE && HandlePtr(s, At(0), Le16(s, q + 2)) == At(q)
  }

  /** Names of two different DIMMs differ, whichever boards contain them. */
  lemma DimmNamesDistinct(s: seq<Byte>, views: seq<BoardView>, types: seq<Byte>, i: nat, j: nat, p: nat, q: nat)
    requires BoardsBuilt(s, views, types)
    requires i != j && p != q && LeadsBack(s, p) && LeadsBack(s, q)
    ensures DimmName(views, i, Le16(s, p + 2)) != DimmName(views, j, Le16(s, q + 2))
  {
    hide HandlePtr, Lists, IndexOfType, Decimal, FirstBoard;
    var hi, hj := Le16(s, p + 2), Le16(s, q + 2);
    var b, c := FirstBoard(views, hi), FirstBoard(views, hj);
    if b < |views| && c < |views| {
      ContainedNamesDistinct(s, views, types, b, c, p, q);
    } else if b < |views| {
      ContainedNameStart(views, types, s, b, hi);
    } else if c < |views| {
      ContainedNameStart(views, types, s, c, hj);
    } else if "Memory_" + Decimal(i) == "Memory_" + Decimal(j) {
      SuffixesEqual("Memory_", Decimal(i), Decimal(j));
      DecimalInjective(i, j);
    }
  }

  lemma ContainedNameStart(views: seq<BoardView>, types: seq<Byte>, s: seq<Byte>, b: nat, handle: Word16)
    requires BoardsBuilt(s, views, types) && b < |views| && Lists(views[b].objects, handle)
    ensures ContainedName(views[b], handle) != [] && ContainedName(views[b], handle)[0] != 'M'
  {
    hide Lists, IndexOfType, Resolved;
    var name := BoardName(types, b);
    assert name[0] == 'P' || name[0] == 'B';
    assert ContainedName(views[b], handle)[0] == name[0];
  }

  lemma ContainedNamesDistinct(s: seq<Byte>, views: seq<BoardView>, types: seq<Byte>, b: nat, c: nat, p: nat, q: nat)
    requires BoardsBuilt(s, views, types) && b < |views| && c < |views|
    requires p != q && LeadsBack(s, p) && LeadsBack(s, q)
    requires Lists(views[b].objects, Le16(s, p + 2)) && Lists(views[c].objects, Le16(s, q + 2))
    ensures ContainedName(views[b], Le16(s, p + 2)) != ContainedName(views[c], Le16(s, q + 2))
  {
    hide HandlePtr, Lists, IndexOfType, Decimal;
    var hi, hj := Le16(s, p + 2), Le16(s, q + 2);
    if ContainedName(views[b], hi) == ContainedName(views[c], hj) {
      JoinInjective(views[b].name, views[c].name,
                    IndexOfType(views[b].objects, hi), IndexOfType(views[c].objects, hj));
      if b < c {
        BoardNamesDistinct(types, b, c);
      } else if c < b {
        BoardNamesDistinct(types, c, b);
      } else {
        assert Resolved(s, views[b].objects);
        IndexOfTypeInjective(views[b].objects, hi, hj, MEMORY_DEVICE);
      }
    }
  }

  /** Two DIMMs that share a handle get one name if and only if some board lists the handle. */
  lemma SharedHandleNames(views: seq<BoardView>, i: nat, j: nat, handle: Word16)
    requires i != j
    ensures DimmName(views, i, handle) == DimmName(views, j, handle)
       <==> exists b :: 0 <= b < |views| && Lists(views[b].objects, handle)
  {
    hide Lists, IndexOfType, Decimal;
    if FirstBoard(views, handle) == |views| && DimmName(views, i, handle) == DimmName(views, j, handle) {
      SuffixesEqual("Memory_", Decimal(i), Decimal(j));
      DecimalInjective(i, j);
    }
  }

  ghost predicate AllLeadBack(s: seq<Byte>, hits: seq<nat>)
  {
    forall i :: 0 <= i < |hits| ==> LeadsBack(s, hits[i])
  }

  ghost predicate Distinct(names: seq<string>)
  {
    forall i, j :: 0 <= i < j < |names| ==> names[i] != names[j]
  }

  /** The DIMM records objects are created for. */
  ghost function DimmHits(s: seq<Byte>): (hits: seq<nat>)
  {
    var hits := Walk(s, At(0), MEMORY_DEVICE, 0).hits;
    hits[..Min(LIMIT_ENTRY_LEN, |hits|)]
  }

  /** Naming the DIMMs reads nothing outside the storage. */
  ghost predicate NamingReadable(s: seq<Byte>)
  {
    && BoardsReadable(s) && !CountLeaves(s, Walk(s, At(0), MEMORY_DEVICE, 0))
    && forall i :: 0 <= i < |DimmHits(s)| ==> DimmHits(s)[i] + HEADER_SIZE <= |s|
  }

  /** The names of the DIMM objects, in order. */
  ghost function DimmNames(s: seq<Byte>): (names: seq<string>)
    requires NamingReadable(s)
    ensures |names| == |DimmHits(s)|
  {
    var hits, views := DimmHits(s), BoardViews(s);
    seq(|hits|, i requires 0 <= i < |hits| => DimmName(views, i, Le16(s, hits[i] + 2)))
  }

  /** systemInfoUpdate's boards and DIMMs: it gives every counted DIMM its name, unless that
      reads outside the storage. */
  method NameDimms(s: seq<Byte>) returns (ok: bool, names: seq<string>)
    ensures ok <==> NamingReadable(s)
    ensures ok ==> names == DimmNames(s)
  {
    hide Walk, DimmName, CountLeaves, BoardsReadable, BoardViews;
    names := [];
    var okBoards, boards := BuildBoards(s);
    if !okBoards {
      return false, [];
    }
    var c, records := SelectObjects(s, MEMORY_DEVICE);
    if c.Unsafe? {
      return false, [];
    }
    ghost var views := BoardViews(s);
    for index := 0 to c.num
      invariant |names| == index && Show(boards, views) && records == DimmHits(s)
      invariant forall i :: 0 <= i < index ==> records[i] + HEADER_SIZE <= |s|
      invariant forall i :: 0 <= i < index ==> names[i] == DimmName(views, i, Le16(s, records[i] + 2))
    {
      if records[index] + HEADER_SIZE > |s| {
        return false, [];
      }
      var name := NameDimm(boards, views, index, Le16(s, records[index] + 2));
      names := names + [name];
    }
    assert NamingReadable(s);
    ok := true;
  }

  lemma ViewsAreBuilt(s: seq<Byte>)
    requires BoardsReadable(s)
    ensures BoardsBuilt(s, BoardViews(s), BoardTypes(s))
  {
    hide BoardName, Walk, CountLeaves, BoardReadable, Resolved, ContainedFrom;
    var hits, views := BoardHits(s), BoardViews(s);
    forall k | 0 <= k < |views| ensures Resolved(s, views[k].objects) {
      ReadableFits(s, hits[k]);
      ContainedResolved(s, hits[k], 0, s[hits[k] + CONTAINED_COUNT_OFFSET]);
    }
  }

  /** All DIMM names of a storage differ, provided each DIMM's handle leads back to it. */
  lemma AllNamesDistinct(s: seq<Byte>)
    requires NamingReadable(s) && AllLeadBack(s, DimmHits(s))
    ensures Distinct(DimmNames(s))
  {
    hide BoardsBuilt, DimmName, BoardsReadable, BoardViews, BoardTypes, LeadsBack, CountLeaves, Walk;
    ViewsAreBuilt(s);
    WalkAscends(s, At(0), MEMORY_DEVICE, 0);
    var hits := DimmHits(s);
    forall i, j | 0 <= i < j < |hits| ensures DimmNames(s)[i] != DimmNames(s)[j] {
      DimmNamesDistinct(s, BoardViews(s), BoardTypes(s), i, j, hits[i], hits[j]);
    }
  }

  // ----- Unique handles are enough --------------------------------------------------

  lemma {:induction false} OffsetsAreBoundaries(p: nat, ss: seq<Structure>, t: Byte, size: nat, i: nat) returns (k: nat)
    requires WellFormedTable(ss) && i < |OffsetsOfType(p, ss, t, size)|
    ensures k < |ss| && ss[k].typ == t && OffsetsOfType(p, ss, t, size)[i] == Boundary(p, ss, k)
    ensures Boundary(p, ss, k) + |Encode(ss[k])| + 2 <= p + |EncodeTable(ss)|
    decreases |ss|
  {
    hide Encode, EncodeTable, GoodStrings, LooksLikeEntryPoint;
    TableUnfold(ss);
    var q := p + |Encode(ss[0])|;
    assert |EncodeTable(ss[1..])| >= 2 by { TableHasEnd(ss[1..]); }
    if ss[0].typ == t && i == 0 {
      k := 0;
    } else {
      k := OffsetsAreBoundaries(q, ss[1..], t, size, if ss[0].typ == t then i - 1 else i);
      k := k + 1;
    }
  }

  lemma TableHasEnd(ss: seq<Structure>)
    requires WellFormedTable(ss)
    ensures |EncodeTable(ss)| >= 2
  {
  }

  /** In a printed table with unique handles every DIMM's handle leads back to it. */
  lemma UniqueHandlesLeadBack(s: seq<Byte>, p: nat, ss: seq<Structure>)
    requires SkipEntryPoint(s, At(0)) == At(p)
    requires WellFormedTable(ss) && TableAt(s, p, ss) && UniqueHandles(ss)
    ensures AllLeadBack(s, Walk(s, At(p), MEMORY_DEVICE, 0).hits)
  {
    hide SkipEntryPoint, Walk, Encode, GoodStrings, LooksLikeEntryPoint, HandleSearch;
    WalkOfTable(s, p, ss, MEMORY_DEVICE, 0);
    var hits := Walk(s, At(p), MEMORY_DEVICE, 0).hits;
    forall i | 0 <= i < |hits| ensures LeadsBack(s, hits[i]) {
      var k := OffsetsAreBoundaries(p, ss, MEMORY_DEVICE, 0, i);
      TableSuffix(s, p, ss, k);
      AnchorExactly(s, hits[i], ss[k]);
      FieldsAt(s, hits[i], ss[k]);
      HandleSearchOfTable(s, p, ss, ss[k].handle);
      TableHandleFindsFirst(p, ss, ss[k].handle, k);
    }
  }

  /** From the start of the storage, which holds a printed table at `p`. */
  ghost predicate StorageHolds(s: seq<Byte>, p: nat, ss: seq<Structure>)
  {
    WellFormedTable(ss) && TableAt(s, p, ss) && SkipEntryPoint(s, At(0)) == At(p)
  }

  lemma WalkFromStart(s: seq<Byte>, p: nat, ss: seq<Structure>, t: Byte)
    requires StorageHolds(s, p, ss)
    ensures Walk(s, At(0), t, 0) == Walk(s, At(p), t, 0) == Trail(OffsetsOfType(p, ss, t, 0), Null)
  {
    hide Encode, WellFormed, Search, Next, SkipEntryPoint, TableAt, OffsetsOfType;
    NoSkipAt(s, p, ss);
    WalkOfTable(s, p, ss, t, 0);
    assert TypePtr(s, At(0), t, 0) == TypePtr(s, At(p), t, 0);
  }

  lemma HandleFromStart(s: seq<Byte>, p: nat, ss: seq<Structure>, handle: Word16)
    requires StorageHolds(s, p, ss)
    ensures !HandlePtr(s, At(0), handle).Wild?
  {
    hide Encode, WellFormed, SkipEntryPoint, TableAt, HandleSearch;
    HandleSearchOfTable(s, p, ss, handle);
  }

  /** On a printed table the only reads that can leave the storage are those of a board's
      listed handles, whose count the code does not compare with the board's length. */
  lemma NamingReadableExactly(s: seq<Byte>, p: nat, ss: seq<Structure>)
    requires StorageHolds(s, p, ss)
    ensures NamingReadable(s) <==> forall k :: 0 <= k < |BoardHits(s)| ==> BoardFits(s, BoardHits(s)[k])
  {
    hide StorageHolds, Walk, HandlePtr, BoardFits;
    WalkFromStart(s, p, ss, BASEBOARD);
    WalkFromStart(s, p, ss, MEMORY_DEVICE);
    forall k | 0 <= k < |BoardHits(s)| && BoardFits(s, BoardHits(s)[k]) ensures BoardReadable(s, BoardHits(s)[k]) {
      ReadableOfFits(s, p, ss, BoardHits(s)[k]);
    }
    forall i | 0 <= i < |DimmHits(s)| ensures DimmHits(s)[i] + HEADER_SIZE <= |s| {
      RecordInside(s, p, ss, MEMORY_DEVICE, i);
    }
  }

  lemma ReadableOfFits(s: seq<Byte>, p: nat, ss: seq<Structure>, q: nat)
    requires StorageHolds(s, p, ss) && BoardFits(s, q)
    ensures BoardReadable(s, q)
  {
    hide StorageHolds, HandlePtr;
    forall i | 0 <= i < s[q + CONTAINED_COUNT_OFFSET]
      ensures !HandlePtr(s, At(0), ListedHandle(s, q, i)).Wild?
    {
      HandleFromStart(s, p, ss, ListedHandle(s, q, i));
    }
  }

  lemma RecordInside(s: seq<Byte>, p: nat, ss: seq<Structure>, t: Byte, i: nat)
    requires StorageHolds(s, p, ss) && i < |Walk(s, At(0), t, 0).hits|
    ensures Walk(s, At(0), t, 0).hits[i] + HEADER_SIZE + 2 <= |s|
  {
    hide Walk, Encode, SkipEntryPoint, GoodStrings, LooksLikeEntryPoint;
    WalkFromStart(s, p, ss, t);
    var k := OffsetsAreBoundaries(p, ss, t, 0, i);
    TableSuffix(s, p, ss, k);
    EncodedLength(ss[k]);
  }

  lemma EncodedLength(st: Structure)
    requires |st.body| <= 0xff - HEADER_SIZE
    ensures |Encode(st)| >= HEADER_SIZE + |st.body| + 2
  {
  }

  /** Every board structure is long enough for the handles its count byte announces. */
  ghost predicate CompleteBoards(ss: seq<Structure>)
  {
    forall k :: 0 <= k < |ss| && ss[k].typ == BASEBOARD ==>
      var body, count := ss[k].body, CONTAINED_COUNT_OFFSET - HEADER_SIZE;
      count < |body| && count + 1 + 2 * (body[count] as nat) <= |body|
  }

  /** How far past the table the 255 handles of a four-byte board at its end would reach. */
  const BOARD_ROOM := CONTAINED_HANDLES_OFFSET + 2 * 0xff - (HEADER_SIZE + 2 + 2)

  /** Board lists are inside the storage if the boards are complete, and whatever they
      announce if the storage goes on for 517 bytes after the table. */
  lemma BoardsInside(s: seq<Byte>, p: nat, ss: seq<Structure>, i: nat)
    requires StorageHolds(s, p, ss) && i < |BoardHits(s)|
    requires CompleteBoards(ss) || p + |EncodeTable(ss)| + BOARD_ROOM <= |s|
    ensures BoardFits(s, BoardHits(s)[i])
  {
    hide Walk, Encode, EncodeTable, SkipEntryPoint, GoodStrings, LooksLikeEntryPoint, StructureAt, BoardFits,
      CompleteBoards;
    WalkFromStart(s, p, ss, BASEBOARD);
    var k := OffsetsAreBoundaries(p, ss, BASEBOARD, 0, i);
    var q := BoardHits(s)[i];
    TableSuffix(s, p, ss, k);
    assert StructureAt(s, q, ss[k]);
    EncodedLength(ss[k]);
    if CompleteBoards(ss) {
      CompleteBoardFits(s, q, ss, k);
    } else {
      RoomyBoardFits(s, q);
    }
  }

  lemma CompleteBoardFits(s: seq<Byte>, q: nat, ss: seq<Structure>, k: nat)
    requires CompleteBoards(ss) && k < |ss| && ss[k].typ == BASEBOARD && |ss[k].body| <= 0xff - HEADER_SIZE
    requires StructureAt(s, q, ss[k])
    ensures BoardFits(s, q)
  {
    hide Encode;
    var count := CONTAINED_COUNT_OFFSET - HEADER_SIZE;
    FieldsAt(s, q, ss[k]);
    EncodedLength(ss[k]);
    assert s[q + HEADER_SIZE..q + Length(ss[k])][count] == s[q + CONTAINED_COUNT_OFFSET];
  }

  lemma RoomyBoardFits(s: seq<Byte>, q: nat)
    requires q + CONTAINED_HANDLES_OFFSET + 2 * 0xff <= |s|
    ensures BoardFits(s, q)
  {
  }

  /** On a printed table with complete boards, or room after it, naming succeeds. */
  lemma PrintedNamingReadable(s: seq<Byte>, p: nat, ss: seq<Structure>)
    requires StorageHolds(s, p, ss)
    requires CompleteBoards(ss) || p + |EncodeTable(ss)| + BOARD_ROOM <= |s|
    ensures NamingReadable(s)
    ensures |DimmNames(s)| == Min(LIMIT_ENTRY_LEN, |OffsetsOfType(p, ss, MEMORY_DEVICE, 0)|)
  {
    hide Walk, NamingReadable, TableAt, Encode, WellFormed, SkipEntryPoint, BoardFits, BoardHits, CompleteBoards,
      EncodeTable;
    forall k | 0 <= k < |BoardHits(s)| ensures BoardFits(s, BoardHits(s)[k]) {
      BoardsInside(s, p, ss, k);
    }
    NamingReadableExactly(s, p, ss);
    WalkFromStart(s, p, ss, MEMORY_DEVICE);
  }

  /** The composed result: on a printed table with unique handles, complete boards or room after
      the table, the DIMM loop names every memory device (up to the 255 it counts), and
      no name is given twice. */
  lemma PrintedDimmNames(s: seq<Byte>, p: nat, ss: seq<Structure>)
    requires StorageHolds(s, p, ss) && UniqueHandles(ss)
    requires CompleteBoards(ss) || p + |EncodeTable(ss)| + BOARD_ROOM <= |s|
    ensures NamingReadable(s)
    ensures |DimmNames(s)| == Min(LIMIT_ENTRY_LEN, |OffsetsOfType(p, ss, MEMORY_DEVICE, 0)|)
    ensures Distinct(DimmNames(s))
  {
    hide Walk, NamingReadable, LeadsBack, TableAt, Encode, WellFormed, SkipEntryPoint, Distinct, CompleteBoards,
      EncodeTable;
    PrintedNamingReadable(s, p, ss);
    WalkFromStart(s, p, ss, MEMORY_DEVICE);
    UniqueHandlesLeadBack(s, p, ss);
    AllNamesDistinct(s);
  }

  // ----- Two DIMMs, one handle, one name --------------------------------------------

  /** In any storage, two DIMMs with one handle get one name if and only if some board lists it. */
  lemma SharedHandleClash(s: seq<Byte>, i: nat, j: nat)
    requires NamingReadable(s) && i < j < |DimmHits(s)|
    requires Le16(s, DimmHits(s)[i] + 2) == Le16(s, DimmHits(s)[j] + 2)
    ensures DimmNames(s)[i] == DimmNames(s)[j]
       <==> exists b :: 0 <= b < |BoardViews(s)| && Lists(BoardViews(s)[b].objects, Le16(s, DimmHits(s)[i] + 2))
  {
    hide DimmName, BoardsReadable, BoardViews, CountLeaves, Walk, Lists;
    SharedHandleNames(BoardViews(s), i, j, Le16(s, DimmHits(s)[i] + 2));
  }

  /** A board that lists handle 5, and two memory devices with that handle. */
  const BOARD_BODY: seq<Byte> := Zeros(9) + [10, 1, 5, 0]
  const LISTING_BOARD := Structure(BASEBOARD, 1, BOARD_BODY, [])
  const SHARED_DIMM := Structure(MEMORY_DEVICE, 5, [], [])
  const SHARED_TABLE := [LISTING_BOARD, SHARED_DIMM, SHARED_DIMM]

  lemma SharedWellFormed()
    ensures WellFormed(LISTING_BOARD) && WellFormed(SHARED_DIMM)
    ensures |Encode(LISTING_BOARD)| == 19 && |Encode(SHARED_DIMM)| == 6
    ensures CompleteBoards(SHARED_TABLE) && WellFormedTable(SHARED_TABLE)
  {
    var b := LISTING_BOARD.body;
    assert |b| == 13 && b[10] == 1;
    assert StringSet([]) == [0, 0];
  }

  lemma SharedOffsets()
    requires WellFormedTable(SHARED_TABLE) && |Encode(LISTING_BOARD)| == 19 && |Encode(SHARED_DIMM)| == 6
    ensures OffsetsOfType(0, SHARED_TABLE, BASEBOARD, 0) == [0]
    ensures OffsetsOfType(0, SHARED_TABLE, MEMORY_DEVICE, 0) == [19, 25]
    ensures TableHandle(0, SHARED_TABLE, 5) == At(19)
  {
    hide Encode, WellFormed;
    var d, one, two := SHARED_DIMM, [SHARED_DIMM], [SHARED_DIMM, SHARED_DIMM];
    assert one[1..] == [] && two[1..] == one && SHARED_TABLE[1..] == two;
    assert OffsetsOfType(25, one, MEMORY_DEVICE, 0) == [25] + OffsetsOfType(31, [], MEMORY_DEVICE, 0);
    assert OffsetsOfType(19, two, MEMORY_DEVICE, 0) == [19] + OffsetsOfType(25, one, MEMORY_DEVICE, 0);
    assert OffsetsOfType(25, one, BASEBOARD, 0) == OffsetsOfType(31, [], BASEBOARD, 0);
    assert OffsetsOfType(19, two, BASEBOARD, 0) == OffsetsOfType(25, one, BASEBOARD, 0);
  }

  const SHARED_STORAGE: seq<Byte> := EncodeTable(SHARED_TABLE) + Zeros(STORAGE_SIZE - 33)

  lemma SharedStorageHolds()
    ensures |SHARED_STORAGE| == STORAGE_SIZE && StorageHolds(SHARED_STORAGE, 0, SHARED_TABLE)
  {
    hide Encode, WellFormed, TableAt, SkipEntryPoint, EncodeTable;
    SharedWellFormed();
    var one, two := [SHARED_DIMM], [SHARED_DIMM, SHARED_DIMM];
    assert one[1..] == [] && two[1..] == one && SHARED_TABLE[1..] == two;
    TableUnfold([]);
    TableUnfold(one);
    TableUnfold(two);
    TableUnfold(SHARED_TABLE);
    var s, tail := SHARED_STORAGE, Zeros(STORAGE_SIZE - 33);
    EncodeTableAt([], SHARED_TABLE, tail);
    assert [] + EncodeTable(SHARED_TABLE) + tail == s;
    NoSkipAt(s, 0, SHARED_TABLE);
  }

  /** The board's one listed handle leads to the first memory device. */
  lemma SharedBoardLists(s: seq<Byte>)
    requires s == SHARED_STORAGE && StorageHolds(s, 0, SHARED_TABLE) && BoardFits(s, 0)
    ensures Lists(ContainedOf(s, 0), 5)
  {
    hide Encode, WellFormed, SkipEntryPoint, HandleSearch;
    SharedWellFormed();
    SharedOffsets();
    HandleSearchOfTable(s, 0, SHARED_TABLE, 5);
    FieldsAt(s, 0, LISTING_BOARD);
    var body := s[4..17];
    assert body == BOARD_BODY;
    assert body[10] == s[14] && body[11] == s[15] && body[12] == s[16];
    assert ListedHandle(s, 0, 0) == 5;
    assert ContainedFrom(s, 0, 0, 1) == [Contained(5, s[19])] + ContainedFrom(s, 0, 1, 1);
    assert ContainedOf(s, 0)[0].handle == 5;
  }

  lemma SharedHandles(s: seq<Byte>)
    requires s == SHARED_STORAGE && StorageHolds(s, 0, SHARED_TABLE) && |s| == STORAGE_SIZE
    ensures Le16(s, 21) == 5 && Le16(s, 27) == 5
  {
    hide Encode, SkipEntryPoint, HandleSearch, GoodStrings, LooksLikeEntryPoint;
    SharedWellFormed();
    var one, two := [SHARED_DIMM], [SHARED_DIMM, SHARED_DIMM];
    assert two[1..] == one && SHARED_TABLE[1..] == two;
    assert TableAt(s, 19, two);
    assert TableAt(s, 25, one);
    FieldsAt(s, 19, SHARED_DIMM);
    FieldsAt(s, 25, SHARED_DIMM);
  }

  lemma SharedViews(s: seq<Byte>)
    requires s == SHARED_STORAGE && StorageHolds(s, 0, SHARED_TABLE) && NamingReadable(s) && BoardHits(s) == [0]
    ensures |BoardViews(s)| == 1 && Lists(BoardViews(s)[0].objects, 5)
  {
    hide StorageHolds, ContainedOf, Lists, BoardName, Walk, CountLeaves;
    assert BoardReadable(s, BoardHits(s)[0]);
    SharedBoardLists(s);
  }

  /** A 64 KiB storage in which both memory devices get the same name. */
  lemma SharedHandleExample()
    ensures var s := SHARED_STORAGE;
            |s| == STORAGE_SIZE && NamingReadable(s) && |DimmNames(s)| == 2 && DimmNames(s)[0] == DimmNames(s)[1]
  {
    hide Encode, WellFormed, SkipEntryPoint, TableAt, Walk, NamingReadable, CompleteBoards, DimmName, ContainedOf, Lists,
      EncodeTable;
    var s := SHARED_STORAGE;
    SharedWellFormed();
    SharedOffsets();
    SharedStorageHolds();
    PrintedNamingReadable(s, 0, SHARED_TABLE);
    WalkFromStart(s, 0, SHARED_TABLE, BASEBOARD);
    WalkFromStart(s, 0, SHARED_TABLE, MEMORY_DEVICE);
    assert DimmHits(s) == [19, 25] && BoardHits(s) == [0];
    SharedHandles(s);
    SharedViews(s);
    SharedHandleClash(s, 0, 1);
  }
}
