/**
 The SMBIOS structure-table walker of include/smbios_mdrv2.hpp.

 A table lives in a byte storage; a C++ pointer into it is an offset. `Null` is the null
 pointer and `Wild` stands for an execution that reads a byte outside the storage, which
 C++ leaves undefined. Every function is total: no table is excluded.

 Each scanning loop of the source is a method, proved equal to a function; the functions are
 what the other modules reason about.
 */
module Walker {
  import opened Bytes

  const MDR_SMBIOS_SIZE := 0x8000
  const SEPARATE_LEN := 2
  const HEADER_SIZE := 4
  const ENTRY_POINT_SIZE := 24
  const ENTRY_POINT_TABLE_ADDR := 16
  const ANCHOR30: seq<Byte> := [0x5f, 0x53, 0x4d, 0x33, 0x5f]

  datatype Ptr = Null | At(off: nat) | Wild

  // ----- The entry point ------------------------------------------------------------

  predicate AnchorAt(s: seq<Byte>, p: nat)
    requires p + |ANCHOR30| <= |s|
  {
    && s[p] == ANCHOR30[0] && s[p + 1] == ANCHOR30[1] && s[p + 2] == ANCHOR30[2]
    && s[p + 3] == ANCHOR30[3] && s[p + 4] == ANCHOR30[4]
  }

  /** The structure-table address of the 64-bit entry point at `p`. */
  function TableAddr(s: seq<Byte>, p: nat): (a: nat)
    requires p + ENTRY_POINT_SIZE <= |s|
  {
    Le64(s, p + ENTRY_POINT_TABLE_ADDR)
  }

  /** smbiosSkipEntryPoint: loop-free in the source. Never moves backwards. */
  function SkipEntryPoint(s: seq<Byte>, p: Ptr): (r: Ptr)
    ensures p.Null? <==> r.Null?
    ensures !p.At? ==> r == p
    ensures p.At? && r.At? ==> p.off <= r.off < p.off + MDR_SMBIOS_SIZE
  {
    if !p.At? then p
    else if p.off + |ANCHOR30| > |s| then Wild
    else if !AnchorAt(s, p.off) then p
    else if p.off + ENTRY_POINT_SIZE > |s| then Wild
    else if TableAddr(s, p.off) < MDR_SMBIOS_SIZE then At(p.off + TableAddr(s, p.off))
    else p
  }

  // ----- Finding the double NUL that ends a structure -------------------------------

  predicate PairZero(s: seq<Byte>, d: nat)
    requires d + 1 < |s|
  {
    s[d] == 0 && s[d + 1] == 0
  }

  /** The inner loop of both scanners; `len` is the value its guard counter has at `d`. */
  function Scan(s: seq<Byte>, d: nat, len: nat): (r: Ptr)
    ensures r.At? ==> d + SEPARATE_LEN <= r.off <= |s|
    decreases |s| - d
  {
    if d + 1 >= |s| then Wild
    else if PairZero(s, d) then At(d + SEPARATE_LEN)
    else if len + 1 >= MDR_SMBIOS_SIZE then Null
    else Scan(s, d + 1, len + 1)
  }

  /** `e` is the first double NUL at or after `d`. */
  ghost predicate FirstPair(s: seq<Byte>, d: nat, e: nat)
  {
    && d <= e && e + 1 < |s| && PairZero(s, e)
    && forall j :: d <= j < e ==> !PairZero(s, j)
  }

  /** What the loop finds, without reference to how it looks: the first double NUL, if the
      guard counter is still below 32 KiB there. */
  lemma {:induction false} ScanFinds(s: seq<Byte>, d: nat, len: nat, e: nat)
    requires len < MDR_SMBIOS_SIZE
    ensures Scan(s, d, len) == At(e + SEPARATE_LEN)
       <==> FirstPair(s, d, e) && len + (e - d) < MDR_SMBIOS_SIZE
    decreases |s| - d
  {
    if d + 1 < |s| && !PairZero(s, d) && len + 1 < MDR_SMBIOS_SIZE {
      ScanFinds(s, d + 1, len + 1, e);
    }
  }

  /** The guard fires exactly when the 32 KiB - len pairs from `d` are readable and none is
      a double NUL; the loop leaves the storage exactly when it runs out of bytes first. */
  lemma {:induction false} ScanGivesUp(s: seq<Byte>, d: nat, len: nat)
    requires len < MDR_SMBIOS_SIZE
    ensures Scan(s, d, len).Null?
       <==> && d + (MDR_SMBIOS_SIZE - len) < |s|
            && forall j :: d <= j < d + (MDR_SMBIOS_SIZE - len) ==> !PairZero(s, j)
    ensures Scan(s, d, len).Wild?
       <==> && d + (MDR_SMBIOS_SIZE - len) >= |s|
            && forall j :: d <= j < |s| - 1 ==> !PairZero(s, j)
    decreases |s| - d
  {
    if d + 1 < |s| && !PairZero(s, d) && len + 1 < MDR_SMBIOS_SIZE {
      ScanGivesUp(s, d + 1, len + 1);
    }
  }

  function Next(s: seq<Byte>, p: Ptr): (r: Ptr)
    ensures p.At? && r.At? ==> p.off + SEPARATE_LEN <= r.off <= |s|
    ensures !p.At? ==> r == p
  {
    if !p.At? then p
    else if p.off + 1 >= |s| then Wild
    else Scan(s, p.off + s[p.off + 1], 0)
  }

  method SmbiosNextPtr(s: seq<Byte>, p: Ptr) returns (r: Ptr)
    ensures r == Next(s, p)
  {
    if !p.At? {
      return p;
    }
    if p.off + 1 >= |s| {
      return Wild;
    }
    var d := p.off + s[p.off + 1];
    var len := 0;
    while d + 1 < |s| && !PairZero(s, d)
      invariant Scan(s, d, len) == Next(s, p)
      decreases |s| - d
    {
      d := d + 1;
      len := len + 1;
      if len >= MDR_SMBIOS_SIZE {
        return Null;
      }
    }
    if d + 1 >= |s| {
      return Wild;
    }
    return At(d + SEPARATE_LEN);
  }

  // ----- Searching by type ----------------------------------------------------------

  /** The outer loop of getSMBIOSTypePtr from a structure boundary `p`. The guard of the
      inner scan starts at the structure's length, not at zero. */
  function Search(s: seq<Byte>, p: nat, t: Byte, size: nat): (r: Ptr)
    ensures r.At? ==> p <= r.off && r.off + 1 < |s| && !PairZero(s, r.off)
                      && s[r.off] == t && s[r.off + 1] >= size
    decreases |s| - p
  {
    if p + 1 >= |s| then Wild
    else if PairZero(s, p) then Null
    else if s[p] == t then
      if s[p + 1] < size then Null else At(p)
    else
      match Scan(s, p + s[p + 1], s[p + 1])
      case At(q) => Search(s, q, t, size)
      case Null => Null
      case Wild => Wild
  }

  function TypePtr(s: seq<Byte>, p: Ptr, t: Byte, size: nat): (r: Ptr)
    ensures p.At? && r.At? ==> p.off <= r.off && r.off + 1 < |s| && !PairZero(s, r.off)
                               && s[r.off] == t && s[r.off + 1] >= size
    ensures !p.At? ==> r == p
  {
    match SkipEntryPoint(s, p)
    case At(q) => Search(s, q, t, size)
    case Null => Null
    case Wild => Wild
  }

  method GetSMBIOSTypePtr(s: seq<Byte>, p: Ptr, t: Byte, size: nat) returns (r: Ptr)
    ensures r == TypePtr(s, p, t, size)
  {
    var q := SkipEntryPoint(s, p);
    if !q.At? {
      return q;
    }
    var d := q.off;
    while d + 1 < |s| && !PairZero(s, d)
      invariant Search(s, d, t, size) == TypePtr(s, p, t, size)
      decreases |s| - d
    {
      var len: nat := s[d + 1];
      if s[d] != t {
        ghost var start, startLen := d + len, len;
        d := d + len;
        while d + 1 < |s| && !PairZero(s, d)
          invariant start <= d
          invariant Scan(s, d, len) == Scan(s, start, startLen)
          decreases |s| - d
        {
          d := d + 1;
          len := len + 1;
          if len >= MDR_SMBIOS_SIZE {
            return Null;
          }
        }
        if d + 1 >= |s| {
          return Wild;
        }
        d := d + SEPARATE_LEN;
        continue;
      }
      if len < size {
        return Null;
      }
      return At(d);
    }
    return if d + 1 >= |s| then Wild else Null;
  }

  // ----- Searching by handle --------------------------------------------------------

  function HandleSearch(s: seq<Byte>, p: Ptr, handle: Word16): (r: Ptr)
    ensures p.At? && r.At? ==> p.off <= r.off && r.off + HEADER_SIZE <= |s|
                               && Le16(s, r.off + 2) == handle
    decreases if p.At? && p.off <= |s| then |s| - p.off + 1 else 0
  {
    if !p.At? then p
    else if p.off + 1 >= |s| then Wild
    else if s[p.off + 1] < HEADER_SIZE then Null
    else if p.off + HEADER_SIZE > |s| then Wild
    else if Le16(s, p.off + 2) == handle then p
    else HandleSearch(s, Next(s, p), handle)
  }

  function HandlePtr(s: seq<Byte>, p: Ptr, handle: Word16): (r: Ptr)
    ensures r.At? ==> r.off + HEADER_SIZE <= |s| && Le16(s, r.off + 2) == handle
  {
    HandleSearch(s, SkipEntryPoint(s, p), handle)
  }

  method SmbiosHandlePtr(s: seq<Byte>, p: Ptr, handle: Word16) returns (r: Ptr)
    ensures r == HandlePtr(s, p, handle)
  {
    var ptr := SkipEntryPoint(s, p);
    while ptr.At? && ptr.off + 1 < |s|
      invariant HandleSearch(s, ptr, handle) == HandlePtr(s, p, handle)
      decreases if ptr.At? && ptr.off <= |s| then |s| - ptr.off + 1 else 0
    {
      if s[ptr.off + 1] < HEADER_SIZE {
        return Null;
      }
      if ptr.off + HEADER_SIZE > |s| {
        return Wild;
      }
      if Le16(s, ptr.off + 2) == handle {
        return ptr;
      }
      ptr := SmbiosNextPtr(s, ptr);
    }
    return if ptr.At? then Wild else ptr;
  }

  // ----- Strings --------------------------------------------------------------------

  datatype Text = Text(bytes: seq<Byte>) | Unreadable

  /** The C string at `d`. */
  function CString(s: seq<Byte>, d: nat): (r: Text)
    decreases |s| - d
  {
    if d >= |s| then Unreadable
    else if s[d] == 0 then Text([])
    else
      match CString(s, d + 1)
      case Text(b) => Text([s[d]] + b)
      case Unreadable => Unreadable
  }

  datatype Skipped = Nul(off: nat, limit: nat) | Exhausted | Off

  /** Skip to the NUL at or after `d`, spending one unit of `limit` per byte. */
  function SkipString(s: seq<Byte>, d: nat, limit: nat): (r: Skipped)
    requires 1 <= limit
    ensures r.Nul? ==> d <= r.off < |s| && s[r.off] == 0 && 1 <= r.limit
    decreases |s| - d
  {
    if d >= |s| then Off
    else if s[d] == 0 then Nul(d, limit)
    else if limit - 1 < 1 then Exhausted
    else SkipString(s, d + 1, limit - 1)
  }

  /** The string `k` places after the one that starts at `d`. */
  function NthString(s: seq<Byte>, d: nat, k: nat, limit: nat): (r: Text)
    requires 1 <= limit
    decreases k
  {
    if k == 0 then CString(s, d)
    else
      match SkipString(s, d, limit)
      case Off => Unreadable
      case Exhausted => Text([])
      case Nul(e, rest) =>
        if e + 1 >= |s| then Unreadable
        else if s[e + 1] == 0 then Text([])
        else NthString(s, e + 1, k - 1, rest)
  }

  function StringAt(s: seq<Byte>, position: Byte, structLen: Byte, p: Ptr): (r: Text)
  {
    if p.Null? || position == 0 then Text([])
    else if p.Wild? then Unreadable
    else NthString(s, p.off + structLen, position - 1, MDR_SMBIOS_SIZE)
  }

  method PositionToString(s: seq<Byte>, position: Byte, structLen: Byte, p: Ptr) returns (r: Text)
    ensures r == StringAt(s, position, structLen, p)
  {
    if p.Null? || position == 0 {
      return Text([]);
    }
    if p.Wild? {
      return Unreadable;
    }
    var limit: Word16 := MDR_SMBIOS_SIZE;
    var target: nat := p.off + structLen;
    var index := 1;
    while index < position
      invariant 1 <= index <= position && 1 <= limit
      invariant NthString(s, target, position - index, limit) == StringAt(s, position, structLen, p)
    {
      ghost var target0, limit0 := target, limit;
      while target < |s| && s[target] != 0
        invariant 1 <= limit
        invariant SkipString(s, target, limit) == SkipString(s, target0, limit0)
        decreases |s| - target
      {
        limit := limit - 1;
        if limit < 1 {
          return Text([]);
        }
        target := target + 1;
      }
      if target >= |s| {
        return Unreadable;
      }
      target := target + 1;
      if target >= |s| {
        return Unreadable;
      }
      if s[target] == 0 {
        return Text([]);
      }
      index := index + 1;
    }
    r := CString(s, target);
  }
}
