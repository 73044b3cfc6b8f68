/**
 Entry points as DSP0134 (SMBIOS Reference Specification) lays them out: section 5.2.1, the
 32-bit one, and section 5.2.2, the 64-bit one. The printers are written from the specification,
 byte by byte; the program's tests and field accesses are proved to read them. The program does
 not look at checksums, so they are fields like any other.
 */
module EntryPoint {
  import opened Bytes
  import opened Walker

  datatype Entry64 = Entry64(checksum: Byte, major: Byte, minor: Byte, docRev: Byte, revision: Byte,
                             maxSize: Word32, address: Word64)

  datatype Entry32 = Entry32(checksum: Byte, major: Byte, minor: Byte, maxStructure: Word16, revision: Byte,
                             formatted: seq<Byte>, innerChecksum: Byte, tableLength: Word16, address: Word32,
                             count: Word16, bcdRevision: Byte)

  /** "_SM3_", checksum, length 24, version, document revision, entry point revision, reserved,
      4-byte maximum table size, 8-byte table address. */
  function Print64(e: Entry64): (b: seq<Byte>)
    ensures |b| == 24
  {
    [0x5f, 0x53, 0x4d, 0x33, 0x5f, e.checksum, 24, e.major, e.minor, e.docRev, e.revision, 0]
    + Enc32(e.maxSize) + Enc64(e.address)
  }

  /** "_SM_", checksum, length 31, version, maximum structure size, entry point revision, five
      formatted bytes, "_DMI_", checksum, table length, table address, number of structures,
      BCD revision. */
  function Print32(e: Entry32): (b: seq<Byte>)
    requires |e.formatted| == 5
    ensures |b| == 31
  {
    [0x5f, 0x53, 0x4d, 0x5f, e.checksum, 31, e.major, e.minor] + Enc16(e.maxStructure) + [e.revision] + e.formatted
    + [0x5f, 0x44, 0x4d, 0x49, 0x5f, e.innerChecksum] + Enc16(e.tableLength) + Enc32(e.address) + Enc16(e.count)
    + [e.bcdRevision]
  }

  ghost predicate Entry64At(s: seq<Byte>, p: nat, e: Entry64)
  {
    p + 24 <= |s| && s[p..p + 24] == Print64(e)
  }

  ghost predicate Entry32At(s: seq<Byte>, p: nat, e: Entry32)
  {
    |e.formatted| == 5 && p + 31 <= |s| && s[p..p + 31] == Print32(e)
  }

  /** Where the fields of a printed 64-bit entry point are. */
  lemma Fields64(s: seq<Byte>, p: nat, e: Entry64)
    requires Entry64At(s, p, e)
    ensures s[p] == 0x5f && s[p + 1] == 0x53 && s[p + 2] == 0x4d && s[p + 3] == 0x33 && s[p + 4] == 0x5f
    ensures s[p + 7] == e.major && s[p + 8] == e.minor
    ensures s[p + 16..p + 24] == Enc64(e.address)
  {
    hide Enc32, Enc64;
    var b := Print64(e);
    assert s[p] == b[0] && s[p + 1] == b[1] && s[p + 2] == b[2] && s[p + 3] == b[3] && s[p + 4] == b[4] by {
      var t := s[p..p + 24];
      assert t[0] == s[p] && t[1] == s[p + 1] && t[2] == s[p + 2] && t[3] == s[p + 3] && t[4] == s[p + 4];
    }
    assert s[p + 7] == s[p..p + 24][7] && s[p + 8] == s[p..p + 24][8];
    SliceOfSlice(s, p, 24, 16, 24);
    assert b[16..24] == Enc64(e.address);
  }

  lemma Fields32(s: seq<Byte>, p: nat, e: Entry32)
    requires Entry32At(s, p, e)
    ensures s[p + 6] == e.major && s[p + 7] == e.minor
  {
    hide Enc32, Enc16;
    var b := s[p..p + 31];
    assert b[6] == s[p + 6] && b[7] == s[p + 7];
  }

  /** smbiosSkipEntryPoint follows a printed entry point's address when that is below 32 KiB,
      and stays where it is otherwise. */
  lemma SkipsToAddress(s: seq<Byte>, p: nat, e: Entry64)
    requires Entry64At(s, p, e)
    ensures SkipEntryPoint(s, At(p)) == if e.address < 0x8000 then At(p + e.address) else At(p)
  {
    hide Print64, Enc64, Le64;
    Fields64(s, p, e);
    Le64Of(s, p + 16, e.address);
  }
}
