/** ELF64 files as the System V gABI lays them out, field by field, and that src/elf/elf.c reads back what was written. */
module ElfFormat {
  import opened Bytes
  import opened ElfImage
  import Pmm

  /** The file header, in the order of its fields; `ident` is e_ident. */
  datatype FileHeader = FileHeader(
    ident: seq<Byte>, kind: nat, machine: nat, version: nat, entry: nat, phoff: nat, shoff: nat, flags: nat,
    ehsize: nat, phentsize: nat, phnum: nat, shentsize: nat, shnum: nat, shstrndx: nat)

  predicate HeaderFits(h: FileHeader)
  {
    && |h.ident| == 16 && h.version < 0x1_0000_0000 && h.flags < 0x1_0000_0000
    && h.entry < Pmm.U64 && h.phoff < Pmm.U64 && h.shoff < Pmm.U64
    && h.kind < 0x1_0000 && h.machine < 0x1_0000 && h.ehsize < 0x1_0000 && h.phentsize < 0x1_0000 && h.phnum < 0x1_0000
    && h.shentsize < 0x1_0000 && h.shnum < 0x1_0000 && h.shstrndx < 0x1_0000
  }

  function HeaderBytes(h: FileHeader): (s: seq<Byte>)
    requires HeaderFits(h)
    ensures |s| == 64
  {
    h.ident + Bytes16(h.kind) + Bytes16(h.machine) + Bytes32(h.version)
    + Bytes64(h.entry) + Bytes64(h.phoff) + Bytes64(h.shoff) + Bytes32(h.flags)
    + Bytes16(h.ehsize) + Bytes16(h.phentsize) + Bytes16(h.phnum)
    + Bytes16(h.shentsize) + Bytes16(h.shnum) + Bytes16(h.shstrndx)
  }

  /** A program header; p_flags is built from PF_R, PF_W and PF_X and bits the loader does not look at. */
  datatype ProgramHeader = ProgramHeader(
    kind: nat, readable: bool, writable: bool, executable: bool, otherFlags: nat,
    offset: nat, vaddr: nat, paddr: nat, filesz: nat, memsz: nat, align: nat)

  const PF_X: nat := 1
  const PF_W: nat := 2
  const PF_R: nat := 4
  const PT_LOAD: nat := 1

  function Flags(p: ProgramHeader): nat
  {
    (if p.executable then PF_X else 0) + (if p.writable then PF_W else 0) + (if p.readable then PF_R else 0) + 8 * p.otherFlags
  }

  predicate ProgramFits(p: ProgramHeader)
  {
    && p.kind < 0x1_0000_0000 && Flags(p) < 0x1_0000_0000
    && p.offset < Pmm.U64 && p.vaddr < Pmm.U64 && p.paddr < Pmm.U64 && p.filesz < Pmm.U64 && p.memsz < Pmm.U64 && p.align < Pmm.U64
  }

  function ProgramBytes(p: ProgramHeader): (s: seq<Byte>)
    requires ProgramFits(p)
    ensures |s| == 56
  {
    Bytes32(p.kind) + Bytes32(Flags(p)) + Bytes64(p.offset) + Bytes64(p.vaddr) + Bytes64(p.paddr)
    + Bytes64(p.filesz) + Bytes64(p.memsz) + Bytes64(p.align)
  }

  // ----- The file header

  lemma IdentRead(buf: seq<Byte>, h: FileHeader)
    requires HeaderFits(h) && |buf| >= 64 && buf[..64] == HeaderBytes(h)
    ensures buf[..16] == h.ident
  {
    hide Bytes16, Bytes32, Bytes64;
    assert buf[..16] == buf[..64][..16];
  }

  lemma KindRead(buf: seq<Byte>, h: FileHeader)
    requires HeaderFits(h) && |buf| >= 64 && buf[..64] == HeaderBytes(h)
    ensures Le16(buf[16], buf[17]) == h.kind && Le16(buf[18], buf[19]) == h.machine
  {
    hide Bytes16, Bytes32, Bytes64, Le16;
    assert buf[16..18] == buf[..64][16..18] == Bytes16(h.kind);
    assert buf[18..20] == buf[..64][18..20] == Bytes16(h.machine);
    Read16(buf, 16, h.kind);
    Read16(buf, 18, h.machine);
  }

  lemma PlacesRead(buf: seq<Byte>, h: FileHeader)
    requires HeaderFits(h) && |buf| >= 64 && buf[..64] == HeaderBytes(h)
    ensures Entry(buf) == h.entry && PhOff(buf) == h.phoff
  {
    hide Bytes16, Bytes32, Bytes64, Le64;
    assert buf[24..32] == buf[..64][24..32] == Bytes64(h.entry);
    assert buf[32..40] == buf[..64][32..40] == Bytes64(h.phoff);
    Read64(buf, 24, h.entry);
    Read64(buf, 32, h.phoff);
  }

  lemma CountsRead(buf: seq<Byte>, h: FileHeader)
    requires HeaderFits(h) && |buf| >= 64 && buf[..64] == HeaderBytes(h)
    ensures PhEntSize(buf) == h.phentsize && PhNum(buf) == h.phnum
  {
    hide Bytes16, Bytes32, Bytes64, Le16;
    assert buf[54..56] == buf[..64][54..56] == Bytes16(h.phentsize);
    assert buf[56..58] == buf[..64][56..58] == Bytes16(h.phnum);
    Read16(buf, 54, h.phentsize);
    Read16(buf, 56, h.phnum);
  }

  /** The loader reads back the header that was written, and accepts the file exactly if it is a 64-bit little-endian
      executable for x86-64 with 1 to 16 program headers of at least 56 bytes whose table ends, modulo 2^64, in the file. */
  lemma HeaderReadBack(buf: seq<Byte>, h: FileHeader)
    requires HeaderFits(h) && |buf| >= 64 && buf[..64] == HeaderBytes(h)
    ensures Entry(buf) == h.entry && PhOff(buf) == h.phoff && PhEntSize(buf) == h.phentsize && PhNum(buf) == h.phnum
    ensures Check(buf) <==>
      && h.ident[..6] == [0x7F, 0x45, 0x4C, 0x46, 2, 1] && h.kind == 2 && h.machine == 62
      && h.phentsize >= 56 && 1 <= h.phnum <= 16 && (h.phoff + h.phnum * h.phentsize) % Pmm.U64 <= |buf|
  {
    hide HeaderBytes, Le16, Entry, PhOff, PhEntSize, PhNum;
    IdentRead(buf, h);
    KindRead(buf, h);
    PlacesRead(buf, h);
    CountsRead(buf, h);
    forall k | 0 <= k < 6
      ensures buf[k] == h.ident[..6][k]
    {
      assert buf[..16][k] == h.ident[k];
    }
  }

  // ----- Program headers

  lemma FlagBits(p: ProgramHeader)
    ensures (Flags(p) % 2 == 1 <==> p.executable) && (Flags(p) / 2 % 2 == 1 <==> p.writable)
  {
    var w, r := if p.writable then 1 else 0, if p.readable then 1 else 0;
    var high := w + 2 * (r + 2 * p.otherFlags);
    assert Flags(p) == (if p.executable then 1 else 0) + 2 * high;
  }

  lemma SubSlice(s: seq<Byte>, at: nat, n: nat, i: nat, j: nat)
    requires i <= j <= n && at + n <= |s|
    ensures s[at + i..at + j] == s[at..at + n][i..j]
  {
    var t := s[at..at + n];
    assert |s[at + i..at + j]| == |t[i..j]|;
    forall k | 0 <= k < j - i
      ensures s[at + i..at + j][k] == t[i..j][k]
    {
      assert t[i..j][k] == t[i + k];
    }
  }

  lemma WordsRead(buf: seq<Byte>, at: nat, p: ProgramHeader)
    requires ProgramFits(p) && at + 56 <= |buf| && buf[at..at + 56] == ProgramBytes(p)
    ensures Le32(buf, at) == p.kind && Le32(buf, at + 4) == Flags(p)
  {
    hide Bytes32, Bytes64, Le32, Flags;
    SubSlice(buf, at, 56, 0, 4);
    assert buf[at..at + 56][0..4] == Bytes32(p.kind);
    SubSlice(buf, at, 56, 4, 8);
    assert buf[at..at + 56][4..8] == Bytes32(Flags(p));
    Read32(buf, at, p.kind);
    Read32(buf, at + 4, Flags(p));
  }

  lemma RangesRead(buf: seq<Byte>, at: nat, p: ProgramHeader)
    requires ProgramFits(p) && at + 56 <= |buf| && buf[at..at + 56] == ProgramBytes(p)
    ensures Le64(buf, at + 8) == p.offset && Le64(buf, at + 16) == p.vaddr
    ensures Le64(buf, at + 32) == p.filesz && Le64(buf, at + 40) == p.memsz
  {
    hide Bytes32, Bytes64, Le64, Flags;
    SubSlice(buf, at, 56, 8, 16);
    assert buf[at..at + 56][8..16] == Bytes64(p.offset);
    SubSlice(buf, at, 56, 16, 24);
    assert buf[at..at + 56][16..24] == Bytes64(p.vaddr);
    SubSlice(buf, at, 56, 32, 40);
    assert buf[at..at + 56][32..40] == Bytes64(p.filesz);
    SubSlice(buf, at, 56, 40, 48);
    assert buf[at..at + 56][40..48] == Bytes64(p.memsz);
    Read64(buf, at + 8, p.offset);
    Read64(buf, at + 16, p.vaddr);
    Read64(buf, at + 32, p.filesz);
    Read64(buf, at + 40, p.memsz);
  }

  /** Program header i, wherever the file header puts it, is read back too, its rights among them. */
  lemma ProgramReadBack(buf: seq<Byte>, h: FileHeader, i: nat, at: nat, p: ProgramHeader)
    requires HeaderFits(h) && |buf| >= 64 && buf[..64] == HeaderBytes(h) && ProgramFits(p)
    requires Headers(buf) && i < PhNum(buf) && at == h.phoff + i * h.phentsize && at + 56 <= |buf|
    requires buf[at..at + 56] == ProgramBytes(p)
    ensures PhdrAt(buf, i) == Phdr(p.kind == PT_LOAD, p.writable, p.executable, p.offset, p.vaddr, p.filesz, p.memsz)
  {
    hide HeaderBytes, ProgramBytes, Check, Le32, Le64, Flags;
    HeaderReadBack(buf, h);
    WordsRead(buf, at, p);
    RangesRead(buf, at, p);
    FlagBits(p);
  }
}
