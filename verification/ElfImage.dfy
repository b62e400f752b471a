/** ELF64 executables as src/elf/elf.c reads them: headers, the memory image the System V gABI (chapter 5,
    "Program Header") prescribes, and the slice of it that falls into one page. */
module ElfImage {
  import opened Bytes
  import opened Pmm
  import opened PageTables
  import opened Views

  const HEADER_SIZE: nat := 64
  const PHDR_SIZE: nat := 56
  const MAX_PHDRS: nat := 16
  const USER_TOP: nat := 0x8000_0000_0000

  /** A program header; the fields the loader looks at. */
  datatype Phdr = Phdr(load: bool, writable: bool, executable: bool, offset: nat, vaddr: nat, filesz: nat, memsz: nat)

  // ----- Headers

  function PhOff(buf: seq<Byte>): nat requires |buf| >= HEADER_SIZE { Le64(buf, 32) }
  function PhEntSize(buf: seq<Byte>): nat requires |buf| >= HEADER_SIZE { Le16(buf[54], buf[55]) }
  function PhNum(buf: seq<Byte>): nat requires |buf| >= HEADER_SIZE { Le16(buf[56], buf[57]) }
  function Entry(buf: seq<Byte>): nat requires |buf| >= HEADER_SIZE { Le64(buf, 24) }

  /** elf_check.  The end of the program header table is computed in u64 arithmetic. */
  predicate Check(buf: seq<Byte>)
  {
    && |buf| >= HEADER_SIZE
    && buf[0] == 0x7F && buf[1] == 'E' as int && buf[2] == 'L' as int && buf[3] == 'F' as int
    && buf[4] == 2 && buf[5] == 1
    && Le16(buf[16], buf[17]) == 2 && Le16(buf[18], buf[19]) == 62
    && PhEntSize(buf) >= PHDR_SIZE && 0 < PhNum(buf) <= MAX_PHDRS
    && PhdrOffset(buf, PhNum(buf)) % U64 <= |buf|
  }

  function Scaled(i: nat, size: nat): nat
  {
    i * size
  }

  lemma {:induction false} ScaledBelow(i: nat, n: nat, size: nat)
    requires i < n
    ensures Scaled(i, size) + size <= Scaled(n, size)
    decreases n
  {
    assert Scaled(n, size) == Scaled(n - 1, size) + size;
    if i < n - 1 { ScaledBelow(i, n - 1, size); }
  }

  function PhdrOffset(buf: seq<Byte>, i: nat): nat
    requires |buf| >= HEADER_SIZE
  {
    PhOff(buf) + Scaled(i, PhEntSize(buf))
  }

  /** Every program header of a checked file whose table does not wrap around lies in the buffer. */
  lemma HeadersInside(buf: seq<Byte>, i: nat)
    requires Check(buf) && PhdrOffset(buf, PhNum(buf)) < U64 && i < PhNum(buf)
    ensures PhdrOffset(buf, i) + PHDR_SIZE <= |buf|
  {
    hide Scaled, PhOff, PhEntSize, PhNum;
    ScaledBelow(i, PhNum(buf), PhEntSize(buf));
  }

  /** elf_check computes the end of the table modulo 2^64.  In any buffer of less than 2^63 bytes, the headers
      of a checked file lie in the buffer exactly when that sum does not wrap around. */
  lemma HeadersInsideIff(buf: seq<Byte>)
    requires Check(buf) && |buf| < 0x8000_0000_0000_0000
    ensures PhdrOffset(buf, PhNum(buf)) < U64 <==> forall i | 0 <= i < PhNum(buf) :: PhdrOffset(buf, i) + PHDR_SIZE <= |buf|
  {
    if PhdrOffset(buf, PhNum(buf)) < U64 {
      forall i | 0 <= i < PhNum(buf)
        ensures PhdrOffset(buf, i) + PHDR_SIZE <= |buf|
      {
        HeadersInside(buf, i);
      }
    } else {
      TableSmall(buf);
      assert PhdrOffset(buf, 0) == PhOff(buf);
    }
  }

  lemma TableSmall(buf: seq<Byte>)
    requires Check(buf)
    ensures Scaled(PhNum(buf), PhEntSize(buf)) <= 0x10_0000
  {
    if PhNum(buf) < MAX_PHDRS { ScaledBelow(PhNum(buf), MAX_PHDRS, PhEntSize(buf)); }
    assert Scaled(MAX_PHDRS, PhEntSize(buf)) == 16 * PhEntSize(buf);
  }

  function PhdrAt(buf: seq<Byte>, i: nat): Phdr
    requires Check(buf) && PhdrOffset(buf, PhNum(buf)) < U64 && i < PhNum(buf)
  {
    HeadersInside(buf, i);
    var at := PhdrOffset(buf, i);
    var flags := Le32(buf, at + 4);
    Phdr(Le32(buf, at) == 1, flags / 2 % 2 == 1, flags % 2 == 1,
         Le64(buf, at + 8), Le64(buf, at + 16), Le64(buf, at + 32), Le64(buf, at + 40))
  }

  /** A segment that takes up memory. */
  predicate Loads(ph: Phdr)
  {
    ph.load && ph.memsz > 0
  }

  /** What the loader relies on: no sum in a segment's header wraps around, and its pages are user pages. */
  predicate InRange(ph: Phdr)
  {
    ph.offset + ph.filesz < U64 && ph.vaddr + ph.filesz < U64 && ph.vaddr + ph.memsz + PAGE_SIZE - 1 < U64
    && RoundUp(ph.vaddr + ph.memsz) <= USER_TOP
  }

  // ----- The image

  function RoundDown(va: nat): nat
  {
    va - va % PAGE_SIZE
  }

  function RoundUp(va: nat): nat
  {
    RoundDown(va + PAGE_SIZE - 1)
  }

  /** The file bytes of the segment lie in the buffer, if it has any. */
  predicate FileInside(buf: seq<Byte>, ph: Phdr)
  {
    ph.filesz > 0 ==> ph.offset + ph.filesz <= |buf|
  }

  /** The byte of a segment's image at an address: its file bytes, then zeros; zeros around it. */
  function ImageByte(buf: seq<Byte>, ph: Phdr, va: nat): Byte
    requires FileInside(buf, ph)
  {
    if ph.vaddr <= va < ph.vaddr + ph.filesz then buf[ph.offset + (va - ph.vaddr)] else 0
  }

  function ImagePage(buf: seq<Byte>, ph: Phdr, va: nat): (page: seq<Byte>)
    requires FileInside(buf, ph)
    ensures |page| == PAGE_SIZE
  {
    seq<Byte>(PAGE_SIZE, k requires 0 <= k < PAGE_SIZE => ImageByte(buf, ph, va + k))
  }

  lemma PageByte(buf: seq<Byte>, ph: Phdr, va: nat, k: nat)
    requires FileInside(buf, ph) && k < PAGE_SIZE
    ensures ImagePage(buf, ph, va)[k] == ImageByte(buf, ph, va + k)
    ensures ZeroPage()[k] == 0
  {
  }

  function ZeroPage(): (page: seq<Byte>)
    ensures |page| == PAGE_SIZE
  {
    seq<Byte>(PAGE_SIZE, _ => 0)
  }

  /** The pages of a segment. */
  predicate Covers(ph: Phdr, va: nat)
  {
    ph.load && ph.memsz > 0 && RoundDown(ph.vaddr) <= va < RoundUp(ph.vaddr + ph.memsz)
  }

  /** Address x is one of the segment's, and lies in the page at va. */
  predicate Touches(ph: Phdr, va: nat, x: nat)
  {
    ph.load && ph.vaddr <= x < ph.vaddr + ph.memsz && va <= x < va + PAGE_SIZE
  }

  /** They are the pages that hold an address of it. */
  lemma CoversTouched(ph: Phdr, va: nat)
    requires va % PAGE_SIZE == 0
    ensures Covers(ph, va) <==> exists x :: Touches(ph, va, x)
  {
    var k, lo, hi := va / PAGE_SIZE, ph.vaddr / PAGE_SIZE, (ph.vaddr + ph.memsz + PAGE_SIZE - 1) / PAGE_SIZE;
    assert va == k * PAGE_SIZE && RoundDown(ph.vaddr) == lo * PAGE_SIZE && RoundUp(ph.vaddr + ph.memsz) == hi * PAGE_SIZE;
    if Covers(ph, va) {
      assert Touches(ph, va, if va > ph.vaddr then va else ph.vaddr);
    }
    if x :| Touches(ph, va, x) {
      assert lo <= k < hi;
    }
  }

  function SegmentPage(buf: seq<Byte>, ph: Phdr, va: nat): PageView
    requires FileInside(buf, ph)
  {
    PageView(ImagePage(buf, ph, va), true, ph.writable, !ph.executable)
  }

  // ----- One page of elf_load_segment

  /** The intersection of a page with the file bytes, as the loader computes it. */
  function CopyStart(ph: Phdr, va: nat): nat
  {
    if va > ph.vaddr then va else ph.vaddr
  }

  function CopyEnd(ph: Phdr, va: nat): nat
  {
    if va + PAGE_SIZE < ph.vaddr + ph.filesz then va + PAGE_SIZE else ph.vaddr + ph.filesz
  }

  /** The bounds test before the copy is always true. */
  lemma GuardHolds(buf: seq<Byte>, ph: Phdr, va: nat)
    requires FileInside(buf, ph) && CopyStart(ph, va) < CopyEnd(ph, va)
    ensures ph.offset + (CopyStart(ph, va) - ph.vaddr) + (CopyEnd(ph, va) - CopyStart(ph, va)) <= |buf|
    ensures va <= CopyStart(ph, va) && CopyEnd(ph, va) <= va + PAGE_SIZE
  {
  }

  /** A zeroed page with the slice copied in is the page of the image. */
  lemma CopiedSlice(buf: seq<Byte>, ph: Phdr, va: nat)
    requires FileInside(buf, ph) && CopyStart(ph, va) < CopyEnd(ph, va)
    ensures var dst := CopyStart(ph, va) - va; var src := ph.offset + (CopyStart(ph, va) - ph.vaddr);
            var len := CopyEnd(ph, va) - CopyStart(ph, va); var zeros := ZeroPage();
      && 0 <= dst && dst + len <= PAGE_SIZE && 0 <= src && src + len <= |buf|
      && zeros[..dst] + buf[src..src + len] + zeros[dst + len..] == ImagePage(buf, ph, va)
  {
    GuardHolds(buf, ph, va);
    var dst := CopyStart(ph, va) - va;
    var src := ph.offset + (CopyStart(ph, va) - ph.vaddr);
    var len := CopyEnd(ph, va) - CopyStart(ph, va);
    var zeros := ZeroPage();
    var page := zeros[..dst] + buf[src..src + len] + zeros[dst + len..];
    forall k | 0 <= k < PAGE_SIZE
      ensures page[k] == ImagePage(buf, ph, va)[k]
    {
      PageByte(buf, ph, va, k);
      if dst <= k < dst + len {
        assert page[k] == buf[src + (k - dst)];
      } else {
        assert page[k] == 0;
      }
    }
  }

  lemma NothingToCopy(buf: seq<Byte>, ph: Phdr, va: nat)
    requires FileInside(buf, ph) && CopyStart(ph, va) >= CopyEnd(ph, va)
    ensures ZeroPage() == ImagePage(buf, ph, va)
  {
    var zeros := ZeroPage();
    forall k | 0 <= k < PAGE_SIZE
      ensures zeros[k] == ImagePage(buf, ph, va)[k]
    {
      PageByte(buf, ph, va, k);
    }
  }

  // ----- The whole file

  /** The headers are where the loader can read them, and its segments are in range. */
  predicate Headers(buf: seq<Byte>)
  {
    |buf| >= HEADER_SIZE && Check(buf) && PhdrOffset(buf, PhNum(buf)) < U64
  }

  predicate SegmentsInRange(buf: seq<Byte>)
    requires Headers(buf)
  {
    forall i | 0 <= i < PhNum(buf) && Loads(PhdrAt(buf, i)) :: InRange(PhdrAt(buf, i))
  }

  /** The first n segments have their file bytes in the buffer. */
  predicate FilesInside(buf: seq<Byte>, n: nat)
    requires Headers(buf) && n <= PhNum(buf)
  {
    forall i | 0 <= i < n && PhdrAt(buf, i).load && PhdrAt(buf, i).memsz > 0 :: FileInside(buf, PhdrAt(buf, i))
  }

  /** The page at va after the first n program headers: that of the last segment that covers it. */
  function Image(buf: seq<Byte>, n: nat, va: nat): Option<PageView>
    requires Headers(buf) && n <= PhNum(buf) && FilesInside(buf, n)
  {
    if n == 0 then None
    else if Covers(PhdrAt(buf, n - 1), va) then Some(SegmentPage(buf, PhdrAt(buf, n - 1), va))
    else Image(buf, n - 1, va)
  }

  /** A page shows segment i if no later segment covers it too. */
  lemma {:induction false} LastWins(buf: seq<Byte>, n: nat, i: nat, va: nat)
    requires Headers(buf) && n <= PhNum(buf) && FilesInside(buf, n) && i < n && Covers(PhdrAt(buf, i), va)
    requires forall j | i < j < n :: !Covers(PhdrAt(buf, j), va)
    ensures Image(buf, n, va) == Some(SegmentPage(buf, PhdrAt(buf, i), va))
    decreases n
  {
    hide PhdrAt, Check, SegmentPage, PhdrOffset, PhNum;
    if i < n - 1 { LastWins(buf, n - 1, i, va); }
  }

  lemma {:induction false} CoveredIsShown(buf: seq<Byte>, n: nat, va: nat)
    requires Headers(buf) && n <= PhNum(buf) && FilesInside(buf, n)
    ensures Image(buf, n, va).Some? <==> exists i :: 0 <= i < n && Covers(PhdrAt(buf, i), va)
    decreases n
  {
    hide PhdrAt, Check, SegmentPage, PhdrOffset, PhNum;
    if n > 0 { CoveredIsShown(buf, n - 1, va); }
  }

  /** No page belongs to two segments. */
  predicate PagesDisjoint(buf: seq<Byte>)
    requires Headers(buf)
  {
    forall i, j | 0 <= i < j < PhNum(buf) && Loads(PhdrAt(buf, i)) && Loads(PhdrAt(buf, j)) ::
      Apart(PhdrAt(buf, i), PhdrAt(buf, j))
  }

  predicate Apart(p: Phdr, q: Phdr)
  {
    || RoundUp(p.vaddr + p.memsz) <= RoundDown(q.vaddr)
    || RoundUp(q.vaddr + q.memsz) <= RoundDown(p.vaddr)
  }

  /** The memory image of the System V gABI: where no page belongs to two segments and p_filesz <= p_memsz,
      every address of a segment holds its file byte, or zero past p_filesz, under the rights of p_flags;
      the rest of its first and last page is zero. */
  lemma MemoryImage(buf: seq<Byte>, i: nat, va: nat)
    requires Headers(buf) && FilesInside(buf, PhNum(buf)) && PagesDisjoint(buf) && i < PhNum(buf)
    requires var ph := PhdrAt(buf, i);
      Loads(ph) && ph.filesz <= ph.memsz && RoundDown(ph.vaddr) <= va < RoundUp(ph.vaddr + ph.memsz)
    ensures var ph := PhdrAt(buf, i); var page := Image(buf, PhNum(buf), RoundDown(va));
      && page.Some? && |page.value.bytes| == PAGE_SIZE
      && page.value.user && page.value.writable == ph.writable && page.value.nx == !ph.executable
      && page.value.bytes[va % PAGE_SIZE] ==
           if ph.vaddr <= va < ph.vaddr + ph.filesz then buf[ph.offset + (va - ph.vaddr)] else 0
  {
    hide PhdrAt, Check, PhNum, RoundDown, RoundUp, ImagePage;
    var ph := PhdrAt(buf, i);
    var at := RoundDown(va);
    InPage(va);
    RoundDownInside(ph.vaddr, va, ph.vaddr + ph.memsz);
    forall j | i < j < PhNum(buf)
      ensures !Covers(PhdrAt(buf, j), at)
    {
      if Loads(PhdrAt(buf, j)) { assert Apart(ph, PhdrAt(buf, j)); }
    }
    LastWins(buf, PhNum(buf), i, at);
    PageByte(buf, ph, at, va % PAGE_SIZE);
  }

  lemma InPage(va: nat)
    ensures RoundDown(va) + va % PAGE_SIZE == va
  {
  }

  lemma RoundDownInside(lo: nat, va: nat, hi: nat)
    requires RoundDown(lo) <= va < RoundUp(hi)
    ensures RoundDown(lo) <= RoundDown(va) <= va < RoundUp(hi)
  {
    var p, q := lo / PAGE_SIZE, va / PAGE_SIZE;
    assert RoundDown(lo) == p * PAGE_SIZE && RoundDown(va) == q * PAGE_SIZE;
  }

  /** Where two segments do share a page, the earlier one loses it: whatever the later one's file does not
      fill reads as zero. */
  lemma SharedPage(buf: seq<Byte>, i: nat, j: nat, va: nat)
    requires Headers(buf) && FilesInside(buf, PhNum(buf)) && i < j < PhNum(buf)
    requires var p, q := PhdrAt(buf, i), PhdrAt(buf, j);
      Loads(p) && p.vaddr <= va < p.vaddr + p.filesz && Covers(q, RoundDown(va)) && !(q.vaddr <= va < q.vaddr + q.filesz)
    requires forall k | j < k < PhNum(buf) :: !Covers(PhdrAt(buf, k), RoundDown(va))
    ensures var page := Image(buf, PhNum(buf), RoundDown(va));
      page.Some? && |page.value.bytes| == PAGE_SIZE && page.value.bytes[va % PAGE_SIZE] == 0
  {
    hide PhdrAt, Check;
    LastWins(buf, PhNum(buf), j, RoundDown(va));
    PageByte(buf, PhdrAt(buf, j), RoundDown(va), va % PAGE_SIZE);
  }
}
