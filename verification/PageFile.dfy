/** A page file as the bytes on disk: pages from offset 0, then a 16-byte footer
    (src/storage.rs, src/lib.rs). */
module PageFiles {
  import opened Bytes
  import opened Outcomes
  import opened SlottedPages

  const MAGIC_NUMBER: nat := 0xDBDB_DBDB
  const FOOTER_SIZE: nat := 16

  /** File offsets are 63-bit, and the footer comes behind the pages: an append past this
      many pages fails as an I/O error. */
  const MAX_PAGES: nat := 0x3_FFFF_FFFF_FFFF

  /** An open file: its bytes, and the page count the engine keeps in memory. */
  datatype PageFile = PageFile(bytes: Bytes, numPages: nat)

  function Footer(numPages: nat): (b: Bytes)
    ensures |b| == FOOTER_SIZE
  {
    ToBE(MAGIC_NUMBER, 8) + ToBE(numPages, 8)
  }

  function LastFooter(bytes: Bytes): Bytes
    requires |bytes| >= FOOTER_SIZE
  {
    bytes[|bytes| - FOOTER_SIZE..]
  }

  /** `open_or_create_file` on the bytes of a file that is not open yet. */
  function OpenBytes(bytes: Bytes): Outcome<PageFile> {
    if |bytes| < FOOTER_SIZE then Ok(FreshFile())
    else
      var footer := LastFooter(bytes);
      if FromBE(footer[..8]) != MAGIC_NUMBER then Err(CorruptPageFile)
      else Ok(PageFile(bytes, FromBE(footer[8..])))
  }

  /** A new file: page 0 is a blank catalog page, with the footer right behind it. */
  function FreshFile(): PageFile {
    PageFile(BlankPage(0, Catalog) + Footer(1), 1)
  }

  /** `append_empty_block`; the footer is written one byte past the pages. */
  function Append(f: PageFile): PageFile {
    var n := f.numPages + 1;
    var zeroed := WriteAt(f.bytes, PAGE_SIZE * f.numPages, Zeros(PAGE_SIZE));
    PageFile(WriteAt(zeroed, PAGE_SIZE * n + 1, Footer(n)), n)
  }

  predicate Extends(f: PageFile, num: nat) {
    (num + 1) * PAGE_SIZE > |f.bytes|
  }

  /** `ensure_capacity`: when it has to extend the file it sets the page count to
      the page's index, so the footer lands inside that page. */
  function EnsureCapacity(f: PageFile, num: nat): PageFile {
    if Extends(f, num) then
      var longer := f.bytes + Zeros((num + 1) * PAGE_SIZE - |f.bytes|);
      PageFile(WriteAt(longer, PAGE_SIZE * num + 1, Footer(num)), num)
    else f
  }

  function WriteBlock(f: PageFile, num: nat, page: Page): PageFile {
    var g := EnsureCapacity(f, num);
    g.(bytes := WriteAt(g.bytes, PAGE_SIZE * num, page))
  }

  function ReadBlock(f: PageFile, num: nat): Outcome<Page> {
    if num >= f.numPages then Err(PageNotFound)
    else if PAGE_SIZE * (num + 1) > |f.bytes| then Err(Io)
    else Ok(Block(f, num))
  }

  function Block(f: PageFile, num: nat): Page
    requires PAGE_SIZE * (num + 1) <= |f.bytes|
  {
    f.bytes[PAGE_SIZE * num..PAGE_SIZE * (num + 1)]
  }

  /** Page i occupies [8192i, 8192(i+1)); the last 16 bytes are the current footer,
      with no gap before them in a fresh file and one byte after any append. */
  ghost predicate LayoutOk(f: PageFile) {
    && 1 <= f.numPages <= MAX_PAGES
    && PAGE_SIZE * f.numPages <= |f.bytes| - FOOTER_SIZE <= PAGE_SIZE * f.numPages + 1
    && LastFooter(f.bytes) == Footer(f.numPages)
  }

  // ----- what a run of appends and writes keeps

  lemma FreshLayout()
    ensures LayoutOk(FreshFile()) && Block(FreshFile(), 0) == BlankPage(0, Catalog)
  {
  }

  lemma AppendKeepsLayout(f: PageFile)
    requires LayoutOk(f) && f.numPages < MAX_PAGES
    ensures LayoutOk(Append(f)) && Append(f).numPages == f.numPages + 1
    ensures forall i :: 0 <= i < f.numPages ==> Block(Append(f), i) == Block(f, i)
    ensures Block(Append(f), f.numPages) == Zeros(PAGE_SIZE)
  {
    hide Append, Footer;
    var kept, end, g := f.bytes[..PAGE_SIZE * f.numPages], PAGE_SIZE * f.numPages, Append(f);
    AppendBytes(f);
    FooterBytes(f.numPages + 1);
    assert g.bytes == kept + (Zeros(8193) + Footer(f.numPages + 1));
    assert g.bytes[..end] == kept && g.bytes[end..] == Zeros(8193) + Footer(f.numPages + 1);
    assert LastFooter(g.bytes) == Footer(f.numPages + 1);
    forall i | 0 <= i < f.numPages
      ensures Block(g, i) == Block(f, i)
    {
      assert PAGE_SIZE * (i + 1) <= end;
      SamePrefix(g.bytes, f.bytes, end, PAGE_SIZE * i, PAGE_SIZE * (i + 1));
    }
    assert g.bytes[end..end + PAGE_SIZE] == g.bytes[end..][..PAGE_SIZE];
  }

  lemma SamePrefix(a: Bytes, b: Bytes, end: nat, low: nat, high: nat)
    requires low <= high <= end <= |a| && end <= |b| && a[..end] == b[..end]
    ensures a[low..high] == b[low..high]
  {
    assert a[low..high] == a[..end][low..high] && b[low..high] == b[..end][low..high];
  }

  lemma WriteKeepsLayout(f: PageFile, num: nat, page: Page)
    requires LayoutOk(f) && num < f.numPages
    ensures !Extends(f, num)
    ensures LayoutOk(WriteBlock(f, num, page)) && WriteBlock(f, num, page).numPages == f.numPages
    ensures |WriteBlock(f, num, page).bytes| == |f.bytes|
    ensures forall i :: 0 <= i < f.numPages ==>
              Block(WriteBlock(f, num, page), i) == if i == num then page else Block(f, i)
  {
    hide Footer;
    hide WriteAt;
    var g := WriteBlock(f, num, page);
    WriteAtBytes(f.bytes, PAGE_SIZE * num, page);
    forall i | 0 <= i < f.numPages
      ensures Block(g, i) == if i == num then page else Block(f, i)
    {
      if i < num { assert PAGE_SIZE * (i + 1) <= PAGE_SIZE * num; }
      else if i > num { assert PAGE_SIZE * (num + 1) <= PAGE_SIZE * i; }
      assert i != num ==> Block(g, i) == Block(f, i);
    }
    assert LastFooter(g.bytes) == LastFooter(f.bytes);
  }

  /** Reopening recovers the page count and every page. */
  lemma ReopenRecovers(f: PageFile)
    requires LayoutOk(f)
    ensures OpenBytes(f.bytes) == Ok(f)
  {
    Widths();
    FromBEToBE(MAGIC_NUMBER, 8);
    FromBEToBE(f.numPages, 8);
    assert Footer(f.numPages)[..8] == ToBE(MAGIC_NUMBER, 8);
    assert Footer(f.numPages)[8..] == ToBE(f.numPages, 8);
  }

  /** A written block reads back exactly when the page already existed: the branch
      of `ensure_capacity` that extends the file loses the page. */
  lemma ReadsBackExactly(f: PageFile, num: nat, page: Page)
    requires LayoutOk(f)
    ensures ReadBlock(WriteBlock(f, num, page), num) == Ok(page) <==> num < f.numPages
  {
    if num < f.numPages {
      WriteKeepsLayout(f, num, page);
    }
  }

  // ----- the bytes themselves

  /** The magic number, then the page count, eight bytes each. */
  const MAGIC_BYTES: Bytes := [0, 0, 0, 0, 0xDB, 0xDB, 0xDB, 0xDB]

  lemma FooterBytes(numPages: nat)
    ensures Footer(numPages) == MAGIC_BYTES + ToBE(numPages, 8)
  {
    assert ToBE(0, 1) == [0] && ToBE(0, 2) == [0, 0] && ToBE(0, 3) == [0, 0, 0] && ToBE(0, 4) == [0, 0, 0, 0];
    assert ToBE(0xDB, 5) == [0, 0, 0, 0, 0xDB];
    assert ToBE(0xDBDB, 6) == [0, 0, 0, 0, 0xDB, 0xDB];
    assert ToBE(0xDB_DBDB, 7) == [0, 0, 0, 0, 0xDB, 0xDB, 0xDB];
    assert ToBE(MAGIC_NUMBER, 8) == MAGIC_BYTES;
  }

  /** A file opens if and only if it is too short for a footer, and then it is a new one
      of 8208 bytes, or its footer has the magic bytes. */
  lemma OpensExactly(bytes: Bytes)
    ensures OpenBytes(bytes).Ok? <==> |bytes| < 16 || bytes[|bytes| - 16..|bytes| - 8] == MAGIC_BYTES
    ensures !OpenBytes(bytes).Ok? ==> OpenBytes(bytes) == Err(CorruptPageFile)
    ensures OpenBytes(bytes).Ok? && |bytes| >= 16 ==>
              OpenBytes(bytes).value == PageFile(bytes, FromBE(bytes[|bytes| - 8..]))
    ensures |bytes| < 16 ==> OpenBytes(bytes).value == PageFile(BlankPage(0, Catalog) + MAGIC_BYTES + ToBE(1, 8), 1)
  {
    hide BlankPage;
    FooterBytes(1);
    if |bytes| >= 16 {
      var magic := LastFooter(bytes)[..8];
      assert magic == bytes[|bytes| - 16..|bytes| - 8] && LastFooter(bytes)[8..] == bytes[|bytes| - 8..];
      MagicExactly(magic);
    }
  }

  lemma MagicExactly(b: Bytes)
    requires |b| == 8
    ensures FromBE(b) == MAGIC_NUMBER <==> b == MAGIC_BYTES
  {
    hide ToBE, FromBE;
    FooterBytes(0);
    Widths();
    FromBEToBE(MAGIC_NUMBER, 8);
    assert Footer(0)[..8] == ToBE(MAGIC_NUMBER, 8) && Footer(0)[..8] == MAGIC_BYTES;
    ToBEFromBE(b);
  }

  /** An append, byte by byte: the footer starts one byte behind the new page. */
  lemma AppendBytes(f: PageFile)
    requires LayoutOk(f)
    ensures Append(f).bytes
         == f.bytes[..PAGE_SIZE * f.numPages] + Zeros(8193) + MAGIC_BYTES + ToBE(f.numPages + 1, 8)
    ensures |Append(f).bytes| == 8192 * (f.numPages + 1) + 17 && Append(f).numPages == f.numPages + 1
  {
    hide Footer, ToBE;
    FooterBytes(f.numPages + 1);
    var end := PAGE_SIZE * f.numPages;
    var zeroed := WriteAt(f.bytes, end, Zeros(PAGE_SIZE));
    WriteAtBytes(f.bytes, end, Zeros(PAGE_SIZE));
    WriteAtBytes(zeroed, PAGE_SIZE * (f.numPages + 1) + 1, Footer(f.numPages + 1));
  }

  /** A write behind the last page, where the code extends the file: the block is the
      last of the file, the page count is its number, and so it cannot be read back. */
  lemma ExtendingWrite(f: PageFile, num: nat, page: Page)
    requires LayoutOk(f) && num >= f.numPages
    ensures var g := WriteBlock(f, num, page);
            && g.numPages == num && |g.bytes| == 8192 * (num + 1) && Block(g, num) == page
            && forall i :: 0 <= i < f.numPages ==> Block(g, i) == Block(f, i)
  {
    hide Footer;
    var longer := f.bytes + Zeros((num + 1) * PAGE_SIZE - |f.bytes|);
    var footed := WriteAt(longer, PAGE_SIZE * num + 1, Footer(num));
    assert Extends(f, num);
    WriteAtBytes(longer, PAGE_SIZE * num + 1, Footer(num));
    WriteAtBytes(footed, PAGE_SIZE * num, page);
    var g := WriteBlock(f, num, page);
    forall i | 0 <= i < f.numPages
      ensures Block(g, i) == Block(f, i)
    {
      assert PAGE_SIZE * (i + 1) <= PAGE_SIZE * num;
      assert |Block(g, i)| == PAGE_SIZE;
    }
  }

  // ----- a file is a sequence of pages, over whole runs

  function Pages(f: PageFile): (ps: seq<Page>)
    requires LayoutOk(f)
  {
    seq(f.numPages, i requires 0 <= i < f.numPages => Block(f, i))
  }

  datatype FileOp = AppendOp | WriteOp(num: nat, page: Page)

  /** Writes stay inside the pages there are, and appends inside the file limit. */
  predicate OpsInRange(ops: seq<FileOp>, numPages: nat) {
    ops == [] ||
    match ops[0]
    case AppendOp => numPages < MAX_PAGES && OpsInRange(ops[1..], numPages + 1)
    case WriteOp(num, _) => num < numPages && OpsInRange(ops[1..], numPages)
  }

  function RunFile(f: PageFile, ops: seq<FileOp>): PageFile
    decreases |ops|
  {
    if ops == [] then f
    else match ops[0]
      case AppendOp => RunFile(Append(f), ops[1..])
      case WriteOp(num, page) => RunFile(WriteBlock(f, num, page), ops[1..])
  }

  function RunPages(ps: seq<Page>, ops: seq<FileOp>): seq<Page>
    requires OpsInRange(ops, |ps|)
    decreases |ops|
  {
    if ops == [] then ps
    else match ops[0]
      case AppendOp => RunPages(ps + [Zeros(PAGE_SIZE)], ops[1..])
      case WriteOp(num, page) => RunPages(ps[num := page], ops[1..])
  }

  /** After any run the file is the sequence of pages the run describes, and
      reopening its bytes gives the same file. */
  lemma {:induction false} FileRunRefines(f: PageFile, ops: seq<FileOp>)
    requires LayoutOk(f) && OpsInRange(ops, f.numPages)
    ensures LayoutOk(RunFile(f, ops)) && Pages(RunFile(f, ops)) == RunPages(Pages(f), ops)
    ensures OpenBytes(RunFile(f, ops).bytes) == Ok(RunFile(f, ops))
    decreases |ops|
  {
    hide Append, WriteBlock, OpenBytes, LastFooter, Footer;
    if ops == [] {
      ReopenRecovers(f);
    } else {
      match ops[0] {
        case AppendOp =>
          AppendKeepsLayout(f);
          assert Pages(Append(f)) == Pages(f) + [Zeros(PAGE_SIZE)];
          FileRunRefines(Append(f), ops[1..]);
        case WriteOp(num, page) =>
          WriteKeepsLayout(f, num, page);
          assert Pages(WriteBlock(f, num, page)) == Pages(f)[num := page];
          FileRunRefines(WriteBlock(f, num, page), ops[1..]);
      }
    }
  }
}
