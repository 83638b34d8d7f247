/** The freelist and the chain of pages it is saved in. */
module FreeLists {
  import opened Bytes
  import opened Layout
  import opened Pages
  import opened Seqs

  const ENTRIES_PER_PAGE := 1021
  const NEXT_OFFSET := 5
  const ENTRIES_OFFSET := 9
  const COUNT_OFFSET := 4092

  function ChainPagesNeeded(pages: seq<u32>): nat
  {
    if pages == [] then 0 else (|pages| + ENTRIES_PER_PAGE - 1) / ENTRIES_PER_PAGE
  }

  /** The next group of entries that shares a page. */
  function FirstChunk(pages: seq<u32>): seq<u32>
  {
    if |pages| <= ENTRIES_PER_PAGE then pages else pages[..ENTRIES_PER_PAGE]
  }

  // ----- one page -----

  /** What a chain page holds: the next pointer, the count, and the entries, the last of a full page only in
      its three low bytes, since the count covers the fourth. */
  ghost predicate ChunkAt(p: seq<byte>, next: u32, chunk: seq<u32>)
  {
    && |p| == PAGE_SIZE && |chunk| <= ENTRIES_PER_PAGE
    && p[NEXT_OFFSET..NEXT_OFFSET + 4] == LE(next, 4)
    && p[COUNT_OFFSET..COUNT_OFFSET + 4] == LE(|chunk|, 4)
    && (forall j :: 0 <= j < |chunk| && j < 1020 ==> EntryAt(p, j, chunk[j]))
    && (|chunk| == ENTRIES_PER_PAGE ==> p[4089..4092] == LE(chunk[1020], 4)[..3])
  }

  ghost predicate EntryAt(p: seq<byte>, j: nat, e: u32)
    requires |p| == PAGE_SIZE && j < 1020
  {
    p[ENTRIES_OFFSET + 4 * j..ENTRIES_OFFSET + 4 * j + 4] == LE(e, 4)
  }

  /** The loss: a full page's last entry comes back with 0xFD, the low byte of 1021, as its top byte. */
  function Damaged(chunk: seq<u32>): seq<u32>
  {
    if |chunk| == ENTRIES_PER_PAGE then chunk[1020 := chunk[1020] % 0x100_0000 + 0xFD00_0000] else chunk
  }

  function ReadEntry(p: Page, j: nat): u32
    requires j < ENTRIES_PER_PAGE
  {
    Widths();
    LEInverse(p[ENTRIES_OFFSET + 4 * j..ENTRIES_OFFSET + 4 * j + 4]);
    Read(p, ENTRIES_OFFSET + 4 * j, 4)
  }

  function ReadNext(p: Page): u32
  {
    Widths();
    LEInverse(p[5..9]);
    Read(p, NEXT_OFFSET, 4)
  }

  function ReadCount(p: Page): u32
  {
    Widths();
    LEInverse(p[4092..4096]);
    Read(p, COUNT_OFFSET, 4)
  }

  function ReadChunk(p: Page): seq<u32>
    requires ReadCount(p) <= ENTRIES_PER_PAGE
  {
    seq(ReadCount(p), j requires 0 <= j < ReadCount(p) => ReadEntry(p, j))
  }

  lemma LastEntryBytes(p: Page)
    ensures p[4089..4093] == p[4089..4092] + [p[4092]]
  {
  }

  lemma CountLowByte()
    ensures LE(1021, 4)[0] == 0xFD
  {
  }

  /** The entry that shares a byte with the count. */
  lemma LastEntryReads(p: Page, e: u32)
    requires p[4089..4092] == LE(e, 4)[..3] && p[COUNT_OFFSET..COUNT_OFFSET + 4] == LE(1021, 4)
    ensures ReadEntry(p, 1020) == e % 0x100_0000 + 0xFD00_0000
  {
    hide FromLE, LE;
    LastEntryBytes(p);
    CountLowByte();
    assert p[4092..4096][0] == p[4092];
    LowBytes(e, p[4092]);
  }

  lemma FourBytes(a: byte, b: byte, c: byte, d: byte)
    ensures FromLE([a, b, c, d]) == a + 0x100 * b + 0x1_0000 * c + 0x100_0000 * d
  {
    assert [a, b, c, d][1..] == [b, c, d] && [b, c, d][1..] == [c, d] && [c, d][1..] == [d] && [d][1..] == [];
    assert FromLE([d]) == d;
    assert FromLE([c, d]) == c + 256 * FromLE([d]);
    assert FromLE([b, c, d]) == b + 256 * FromLE([c, d]);
  }

  lemma LowPart(low: nat, high: nat)
    requires low < 0x100_0000
    ensures (low + 0x100_0000 * high) % 0x100_0000 == low
  {
  }

  lemma LowBytes(e: u32, top: byte)
    ensures FromLE(LE(e, 4)[..3] + [top]) == e % 0x100_0000 + top * 0x100_0000
  {
    hide LE, FromLE;
    var s := LE(e, 4);
    Widths();
    LERoundTrip(e, 4);
    assert s == [s[0], s[1], s[2], s[3]];
    FourBytes(s[0], s[1], s[2], s[3]);
    FourBytes(s[0], s[1], s[2], top);
    var low: nat := s[0] as nat + 0x100 * s[1] as nat + 0x1_0000 * s[2] as nat;
    LowPart(low, s[3]);
    assert s[..3] + [top] == [s[0], s[1], s[2], top];
  }

  /** Reading a page back gives its chunk, but for the damaged last entry of a full page. */
  lemma ChunkReads(p: Page, next: u32, chunk: seq<u32>)
    requires ChunkAt(p, next, chunk)
    ensures ReadNext(p) == next && ReadCount(p) == |chunk| <= ENTRIES_PER_PAGE && ReadChunk(p) == Damaged(chunk)
  {
    hide LE, FromLE;
    Widths();
    LERoundTrip(next, 4);
    LERoundTrip(|chunk|, 4);
    forall j | 0 <= j < |chunk| ensures ReadEntry(p, j) == Damaged(chunk)[j] {
      if j < 1020 {
        assert EntryAt(p, j, chunk[j]);
        LERoundTrip(chunk[j], 4);
      } else {
        LastEntryReads(p, chunk[1020]);
      }
    }
  }

  ghost predicate HeadedAs(p: seq<byte>, pid: u32)
    requires |p| == PAGE_SIZE
  {
    p[..5] == [TypeByte(FreeListPage)] + LE(pid, 4)
  }

  /** Writing past the header and the next pointer keeps both. */
  lemma FrontKept(p: seq<byte>, off: nat, s: seq<byte>, pid: u32, next: u32)
    requires |p| == PAGE_SIZE && ENTRIES_OFFSET <= off && off + |s| <= |p|
    requires HeadedAs(p, pid) && p[NEXT_OFFSET..NEXT_OFFSET + 4] == LE(next, 4)
    ensures HeadedAs(Overwrite(p, off, s), pid) && Overwrite(p, off, s)[NEXT_OFFSET..NEXT_OFFSET + 4] == LE(next, 4)
  {
    hide LE;
    OverwriteMiss(p, off, s, 0, 5);
    OverwriteMiss(p, off, s, NEXT_OFFSET, NEXT_OFFSET + 4);
  }

  /** Fills one chain page: header, next pointer, entries, then the count over the page's last four bytes. */
  method WriteChunk(pid: u32, next: u32, chunk: seq<u32>) returns (page: Page)
    requires |chunk| <= ENTRIES_PER_PAGE
    ensures ChunkAt(page, next, chunk) && HeadedAs(page, pid)
  {
    hide LE, Overwrite, HeadedAs;
    var buf := NewChainPage(pid, next);
    for i := 0 to |chunk|
      invariant HeadedAs(buf[..], pid) && buf[..][NEXT_OFFSET..NEXT_OFFSET + 4] == LE(next, 4)
      invariant forall j :: 0 <= j < i && j < 1020 ==> EntryAt(buf[..], j, chunk[j])
      invariant i == ENTRIES_PER_PAGE ==> buf[..][4089..4093] == LE(chunk[1020], 4)
    {
      ghost var p := buf[..];
      var off := ENTRIES_OFFSET + i * 4;
      FrontKept(p, off, LE(chunk[i], 4), pid, next);
      OverwriteHit(p, off, LE(chunk[i], 4));
      forall j | 0 <= j < i && j < 1020 ensures EntryAt(Overwrite(p, off, LE(chunk[i], 4)), j, chunk[j]) {
        assert EntryAt(p, j, chunk[j]);
        OverwriteMiss(p, off, LE(chunk[i], 4), ENTRIES_OFFSET + 4 * j, ENTRIES_OFFSET + 4 * j + 4);
      }
      CopyInto(buf, off, LE(chunk[i], 4));
    }
    ghost var q := buf[..];
    FrontKept(q, COUNT_OFFSET, LE(|chunk|, 4), pid, next);
    CopyInto(buf, COUNT_OFFSET, LE(|chunk|, 4));
    page := buf[..];
    CountWritten(q, page, next, chunk);
  }

  method NewChainPage(pid: u32, next: u32) returns (buf: array<byte>)
    ensures fresh(buf) && buf.Length == PAGE_SIZE && HeadedAs(buf[..], pid)
        && buf[..][NEXT_OFFSET..NEXT_OFFSET + 4] == LE(next, 4)
  {
    hide LE;
    buf := new byte[4096](_ => 0);
    CopyInto(buf, 0, [TypeByte(FreeListPage)]);
    CopyInto(buf, 1, LE(pid, 4));
    OverwriteHit(buf[..], NEXT_OFFSET, LE(next, 4));
    OverwriteMiss(buf[..], NEXT_OFFSET, LE(next, 4), 0, 5);
    CopyInto(buf, NEXT_OFFSET, LE(next, 4));
  }

  lemma CountWritten(q: seq<byte>, page: Page, next: u32, chunk: seq<u32>)
    requires |q| == PAGE_SIZE && |chunk| <= ENTRIES_PER_PAGE && page == Overwrite(q, COUNT_OFFSET, LE(|chunk|, 4))
    requires q[NEXT_OFFSET..NEXT_OFFSET + 4] == LE(next, 4)
    requires forall j :: 0 <= j < |chunk| && j < 1020 ==> EntryAt(q, j, chunk[j])
    requires |chunk| == ENTRIES_PER_PAGE ==> q[4089..4093] == LE(chunk[1020], 4)
    ensures ChunkAt(page, next, chunk)
  {
    hide LE;
    var s := LE(|chunk|, 4);
    OverwriteMiss(q, COUNT_OFFSET, s, NEXT_OFFSET, NEXT_OFFSET + 4);
    OverwriteHit(q, COUNT_OFFSET, s);
    OverwriteMiss(q, COUNT_OFFSET, s, 4089, 4092);
    SubSlice(q, 4089, 4093, 0, 3);
    forall j | 0 <= j < |chunk| && j < 1020 ensures EntryAt(page, j, chunk[j]) {
      assert EntryAt(q, j, chunk[j]);
      OverwriteMiss(q, COUNT_OFFSET, s, ENTRIES_OFFSET + 4 * j, ENTRIES_OFFSET + 4 * j + 4);
    }
  }

  // ----- the chain -----

  function Chunks(pages: seq<u32>): (cs: seq<seq<u32>>)
    ensures |cs| == ChainPagesNeeded(pages)
    ensures forall i :: 0 <= i < |cs| ==> |cs[i]| <= ENTRIES_PER_PAGE
  {
    if pages == [] then [] else [FirstChunk(pages)] + Chunks(pages[|FirstChunk(pages)|..])
  }

  function NextOf(ids: seq<u32>, i: nat): u32
  {
    if i + 1 < |ids| then ids[i + 1] else 0
  }

  /** The pages `images` at `ids` hold the chunks, each pointing to the next and the last to 0. */
  ghost predicate ChainAt(ids: seq<u32>, images: seq<Page>, chunks: seq<seq<u32>>)
  {
    && |ids| == |images| == |chunks|
    && forall i :: 0 <= i < |ids| ==> ids[i] != 0 && ChunkAt(images[i], NextOf(ids, i), chunks[i])
  }

  /** Serializes the list into the given chain pages, one per chunk. */
  method Persist(pages: seq<u32>, chainIds: seq<u32>) returns (result: seq<Page>)
    requires |chainIds| == ChainPagesNeeded(pages) && 0 !in chainIds
    ensures |result| == |chainIds| && ChainAt(chainIds, result, Chunks(pages))
    ensures forall i :: 0 <= i < |chainIds| ==> HeadedAs(result[i], chainIds[i])
  {
    hide ChunkAt, HeadedAs;
    var chunks := Chunks(pages);
    result := [];
    for i := 0 to |chunks|
      invariant |result| == i
      invariant forall j :: 0 <= j < i ==>
          ChunkAt(result[j], NextOf(chainIds, j), chunks[j]) && HeadedAs(result[j], chainIds[j])
    {
      var page := WriteChunk(chainIds[i], NextOf(chainIds, i), chunks[i]);
      result := result + [page];
    }
  }

  /** The entries of damaged chunks, end to end. */
  function Reread(chunks: seq<seq<u32>>): seq<u32>
  {
    if chunks == [] then [] else Damaged(chunks[0]) + Reread(chunks[1..])
  }

  lemma {:induction false} RereadSnoc(chunks: seq<seq<u32>>, c: seq<u32>)
    ensures Reread(chunks + [c]) == Reread(chunks) + Damaged(c)
  {
    if chunks == [] {
      assert [c][1..] == [];
      assert chunks + [c] == [c];
    } else {
      assert (chunks + [c])[1..] == chunks[1..] + [c];
      RereadSnoc(chunks[1..], c);
    }
  }

  lemma NothingReread()
    ensures Reread([]) == []
  {
  }

  lemma RereadMore(chunks: seq<seq<u32>>, n: nat)
    requires n < |chunks|
    ensures Reread(chunks[..n + 1]) == Reread(chunks[..n]) + Damaged(chunks[n])
  {
    hide Reread, Damaged;
    assert chunks[..n + 1] == chunks[..n] + [chunks[n]];
    RereadSnoc(chunks[..n], chunks[n]);
  }

  /** What reading chain page `n` gives. */
  lemma LinkReads(ids: seq<u32>, read: u32 -> Page, chunks: seq<seq<u32>>, n: nat)
    requires ChainAt(ids, seq(|ids|, i requires 0 <= i < |ids| => read(ids[i])), chunks) && n < |ids|
    ensures |chunks| == |ids| && ids[n] != 0 && NextOf(ids, n) == (if n + 1 < |ids| then ids[n + 1] else 0)
    ensures n + 1 < |ids| ==> ids[n + 1] != 0
    ensures var p := read(ids[n]);
            ReadNext(p) == NextOf(ids, n) && ReadCount(p) <= ENTRIES_PER_PAGE && ReadChunk(p) == Damaged(chunks[n])
  {
    hide ChunkAt, ReadNext, ReadCount, ReadChunk, Damaged;
    ChunkReads(read(ids[n]), NextOf(ids, n), chunks[n]);
  }

  lemma ChainLengths(ids: seq<u32>, images: seq<Page>, chunks: seq<seq<u32>>)
    requires ChainAt(ids, images, chunks)
    ensures |chunks| == |ids| && (ids != [] ==> ids[0] != 0)
  {
    hide ChunkAt;
  }

  /** Follows the chain from `head` until a next pointer of 0. */
  method Restore(head: u32, read: u32 -> Page, ghost ids: seq<u32>, ghost chunks: seq<seq<u32>>)
    returns (pages: seq<u32>)
    requires ChainAt(ids, seq(|ids|, i requires 0 <= i < |ids| => read(ids[i])), chunks)
    requires head == if ids == [] then 0 else ids[0]
    ensures pages == Reread(chunks)
  {
    hide ChainAt, ReadNext, ReadCount, ReadChunk, Damaged, Reread;
    ChainLengths(ids, seq(|ids|, i requires 0 <= i < |ids| => read(ids[i])), chunks);
    pages := [];
    assert chunks[..0] == [];
    NothingReread();
    var current := head;
    ghost var n := 0;
    while current != 0
      invariant n <= |ids| && current == (if n < |ids| then ids[n] else 0) && (n < |ids| ==> ids[n] != 0)
      invariant pages == Reread(chunks[..n])
      decreases |ids| - n
    {
      LinkReads(ids, read, chunks, n);
      RereadMore(chunks, n);
      pages := pages + ReadChunk(read(current));
      current := ReadNext(read(current));
      n := n + 1;
    }
    assert chunks[..n] == chunks;
  }

  /** The list as it comes back: same length, and the same but for the last entry of each full page. */
  function AllDamaged(pages: seq<u32>): seq<u32>
  {
    seq(|pages|, i requires 0 <= i < |pages| =>
      if i % ENTRIES_PER_PAGE == 1020 then pages[i] % 0x100_0000 + 0xFD00_0000 else pages[i])
  }

  lemma {:induction false} RereadAll(pages: seq<u32>)
    ensures Reread(Chunks(pages)) == AllDamaged(pages)
    decreases |pages|
  {
    if pages != [] {
      var first := FirstChunk(pages);
      var rest := pages[|first|..];
      RereadAll(rest);
      assert Chunks(pages)[1..] == Chunks(rest);
      DamagedFirst(pages);
    }
  }

  /** Damaging a list damages its first page, then the rest. */
  lemma DamagedFirst(pages: seq<u32>)
    requires pages != []
    ensures var first := FirstChunk(pages); AllDamaged(pages) == Damaged(first) + AllDamaged(pages[|first|..])
  {
    var first := FirstChunk(pages);
    var rest := pages[|first|..];
    var both := Damaged(first) + AllDamaged(rest);
    forall i | 0 <= i < |pages| ensures both[i] == AllDamaged(pages)[i] {
      if i >= |first| {
        NextPage(i);
        assert both[i] == AllDamaged(rest)[i - 1021] && rest[i - 1021] == pages[i];
      }
    }
  }

  lemma NextPage(i: nat)
    requires i >= ENTRIES_PER_PAGE
    ensures (i - ENTRIES_PER_PAGE) % ENTRIES_PER_PAGE == i % ENTRIES_PER_PAGE
  {
  }

  lemma TopByte(e: u32)
    ensures e % 0x100_0000 + 0xFD00_0000 == e <==> e / 0x100_0000 == 0xFD
  {
  }

  /** Saving and restoring gives the list back exactly when the entry at the end of every full page has
      the top byte 0xFD; in particular whenever no page is full. */
  lemma RestoredExactly(pages: seq<u32>)
    ensures Reread(Chunks(pages)) == pages <==>
              forall i :: 0 <= i < |pages| && i % ENTRIES_PER_PAGE == 1020 ==> pages[i] / 0x100_0000 == 0xFD
    ensures |pages| <= 1020 ==> Reread(Chunks(pages)) == pages
  {
    RereadAll(pages);
    var back := AllDamaged(pages);
    forall i | 0 <= i < |pages| && i % ENTRIES_PER_PAGE == 1020
      ensures back[i] == pages[i] <==> pages[i] / 0x100_0000 == 0xFD
    {
      TopByte(pages[i]);
    }
    if forall i :: 0 <= i < |pages| && i % ENTRIES_PER_PAGE == 1020 ==> pages[i] / 0x100_0000 == 0xFD {
      assert back == pages;
    }
  }

  /** A list of 1021 page numbers, all below 2^24, is not restored: its last page number changes. */
  lemma FullPageLosesEntry()
    ensures var pages: seq<u32> := seq(1021, i => i + 2); Reread(Chunks(pages)) != pages
  {
    var pages: seq<u32> := seq(1021, i => i + 2);
    RestoredExactly(pages);
    assert pages[1020] / 0x100_0000 == 0;
  }
}
