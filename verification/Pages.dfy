/** Pages, their common header, and in-place writes into a page buffer. */
module Pages {
  import opened Bytes

  type Page = p: seq<byte> | |p| == 4096 witness seq(4096, _ => 0)

  function ZeroPage(): Page
  {
    seq(4096, _ => 0)
  }

  datatype PageType = MetaPage | FreeListPage | InternalPage | LeafPage | OverflowPage

  function TypeByte(t: PageType): byte
  {
    match t
    case MetaPage => 0
    case FreeListPage => 1
    case InternalPage => 2
    case LeafPage => 3
    case OverflowPage => 4
  }

  /** An unknown type byte reads as a meta page. */
  function HeaderType(p: Page): PageType
  {
    if p[0] == 1 then FreeListPage
    else if p[0] == 2 then InternalPage
    else if p[0] == 3 then LeafPage
    else if p[0] == 4 then OverflowPage
    else MetaPage
  }

  function HeaderId(p: Page): nat
  {
    FromLE(p[1..5])
  }

  function Read(p: seq<byte>, off: nat, n: nat): nat
    requires off + n <= |p|
  {
    FromLE(p[off..off + n])
  }

  // ----- writing -----

  function Overwrite(p: seq<byte>, off: nat, s: seq<byte>): (q: seq<byte>)
    requires off + |s| <= |p|
    ensures |q| == |p|
  {
    p[..off] + s + p[off + |s|..]
  }

  /** What was written reads back. */
  lemma OverwriteHit(p: seq<byte>, off: nat, s: seq<byte>)
    requires off + |s| <= |p|
    ensures Overwrite(p, off, s)[off..off + |s|] == s
  {
  }

  /** What lies elsewhere is untouched. */
  lemma OverwriteMiss(p: seq<byte>, off: nat, s: seq<byte>, a: nat, b: nat)
    requires off + |s| <= |p| && a <= b <= |p| && (b <= off || off + |s| <= a)
    ensures Overwrite(p, off, s)[a..b] == p[a..b]
  {
  }

  /** Copies the bytes into the buffer at `off`; the rest of the buffer stays. */
  method CopyInto(buf: array<byte>, off: nat, s: seq<byte>)
    requires off + |s| <= buf.Length
    modifies buf
    ensures buf[..] == Overwrite(old(buf[..]), off, s)
  {
    ghost var was := buf[..];
    for i := 0 to |s|
      invariant buf[..] == Overwrite(was, off, s[..i])
    {
      buf[off + i] := s[i];
      assert s[..i + 1] == s[..i] + [s[i]];
    }
    assert s[..|s|] == s;
  }

  // ----- cells: a slot that says where its data is -----

  ghost predicate CellAt(p: seq<byte>, slotOff: nat, slot: seq<byte>, off: nat, data: seq<byte>)
  {
    && slotOff + |slot| <= |p| && p[slotOff..slotOff + |slot|] == slot
    && off + |data| <= |p| && p[off..off + |data|] == data
  }

  /** Writing one cell, slot area and data area apart. */
  lemma CellWritten(p: seq<byte>, slotOff: nat, slot: seq<byte>, off: nat, data: seq<byte>)
    requires slotOff + |slot| <= off && off + |data| <= |p|
    ensures CellAt(Overwrite(Overwrite(p, off, data), slotOff, slot), slotOff, slot, off, data)
  {
    var q := Overwrite(p, off, data);
    OverwriteHit(p, off, data);
    OverwriteMiss(q, slotOff, slot, off, off + |data|);
    OverwriteHit(q, slotOff, slot);
  }

  /** A cell with an earlier slot and data further back survives. */
  lemma CellKept(p: seq<byte>, slotOff: nat, slot: seq<byte>, off: nat, data: seq<byte>,
                 slotOff': nat, slot': seq<byte>, off': nat, data': seq<byte>)
    requires CellAt(p, slotOff, slot, off, data)
    requires slotOff + |slot| <= slotOff' && slotOff' + |slot'| <= off' && off' + |data'| <= off
    ensures CellAt(Overwrite(Overwrite(p, off', data'), slotOff', slot'), slotOff, slot, off, data)
  {
    var q := Overwrite(p, off', data');
    OverwriteMiss(p, off', data', slotOff, slotOff + |slot|);
    OverwriteMiss(p, off', data', off, off + |data|);
    OverwriteMiss(q, slotOff', slot', slotOff, slotOff + |slot|);
    OverwriteMiss(q, slotOff', slot', off, off + |data|);
  }

  /** A write in front of the slots leaves the cells alone. */
  lemma CellKeptBehind(p: seq<byte>, at: nat, s: seq<byte>, slotOff: nat, slot: seq<byte>, off: nat, data: seq<byte>)
    requires CellAt(p, slotOff, slot, off, data) && at + |s| <= slotOff <= off
    ensures CellAt(Overwrite(p, at, s), slotOff, slot, off, data)
  {
    OverwriteMiss(p, at, s, slotOff, slotOff + |slot|);
    OverwriteMiss(p, at, s, off, off + |data|);
  }
}
