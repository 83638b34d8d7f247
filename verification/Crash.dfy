/** What is found after a crash between two commits or during one: the last committed meta and its free list. */
module Crashes {
  import opened Bytes
  import opened Pages
  import opened MetaPages
  import opened FreeLists
  import opened Pagers
  import opened Seqs

  /** Page numbers of the file's own, past the meta slots. */
  ghost predicate Inside(ids: seq<u32>, file: seq<Page>)
  {
    forall i :: 0 <= i < |ids| ==> 2 <= ids[i] < |file|
  }

  /** Opening this file gives a valid pager on meta `m` with exactly this free list, and none of the live pages in
      it. */
  ghost predicate Restores(file: seq<Page>, crc: Checksum, m: Meta, slot: nat, ids: seq<u32>, freelist: seq<u32>,
                           live: set<nat>)
  {
    && Saved(file, crc, m, slot, ids, freelist) && AllDamaged(freelist) == freelist
    && m.nextPageId >= 2 && NoRepeats(freelist) && (forall x :: x in freelist ==> 2 <= x < m.nextPageId)
    && live <= Numbers(m.nextPageId) - IdSet(freelist)
  }

  lemma IdSetHas(ids: seq<u32>)
    ensures forall x :: x in IdSet(ids) <==> x in ids
  {
    forall x | x in ids ensures x in IdSet(ids) {
      var i :| 0 <= i < |ids| && ids[i] == x;
    }
  }

  /** Writes outside the slots and the chain leave meta and free list as they were saved. */
  lemma SavedKept(f: seq<Page>, g: seq<Page>, changed: set<nat>, crc: Checksum, m: Meta, slot: nat, ids: seq<u32>,
                  freelist: seq<u32>)
    requires Saved(f, crc, m, slot, ids, freelist) && Inside(ids, f)
    requires SameExcept(f, g, changed) && changed !! {0, 1} + IdSet(ids)
    ensures Saved(g, crc, m, slot, ids, freelist) && Inside(ids, g)
  {
    hide PickActive, ChainAt, Chunks, FreelistHead;
    IdSetHas(ids);
    forall i | 0 <= i < |ids| ensures Images(g, ids)[i] == Images(f, ids)[i] {
      assert ids[i] in ids;
    }
    assert Images(g, ids) == Images(f, ids);
  }

  /** Writing any part of a chain changes its own pages only. */
  lemma {:induction false} ChainWritesOnly(file: seq<Page>, ids: seq<u32>, images: seq<Page>, n: nat)
    requires n <= |ids| == |images|
    ensures SameExcept(file, ChainWrites(file, ids, images, n), IdSet(ids))
    decreases n
  {
    hide FileWrite;
    if n > 0 {
      ChainWritesOnly(file, ids, images, n - 1);
      assert ids[n - 1] in IdSet(ids);
    }
  }

  /** Writing all of it puts every image in place. */
  lemma {:induction false} ChainWritten(file: seq<Page>, ids: seq<u32>, images: seq<Page>, n: nat)
    requires n <= |ids| == |images| && NoRepeats(ids)
    ensures var f := ChainWrites(file, ids, images, n);
            forall j :: 0 <= j < n ==> ids[j] < |f| && f[ids[j]] == images[j]
    decreases n
  {
    hide FileWrite;
    if n > 0 {
      ChainWritten(file, ids, images, n - 1);
    }
  }

  /** A slot write that failed leaves the other slot to be picked. */
  lemma TornSlot(file: seq<Page>, torn: Page, crc: Checksum, m: Meta, slot: nat, ids: seq<u32>, freelist: seq<u32>)
    requires Saved(file, crc, m, slot, ids, freelist) && Inside(ids, file) && !SlotSound(torn, crc)
    ensures Saved(file[1 - slot := torn], crc, m, slot, ids, freelist)
  {
    hide MetaPages.Valid, SlotSound, ChainAt, Chunks, FreelistHead, Images;
    ValidExact(torn, m, crc);
    ImagesKept(file, ids, 1 - slot, torn);
  }

  /** A commit after any writes to live pages, stopped by a crash at any step: `n` chain pages written, the slot
      untouched, torn or complete. The file opens on the meta committed before, with its free list, unless the slot
      was complete, and then on the new ones. */
  lemma CommitCrashes(f0: seq<Page>, crc: Checksum, m: Meta, slot: nat, ids: seq<u32>, freelist: seq<u32>,
                      f: seq<Page>, changed: set<nat>,
                      m': Meta, ids': seq<u32>, images': seq<Page>, freelist': seq<u32>, n: nat, fate: Fate)
    requires Saved(f0, crc, m, slot, ids, freelist) && Inside(ids, f0)
    requires SameExcept(f0, f, changed) && changed !! {0, 1} + IdSet(ids)
    requires IdSet(ids') !! {0, 1} + IdSet(ids) && NoRepeats(ids')
    requires |images'| == |ids'| && ChainAt(ids', images', Chunks(freelist')) && n <= |ids'|
    requires m'.magic == MAGIC && m'.txnId > m.txnId
    requires n < |ids'| ==> fate.Absent?
    requires fate.Torn? ==> !SlotSound(fate.page, crc)
    ensures |f| >= 2 && slot <= 1
    ensures var g := CommitFile(f, ids', images', n, Sealed(m', crc), 1 - slot, fate);
            if fate.Complete? then Saved(g, crc, Sealed(m', crc), 1 - slot, ids', freelist') && Inside(ids', g)
            else Saved(g, crc, m, slot, ids, freelist) && Inside(ids, g)
  {
    hide PickActive, ChainAt, Chunks, FreelistHead, ToPage, Fields, Images, ChainWrites, SameExcept, IdSet;
    SavedKept(f0, f, changed, crc, m, slot, ids, freelist);
    ChainWritesOnly(f, ids', images', n);
    var g := ChainWrites(f, ids', images', n);
    SavedKept(f, g, IdSet(ids'), crc, m, slot, ids, freelist);
    if fate.Torn? {
      TornSlot(g, fate.page, crc, m, slot, ids, freelist);
    } else if fate.Complete? {
      ChainComplete(f, ids', images', freelist');
      MetaWritten(g, crc, m, slot, m', ids', freelist');
    }
  }

  lemma ChainComplete(f: seq<Page>, ids: seq<u32>, images: seq<Page>, freelist: seq<u32>)
    requires NoRepeats(ids) && |images| == |ids| && ChainAt(ids, images, Chunks(freelist)) && IdSet(ids) !! {0, 1}
    ensures var g := ChainWrites(f, ids, images, |ids|);
            ChainAt(ids, Images(g, ids), Chunks(freelist)) && Inside(ids, g)
  {
    hide ChainAt, Chunks, ChainWrites;
    IdSetHas(ids);
    ChainWritten(f, ids, images, |ids|);
    assert Images(ChainWrites(f, ids, images, |ids|), ids) == images;
    forall i | 0 <= i < |ids| ensures ids[i] >= 2 {
      assert ids[i] in ids;
    }
  }

  /** What a pager saved is restored whole when its free list needs no full page. */
  lemma SavedRestores(file: seq<Page>, crc: Checksum, m: Meta, slot: nat, ids: seq<u32>, freelist: seq<u32>,
                      live: set<nat>, chain: set<nat>)
    requires Saved(file, crc, m, slot, ids, freelist) && Accounted(m.nextPageId, freelist, live, chain)
        && |freelist| <= 1020
    ensures Restores(file, crc, m, slot, ids, freelist, live)
  {
    hide Saved;
    RestoredExactly(freelist);
    RereadAll(freelist);
    NumbersCount(m.nextPageId);
    IdSetHas(freelist);
  }

  /** Opening such a file. */
  method Reopen(file: seq<Page>, crc: Checksum, capacity: nat, ghost m: Meta, ghost slot: nat, ghost ids: seq<u32>,
                ghost freelist: seq<u32>, ghost live: set<nat>) returns (p: Pager)
    requires capacity > 0 && Restores(file, crc, m, slot, ids, freelist, live)
    ensures fresh(p) && p.Valid() && p.file == file && p.meta == m && p.freelist == freelist && live <= p.live
  {
    hide AllDamaged, ChainAt, Chunks, PickActive, Numbers, IdSet, SlotSound, TakenFrom;
    SavedPicks(file, crc, m, slot, ids, freelist);
    PickedTaken(file[0], file[1], crc);
    var r := Pager.Open(file, crc, capacity, ids, freelist);
    p := r.value;
  }

  // ----- runs -----

  /** A file and what was last committed to it. */
  datatype State = State(file: seq<Page>, meta: Meta, slot: nat, ids: seq<u32>, freelist: seq<u32>)

  /** Page writes that led to the file `before`, then a commit that came as far as `n` chain pages and `fate`. */
  datatype Attempt = Attempt(before: seq<Page>, changed: set<nat>, meta: Meta, ids: seq<u32>, images: seq<Page>,
                             freelist: seq<u32>, n: nat, fate: Fate)

  ghost predicate Committed(s: State, crc: Checksum)
  {
    Saved(s.file, crc, s.meta, s.slot, s.ids, s.freelist) && Inside(s.ids, s.file)
  }

  /** The writes spare slots and chain, and the commit uses fresh chain pages and a larger transaction id. */
  ghost predicate Follows(s: State, a: Attempt, crc: Checksum)
  {
    && |s.file| >= 2 && s.slot <= 1
    && SameExcept(s.file, a.before, a.changed) && a.changed !! {0, 1} + IdSet(s.ids)
    && IdSet(a.ids) !! {0, 1} + IdSet(s.ids) && NoRepeats(a.ids)
    && |a.images| == |a.ids| && ChainAt(a.ids, a.images, Chunks(a.freelist)) && a.n <= |a.ids|
    && a.meta.magic == MAGIC && a.meta.txnId > s.meta.txnId
    && (a.n < |a.ids| ==> a.fate.Absent?) && (a.fate.Torn? ==> !SlotSound(a.fate.page, crc))
  }

  ghost function After(s: State, a: Attempt, crc: Checksum): State
    requires Follows(s, a, crc)
  {
    var g := CommitFile(a.before, a.ids, a.images, a.n, Sealed(a.meta, crc), 1 - s.slot, a.fate);
    if a.fate.Complete? then State(g, Sealed(a.meta, crc), 1 - s.slot, a.ids, a.freelist) else s.(file := g)
  }

  ghost predicate Possible(s: State, attempts: seq<Attempt>, crc: Checksum)
    decreases |attempts|
  {
    attempts == [] || (Follows(s, attempts[0], crc) && Possible(After(s, attempts[0], crc), attempts[1..], crc))
  }

  ghost function AfterAll(s: State, attempts: seq<Attempt>, crc: Checksum): State
    requires Possible(s, attempts, crc)
    decreases |attempts|
  {
    if attempts == [] then s else AfterAll(After(s, attempts[0], crc), attempts[1..], crc)
  }

  /** Over any run of page writes and commits, each finished or stopped by a crash at any step, the file opens on the
      last finished commit, free list included. */
  lemma {:induction false} RunRestores(s: State, attempts: seq<Attempt>, crc: Checksum)
    requires Committed(s, crc) && Possible(s, attempts, crc)
    ensures Committed(AfterAll(s, attempts, crc), crc)
    decreases |attempts|
  {
    hide Saved, Inside, ChainAt, Chunks, SameExcept, IdSet, CommitFile;
    if attempts != [] {
      var a := attempts[0];
      CommitCrashes(s.file, crc, s.meta, s.slot, s.ids, s.freelist, a.before, a.changed,
                    a.meta, a.ids, a.images, a.freelist, a.n, a.fate);
      RunRestores(After(s, a, crc), attempts[1..], crc);
    }
  }

  lemma FreshIds(next: nat, n: nat)
    requires 2 <= next && next + n < U32
    ensures NoRepeats(NewIds(next, n)) && IdSet(NewIds(next, n)) !! {0, 1}
  {
  }

  /** What a pager does at a commit is such an attempt, a finished one: when only pages outside slots and saved chain
      were written since `s`, the pager's file, meta and free list are what the model says comes after. */
  method CommitFollows(pager: Pager, newMeta: Meta, ghost s: State, ghost changed: set<nat>) returns (ghost a: Attempt)
    requires pager.Valid() && Committed(s, pager.crc) && s.slot == pager.metaSlot && s.meta.txnId == pager.meta.txnId
    requires SameExcept(s.file, pager.file, changed) && changed !! {0, 1} + IdSet(s.ids)
    requires IdSet(s.ids) <= pager.live + pager.chain
    requires newMeta.magic == MAGIC && newMeta.nextPageId == pager.meta.nextPageId && newMeta.txnId > pager.meta.txnId
    requires pager.meta.nextPageId + ChainPagesNeeded(pager.freelist) < U32
    modifies pager
    ensures pager.Valid() && Follows(s, a, pager.crc) && a.n == |a.ids| && a.fate.Complete?
    ensures After(s, a, pager.crc) == State(pager.file, pager.meta, pager.metaSlot, a.ids, pager.freelist)
    ensures Committed(After(s, a, pager.crc), pager.crc) && IdSet(a.ids) <= pager.chain
  {
    hide PickActive, Accounted, Coherent, ChainAt, Chunks, ChainPagesNeeded, SameExcept, IdSet, NewIds, CommitFile,
         Fields, ToPage, Stepped, Saved, Inside;
    ghost var before := pager.file;
    SavedPicks(s.file, pager.crc, s.meta, s.slot, s.ids, s.freelist);
    NextAtLeastTwo(pager.meta.nextPageId, pager.freelist, pager.live, pager.chain);
    FreshIds(pager.meta.nextPageId, ChainPagesNeeded(pager.freelist));
    ghost var ids, images := pager.CommitMeta(newMeta);
    ghost var m := newMeta.(nextPageId := newMeta.nextPageId + |ids|);
    a := Attempt(before, changed, m, ids, images, pager.freelist, |ids|, Complete);
    CommitCrashes(s.file, pager.crc, s.meta, s.slot, s.ids, s.freelist, before, changed,
                  m, ids, images, pager.freelist, |ids|, Complete);
    ChainHas(old(pager.chain), ids);
  }

  lemma ChainHas(chain: set<nat>, ids: seq<u32>)
    ensures IdSet(ids) <= chain + IdSet(ids)
  {
  }
}
