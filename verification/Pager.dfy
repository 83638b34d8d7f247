/** The page file behind a write-through LRU cache, with page allocation and meta commits. */
module Pagers {
  import opened Bytes
  import opened Entries
  import opened FreeLists
  import opened Lru
  import opened MetaPages
  import opened Pages
  import opened Results
  import opened Seqs

  // ----- the file -----

  function Zeros(n: nat): seq<Page>
  {
    seq(n, _ => ZeroPage())
  }

  /** Writing past the end fills the gap with zero pages. */
  function FileWrite(file: seq<Page>, id: nat, page: Page): (f: seq<Page>)
    ensures id < |f| && f[id] == page && |f| >= |file|
    ensures forall p :: 0 <= p < |file| && p != id ==> f[p] == file[p]
  {
    if id < |file| then file[id := page] else file + Zeros(id - |file|) + [page]
  }

  /** The second file has all pages of the first, and the same contents outside `changed`. */
  ghost predicate SameExcept(f: seq<Page>, g: seq<Page>, changed: set<nat>)
  {
    |f| <= |g| && forall p :: 0 <= p < |f| && p !in changed ==> g[p] == f[p]
  }

  // ----- page numbers -----

  /** Every page number from 2 up to the next is in exactly one of three places. */
  ghost predicate Accounted(next: nat, freelist: seq<u32>, live: set<nat>, chain: set<nat>)
  {
    && NoRepeats(freelist) && live !! chain
    && (forall x :: x in freelist ==> x !in live && x !in chain)
    && (forall x: nat :: 2 <= x < next <==> x in freelist || x in live || x in chain)
    && next >= 2
  }

  /** The page number the `j`-th next allocation will give. */
  function NthFree(freelist: seq<u32>, next: nat, j: nat): nat
  {
    if j < |freelist| then freelist[|freelist| - 1 - j] else next + (j - |freelist|)
  }

  function Upcoming(freelist: seq<u32>, next: nat, n: nat): seq<nat>
  {
    seq(n, j requires 0 <= j < n => NthFree(freelist, next, j))
  }

  lemma UpcomingFresh(freelist: seq<u32>, next: nat, live: set<nat>, chain: set<nat>, n: nat)
    requires Accounted(next, freelist, live, chain)
    ensures forall i, j :: 0 <= i < j < n ==> NthFree(freelist, next, i) != NthFree(freelist, next, j)
    ensures forall j :: 0 <= j < n ==> NthFree(freelist, next, j) !in live && NthFree(freelist, next, j) >= 2
  {
    forall j | 0 <= j < |freelist| ensures 2 <= freelist[j] < next && freelist[j] !in live {
      assert freelist[j] in freelist;
    }
  }

  // ----- the cache -----

  /** Each cached page once in the list, within capacity, and equal to the file but for the two meta slots. */
  ghost predicate Coherent(cache: map<nat, Page>, order: seq<nat>, capacity: nat, file: seq<Page>)
  {
    && NoRepeats(order) && |order| <= capacity && 0 < capacity
    && (forall k :: k in cache <==> k in order)
    && (forall k :: k in cache ==> k < |file| && (k >= 2 ==> cache[k] == file[k]))
  }

  ghost function SetOf(order: seq<nat>): set<nat>
  {
    set k | k in order
  }

  lemma {:induction false} DistinctCount(order: seq<nat>)
    requires NoRepeats(order)
    ensures |SetOf(order)| == |order|
  {
    if order == [] {
      assert SetOf(order) == {};
    } else {
      var n := |order| - 1;
      DistinctCount(order[..n]);
      assert order == order[..n] + [order[n]];
      assert SetOf(order) == SetOf(order[..n]) + {order[n]};
    }
  }

  lemma CacheSize(cache: map<nat, Page>, order: seq<nat>, capacity: nat, file: seq<Page>)
    requires Coherent(cache, order, capacity, file)
    ensures |cache| == |order|
  {
    DistinctCount(order);
    assert cache.Keys == SetOf(order);
  }

  /** A cached page is in the file and, but for the meta pages, is the file's. */
  lemma CoherentHit(cache: map<nat, Page>, order: seq<nat>, capacity: nat, file: seq<Page>, k: nat)
    requires Coherent(cache, order, capacity, file) && k in cache
    ensures k < |file| && (k >= 2 ==> cache[k] == file[k])
  {
  }

  lemma CoherentTouch(cache: map<nat, Page>, order: seq<nat>, capacity: nat, file: seq<Page>, k: nat)
    requires Coherent(cache, order, capacity, file) && k in cache
    ensures Coherent(cache, Touched(order, k), capacity, file) && Touched(order, k) == NextOrder(order, k, capacity)
  {
    NextOrderFacts(order, k, capacity);
    DroppedFacts(order, k);
  }

  lemma CoherentWrite(cache: map<nat, Page>, order: seq<nat>, capacity: nat, file: seq<Page>, k: nat, page: Page)
    requires Coherent(cache, order, capacity, file) && k >= 2
    ensures var f := FileWrite(file, k, page);
            if k in cache then Coherent(cache[k := page], order, capacity, f) else Coherent(cache, order, capacity, f)
  {
  }

  lemma CoherentEvict(cache: map<nat, Page>, order: seq<nat>, capacity: nat, file: seq<Page>)
    requires Coherent(cache, order, capacity, file) && order != []
    ensures Coherent(cache - {order[0]}, order[1..], capacity, file)
  {
    assert forall x :: x in order <==> x == order[0] || x in order[1..];
  }

  lemma CoherentInsert(cache: map<nat, Page>, order: seq<nat>, capacity: nat, file: seq<Page>, k: nat, page: Page)
    requires Coherent(cache, order, capacity, file) && |order| < capacity && k !in cache
    requires k < |file| && (k >= 2 ==> page == file[k])
    ensures Coherent(cache[k := page], order + [k], capacity, file)
  {
  }

  lemma CoherentDrop(cache: map<nat, Page>, order: seq<nat>, capacity: nat, file: seq<Page>, k: nat)
    requires Coherent(cache, order, capacity, file)
    ensures Coherent(cache - {k}, Dropped(order, k), capacity, file)
  {
    DroppedFacts(order, k);
  }

  lemma AccountedPop(next: nat, freelist: seq<u32>, live: set<nat>, chain: set<nat>)
    requires Accounted(next, freelist, live, chain) && freelist != []
    ensures var n := |freelist| - 1;
            var id := freelist[n];
            && Accounted(next, freelist[..n], live + {id}, chain) && 2 <= id && id !in live && id !in chain
  {
    var n := |freelist| - 1;
    assert freelist == freelist[..n] + [freelist[n]];
    assert freelist[n] in freelist;
  }

  lemma AccountedBump(next: nat, live: set<nat>, chain: set<nat>)
    requires Accounted(next, [], live, chain)
    ensures Accounted(next + 1, [], live + {next}, chain) && 2 <= next && next !in live && next !in chain
  {
  }

  lemma AccountedFree(next: nat, freelist: seq<u32>, live: set<nat>, chain: set<nat>, id: u32)
    requires Accounted(next, freelist, live, chain) && id in live
    ensures Accounted(next, freelist + [id], live - {id}, chain)
  {
  }

  ghost function Numbers(next: nat): set<nat>
  {
    if next <= 2 then {} else Numbers(next - 1) + {next - 1}
  }

  lemma {:induction false} NumbersCount(next: nat)
    requires next >= 2
    ensures |Numbers(next)| == next - 2 && forall x: nat :: x in Numbers(next) <==> 2 <= x < next
  {
    if next > 2 {
      NumbersCount(next - 1);
    }
  }

  /** Page numbers below the next one, counted by where they are. */
  lemma PagesConserved(next: nat, freelist: seq<u32>, live: set<nat>, chain: set<nat>)
    requires Accounted(next, freelist, live, chain)
    ensures next - 2 == |live| + |freelist| + |chain|
  {
    var free: seq<nat> := seq(|freelist|, i requires 0 <= i < |freelist| => freelist[i]);
    DistinctCount(free);
    NumbersCount(next);
    forall x: nat ensures x in freelist <==> x in SetOf(free) {
      if x in freelist {
        var i :| 0 <= i < |freelist| && freelist[i] == x;
        assert free[i] == x;
      }
    }
    assert Numbers(next) == SetOf(free) + (live + chain);
  }

  // ----- the freelist on disk -----

  function PageOrZero(file: seq<Page>, id: u32): Page
  {
    if id < |file| then file[id] else ZeroPage()
  }

  function Images(file: seq<Page>, ids: seq<u32>): seq<Page>
  {
    seq(|ids|, i requires 0 <= i < |ids| => PageOrZero(file, ids[i]))
  }

  /** The file opens on meta `m` in `slot`, whose freelist chain sits at `ids` and holds `freelist`. */
  ghost predicate Saved(file: seq<Page>, crc: Checksum, m: Meta, slot: nat, ids: seq<u32>, freelist: seq<u32>)
  {
    && |file| >= 2 && slot <= 1
    && PickActive(file[0], file[1], crc) == Some(Active(m, slot))
    && FreelistHead(file[slot]) == (if ids == [] then 0 else ids[0])
    && ChainAt(ids, Images(file, ids), Chunks(freelist))
  }

  function NewIds(next: nat, n: nat): (ids: seq<u32>)
    requires next + n < U32
    ensures |ids| == n
  {
    seq(n, i requires 0 <= i < n => next + i)
  }

  ghost function IdSet(ids: seq<u32>): set<nat>
  {
    set i | 0 <= i < |ids| :: ids[i]
  }

  lemma AccountedChain(next: nat, freelist: seq<u32>, live: set<nat>, chain: set<nat>, n: nat)
    requires Accounted(next, freelist, live, chain) && next + n < U32
    ensures Accounted(next + n, freelist, live, chain + IdSet(NewIds(next, n)))
    ensures IdSet(NewIds(next, n)) !! live + chain
  {
    var ids := NewIds(next, n);
    forall x: nat ensures x in IdSet(ids) <==> next <= x < next + n {
      if next <= x < next + n {
        assert ids[x - next] == x;
      }
    }
  }

  lemma CoherentMeta(cache: map<nat, Page>, order: seq<nat>, capacity: nat, file: seq<Page>, slot: nat, page: Page)
    requires Coherent(cache, order, capacity, file) && slot < 2 <= |file|
    ensures Coherent(cache, order, capacity, file[slot := page])
  {
  }

  lemma NextAtLeastTwo(next: nat, freelist: seq<u32>, live: set<nat>, chain: set<nat>)
    requires Accounted(next, freelist, live, chain)
    ensures next >= 2
  {
  }

  lemma SavedPicks(file: seq<Page>, crc: Checksum, m: Meta, slot: nat, ids: seq<u32>, freelist: seq<u32>)
    requires Saved(file, crc, m, slot, ids, freelist)
    ensures |file| >= 2 && PickActive(file[0], file[1], crc) == Some(Active(m, slot))
  {
  }

  lemma ImagesKept(file: seq<Page>, ids: seq<u32>, slot: nat, page: Page)
    requires slot < 2 <= |file| && forall i :: 0 <= i < |ids| ==> ids[i] >= 2
    ensures Images(file[slot := page], ids) == Images(file, ids)
  {
  }

  /** In every reachable state the slots are as the crash model needs them. */
  lemma SlotsConsistent(pager: Pager)
    requires pager.Valid()
    ensures Consistent(pager.Disk(), pager.crc)
  {
  }

  /** Writing the sealed meta to the other slot makes it the one the file opens on. */
  lemma MetaWritten(file: seq<Page>, crc: Checksum, a: Meta, slot: nat, m: Meta, ids: seq<u32>, freelist: seq<u32>)
    requires |file| >= 2 && PickActive(file[0], file[1], crc) == Some(Active(a, slot))
    requires m.magic == MAGIC && Sealed(m, crc).magic == MAGIC && Sealed(m, crc).txnId > a.txnId
    requires ChainAt(ids, Images(file, ids), Chunks(freelist)) && forall i :: 0 <= i < |ids| ==> ids[i] >= 2
    ensures slot <= 1
    ensures var page := ToPage(Sealed(m, crc), 1 - slot, if ids == [] then 0 else ids[0]);
            Saved(file[1 - slot := page], crc, Sealed(m, crc), 1 - slot, ids, freelist)
  {
    hide Valid, ToPage, Newest, ChainAt, Chunks, FreelistHead, Fields, Sealed, Images;
    var head: u32 := if ids == [] then 0 else ids[0];
    NewestWins(Valid(file[0], crc), Valid(file[1], crc), slot, a, Sealed(m, crc));
    SealedValid(m, 1 - slot, head, crc);
    MetaRoundTrip(Sealed(m, crc), 1 - slot, head);
    ImagesKept(file, ids, 1 - slot, ToPage(Sealed(m, crc), 1 - slot, head));
  }

  function ChainHead(ids: seq<u32>): u32
  {
    if ids == [] then 0 else ids[0]
  }

  /** In the crash model, committing `m` takes the slots from `before` to `after`. */
  ghost predicate Stepped(before: Slots, m: Meta, ids: seq<u32>, after: Slots, crc: Checksum)
  {
    && before.active.slot <= 1 && m.magic == MAGIC
    && Step(before, Event.Commit(m, ChainHead(ids)), crc) == Some(after)
  }

  lemma SlotWritten(file: seq<Page>, crc: Checksum, a: Meta, slot: nat, m: Meta, ids: seq<u32>)
    requires |file| >= 2 && slot <= 1 && m.magic == MAGIC
    ensures var f := file[1 - slot := ToPage(Sealed(m, crc), 1 - slot, ChainHead(ids))];
            Stepped(Slots(file[0], file[1], Active(a, slot)), m, ids,
                Slots(f[0], f[1], Active(Sealed(m, crc), 1 - slot)), crc)
  {
    hide ToPage, Fields;
  }

  /** The file after the first `n` pages of a chain were written. */
  function ChainWrites(file: seq<Page>, ids: seq<u32>, images: seq<Page>, n: nat): (f: seq<Page>)
    requires n <= |ids| == |images|
    ensures |f| >= |file|
  {
    if n == 0 then file else FileWrite(ChainWrites(file, ids, images, n - 1), ids[n - 1], images[n - 1])
  }

  /** The file when a commit stopped after `n` chain pages, and in what state it left the slot it writes last. */
  function CommitFile(file: seq<Page>, ids: seq<u32>, images: seq<Page>, n: nat, m: Meta, slot: nat,
                      fate: Fate): seq<Page>
    requires n <= |ids| == |images| && slot < 2 <= |file| && |m.magic| == 4
  {
    var f := ChainWrites(file, ids, images, n);
    match fate
    case Absent => f
    case Torn(p) => f[slot := p]
    case Complete => f[slot := ToPage(m, slot, ChainHead(ids))]
  }

  lemma CommitDone(file: seq<Page>, ids: seq<u32>, images: seq<Page>, m: Meta, slot: nat)
    requires |ids| == |images| && slot < 2 <= |file| && |m.magic| == 4
    ensures CommitFile(file, ids, images, |ids|, m, slot, Complete)
         == ChainWrites(file, ids, images, |ids|)[slot := ToPage(m, slot, ChainHead(ids))]
  {
  }

  /** Writing the chain touches neither slot. */
  lemma SlotsKept(f: seq<Page>, g: seq<Page>, ids: seq<u32>)
    requires |f| >= 2 && SameExcept(f, g, IdSet(ids)) && forall i :: 0 <= i < |ids| ==> ids[i] >= 2
    ensures |g| >= 2 && g[0] == f[0] && g[1] == f[1]
  {
  }

  lemma SameExceptTrans(f: seq<Page>, g: seq<Page>, h: seq<Page>, a: set<nat>, b: set<nat>)
    requires SameExcept(f, g, a) && SameExcept(g, h, b)
    ensures SameExcept(f, h, a + b)
  {
  }

  lemma OpenedAccounted(next: nat, freelist: seq<u32>)
    ensures next >= 2 && NoRepeats(freelist) && (forall x :: x in freelist ==> 2 <= x < next) ==>
              Accounted(next, freelist, Numbers(next) - IdSet(freelist), {})
  {
    if next >= 2 {
      NumbersCount(next);
      forall x: nat ensures x in freelist <==> x in IdSet(freelist) {
        if x in freelist {
          var i :| 0 <= i < |freelist| && freelist[i] == x;
          assert freelist[i] in IdSet(freelist);
        }
      }
    }
  }

  ghost predicate Written(file: seq<Page>, ids: seq<u32>, images: seq<Page>, n: nat)
  {
    n <= |ids| == |images| && forall j :: 0 <= j < n ==> ids[j] < |file| && file[ids[j]] == images[j]
  }

  lemma ChainStep(f0: seq<Page>, f: seq<Page>, ids: seq<u32>, images: seq<Page>, i: nat, next: nat)
    requires i < |ids| && next + |ids| < U32 && ids == NewIds(next, |ids|)
    requires Written(f, ids, images, i) && SameExcept(f0, f, IdSet(ids))
    ensures var f' := FileWrite(f, ids[i], images[i]);
            Written(f', ids, images, i + 1) && SameExcept(f0, f', IdSet(ids)) && ids[i] >= next
  {
    hide FileWrite;
    assert ids[i] in IdSet(ids);
  }

  class Pager {
    const crc: Checksum
    const capacity: nat
    var file: seq<Page>
    var meta: Meta
    var metaSlot: nat
    var freelist: seq<u32>
    var freelistHead: u32
    var cache: map<nat, Page>
    var lruOrder: seq<nat>
    /** Pages handed out and not freed, pages used by freelist chains, and the meta last committed. */
    ghost var live: set<nat>
    ghost var chain: set<nat>
    ghost var committed: Meta

    ghost predicate Valid()
      reads this
    {
      && |file| >= 2
      && Coherent(cache, lruOrder, capacity, file)
      && Accounted(meta.nextPageId, freelist, live, chain)
      && meta.magic == MAGIC && metaSlot <= 1
      && PickActive(file[0], file[1], crc) == Some(Active(committed, metaSlot))
      && meta.txnId == committed.txnId
    }

    /** The slots on disk as the crash model sees them; `Valid` keeps them consistent in its sense. */
    ghost function Disk(): Slots
      reads this
      requires |file| >= 2
    {
      Slots(file[0], file[1], Active(committed, metaSlot))
    }

    constructor Create(crc: Checksum, capacity: nat)
      requires capacity > 0
      ensures Valid() && fresh(this)
      ensures meta == Initial(crc) && committed == meta && freelist == [] && live == {} && chain == {}
          && this.crc == crc
      ensures meta.version == 1 && meta.rootPageId == 0 && meta.nextPageId == 2
      ensures meta.txnId == 0 && meta.walOffset == 0
      ensures Saved(file, crc, meta, metaSlot, [], [])
    {
      var m := Initial(crc);
      MetaRoundTrip(m, 0, 0);
      CreatedConsistent(crc);
      this.crc, this.capacity := crc, capacity;
      file := [ToPage(m, 0, 0), ToPage(m, 1, 0)];
      meta, metaSlot := m, 0;
      freelist, freelistHead := [], 0;
      cache, lruOrder := map[], [];
      live, chain, committed := {}, {}, m;
    }

    method TouchLru(key: nat)
      modifies this`lruOrder
      ensures lruOrder == Touched(old(lruOrder), key)
    {
      var pos := Position(lruOrder, key);
      if pos < |lruOrder| {
        lruOrder := lruOrder[..pos] + lruOrder[pos + 1..];
      }
      lruOrder := lruOrder + [key];
    }

    /** A page not cached so far comes in, the oldest going out if the cache is full. */
    method CacheInsert(key: nat, data: Page)
      requires Coherent(cache, lruOrder, capacity, file) && key !in cache
      requires key < |file| && (key >= 2 ==> data == file[key])
      modifies this`cache, this`lruOrder
      ensures Coherent(cache, lruOrder, capacity, file)
      ensures lruOrder == NextOrder(old(lruOrder), key, capacity)
    {
      CacheSize(cache, lruOrder, capacity, file);
      assert key !in lruOrder;
      if |cache| >= capacity {
        if lruOrder != [] {
          CoherentEvict(cache, lruOrder, capacity, file);
          var evict := lruOrder[0];
          cache := cache - {evict};
          lruOrder := lruOrder[1..];
        }
      }
      CoherentInsert(cache, lruOrder, capacity, file, key, data);
      cache := cache[key := data];
      lruOrder := lruOrder + [key];
    }

    /** Reads through the cache; off the meta slots the answer is what the file holds. */
    method ReadPage(id: nat) returns (r: Result<Page>)
      requires Valid()
      modifies this`cache, this`lruOrder
      ensures Valid()
      ensures r.Ok? <==> id < |file|
      ensures r.Ok? && id >= 2 ==> r.value == file[id]
      ensures lruOrder == if id < |file| then NextOrder(old(lruOrder), id, capacity) else old(lruOrder)
    {
      hide PickActive, Accounted, Coherent, NextOrder, Touched;
      if id in cache {
        var page := cache[id];
        CoherentHit(cache, lruOrder, capacity, file, id);
        CoherentTouch(cache, lruOrder, capacity, file, id);
        TouchLru(id);
        return Ok(page);
      }
      if id >= |file| {
        return Err(Io);
      }
      CacheInsert(id, file[id]);
      return Ok(file[id]);
    }

    /** Writes to the file and the cache. */
    method WritePage(id: nat, data: Page)
      requires Valid() && id >= 2
      modifies this`file, this`cache, this`lruOrder
      ensures Valid()
      ensures file == FileWrite(old(file), id, data)
      ensures lruOrder == NextOrder(old(lruOrder), id, capacity)
    {
      hide PickActive, Accounted, FileWrite, Coherent, NextOrder, Touched;
      CoherentWrite(cache, lruOrder, capacity, file, id, data);
      file := FileWrite(file, id, data);
      if id in cache {
        cache := cache[id := data];
        CoherentTouch(cache, lruOrder, capacity, file, id);
        TouchLru(id);
      } else {
        CacheInsert(id, data);
      }
    }

    /** Pops the freelist, or takes the next page number; the sum overflows only at the last one. */
    method AllocPage() returns (id: nat)
      requires Valid() && (freelist == [] ==> meta.nextPageId + 1 < U32)
      modifies this`freelist, this`meta, this`live
      ensures Valid()
      ensures id == NthFree(old(freelist), old(meta.nextPageId), 0) && 2 <= id < U32
      ensures id !in old(live) && id !in chain && live == old(live) + {id}
      ensures if old(freelist) == [] then id == old(meta.nextPageId) == meta.nextPageId - 1 && freelist == []
              else old(freelist) == freelist + [id] && meta == old(meta)
      ensures forall j: nat ::
                NthFree(freelist, meta.nextPageId, j) == NthFree(old(freelist), old(meta.nextPageId), j + 1)
      ensures old(meta.nextPageId) <= meta.nextPageId <= old(meta.nextPageId) + 1
      ensures meta == old(meta).(nextPageId := meta.nextPageId) && |freelist| <= |old(freelist)|
    {
      hide PickActive, Accounted, Coherent;
      if freelist != [] {
        AccountedPop(meta.nextPageId, freelist, live, chain);
        id := freelist[|freelist| - 1];
        freelist := freelist[..|freelist| - 1];
      } else {
        AccountedBump(meta.nextPageId, live, chain);
        id := meta.nextPageId;
        meta := meta.(nextPageId := meta.nextPageId + 1);
      }
      live := live + {id};
    }

    /** Gives a live page back and forgets its cached copy. */
    method FreePage(id: u32)
      requires Valid() && id in live
      modifies this`freelist, this`cache, this`lruOrder, this`live
      ensures Valid()
      ensures freelist == old(freelist) + [id] && live == old(live) - {id} && id !in cache
    {
      hide PickActive, Accounted, Coherent;
      AccountedFree(meta.nextPageId, freelist, live, chain, id);
      CoherentDrop(cache, lruOrder, capacity, file, id);
      freelist := freelist + [id];
      cache := cache - {id};
      lruOrder := Dropped(lruOrder, id);
      live := live - {id};
    }

    /** Saves the freelist in fresh pages, then writes the new meta to the slot not in use. */
    method CommitMeta(newMeta: Meta) returns (ghost ids: seq<u32>, ghost images: seq<Page>)
      requires Valid()
      requires newMeta.magic == MAGIC && newMeta.nextPageId == meta.nextPageId && newMeta.txnId > meta.txnId
      requires meta.nextPageId + ChainPagesNeeded(freelist) < U32
      modifies this
      ensures Valid()
      ensures live == old(live) && freelist == old(freelist)
      ensures ids == NewIds(old(meta.nextPageId), ChainPagesNeeded(freelist)) && chain == old(chain) + IdSet(ids)
      ensures committed == meta && meta == Sealed(newMeta.(nextPageId := old(meta.nextPageId) + |ids|), crc)
      ensures SameExcept(old(file), file, {0, 1} + IdSet(ids)) && IdSet(ids) !! live + old(chain)
      ensures metaSlot == 1 - old(metaSlot) && Saved(file, crc, meta, metaSlot, ids, freelist)
      ensures |file| >= 2 && Stepped(old(Disk()), newMeta.(nextPageId := old(meta.nextPageId) + |ids|), ids, Disk(),
          crc)
      ensures |images| == |ids| && ChainAt(ids, images, Chunks(freelist)) && meta.magic == MAGIC && metaSlot <= 1
      ensures file == CommitFile(old(file), ids, images, |ids|, meta, metaSlot, Complete)
    {
      hide PickActive, Accounted, Coherent, ChainAt, Chunks, Saved, Fields, ChainPagesNeeded, NextOrder, SameExcept,
          IdSet, Stepped;
      hide ToPage, CommitFile, ChainWrites;
      NextAtLeastTwo(meta.nextPageId, freelist, live, chain);
      var needed := ChainPagesNeeded(freelist);
      var chainIds := NewIds(meta.nextPageId, needed);
      AccountedChain(meta.nextPageId, freelist, live, chain, needed);
      var m := newMeta.(nextPageId := newMeta.nextPageId + needed);
      var pages := Persist(freelist, chainIds);
      WriteChain(chainIds, pages);
      ghost var f1 := file;
      SlotsKept(old(file), f1, chainIds);
      InstallMeta(m, chainIds);
      SameExceptTrans(old(file), f1, file, IdSet(chainIds), {0, 1});
      assert IdSet(chainIds) + {0, 1} == {0, 1} + IdSet(chainIds);
      ids, images := chainIds, pages;
      CommitDone(old(file), ids, images, meta, metaSlot);
    }

    /** Writes the meta to the slot not in use, and takes it as the active one. */
    method InstallMeta(newMeta: Meta, chainIds: seq<u32>)
      requires Valid() && newMeta.magic == MAGIC && newMeta.txnId > meta.txnId
      requires Accounted(newMeta.nextPageId, freelist, live, chain + IdSet(chainIds))
      requires ChainAt(chainIds, Images(file, chainIds), Chunks(freelist)) && forall i :: 0 <= i < |chainIds| ==>
          chainIds[i] >= 2
      modifies this`file, this`meta, this`metaSlot, this`freelistHead, this`chain, this`committed
      ensures Valid() && committed == meta == Sealed(newMeta, crc) && chain == old(chain) + IdSet(chainIds)
      ensures SameExcept(old(file), file, {0, 1}) && Saved(file, crc, meta, metaSlot, chainIds, freelist)
      ensures |file| >= 2 && Stepped(old(Disk()), newMeta, chainIds, Disk(), crc)
      ensures metaSlot == 1 - old(metaSlot) && file
          == old(file)[metaSlot := ToPage(meta, metaSlot, ChainHead(chainIds))]
    {
      hide PickActive, Accounted, Coherent, ChainAt, Chunks, ToPage, Saved, Fields, IdSet, Stepped;
      var head := ChainHead(chainIds);
      SlotWritten(file, crc, committed, metaSlot, newMeta, chainIds);
      var nextSlot := 1 - metaSlot;
      MetaWritten(file, crc, committed, metaSlot, newMeta, chainIds, freelist);
      var m := Sealed(newMeta, crc);
      CoherentMeta(cache, lruOrder, capacity, file, nextSlot, ToPage(m, nextSlot, head));
      file := file[nextSlot := ToPage(m, nextSlot, head)];
      SavedPicks(file, crc, m, nextSlot, chainIds, freelist);
      chain := chain + IdSet(chainIds);
      meta, metaSlot, freelistHead, committed := m, nextSlot, head, m;
    }

    method WriteChain(ids: seq<u32>, images: seq<Page>)
      requires Valid() && |ids| == |images| && meta.nextPageId + |ids| < U32 && ids == NewIds(meta.nextPageId, |ids|)
      modifies this`file, this`cache, this`lruOrder
      ensures Valid() && Images(file, ids) == images
      ensures SameExcept(old(file), file, IdSet(ids)) && file == ChainWrites(old(file), ids, images, |ids|)
    {
      hide PickActive, Accounted, Coherent, FileWrite, NextOrder;
      NextAtLeastTwo(meta.nextPageId, freelist, live, chain);
      ghost var next := meta.nextPageId;
      for i := 0 to |ids|
        invariant Valid() && meta.nextPageId == next
        invariant Written(file, ids, images, i) && SameExcept(old(file), file, IdSet(ids))
        invariant file == ChainWrites(old(file), ids, images, i)
      {
        hide Written, SameExcept, IdSet;
        ChainStep(old(file), file, ids, images, i, next);
        WritePage(ids[i], images[i]);
      }
    }

    /** Opens the file: picks the active meta and restores its freelist. */
    static method Open(file: seq<Page>, crc: Checksum, capacity: nat, ghost ids: seq<u32>, ghost freelist: seq<u32>)
      returns (r: Result<Pager>)
      requires capacity > 0
      requires |file| >= 2 ==>
                 match PickActive(file[0], file[1], crc)
                 case Some(a) => Saved(file, crc, a.meta, a.slot, ids, freelist)
                 case None => true
      ensures if |file| < 2 then r == Err(Io)
              else if !SlotSound(file[0], crc) && !SlotSound(file[1], crc) then r == Err(CorruptMeta) else r.Ok?
      ensures r.Ok? ==> r.value.metaSlot <= 1 && TakenFrom(file[r.value.metaSlot], file[1 - r.value.metaSlot],
          r.value.meta, crc)
      ensures r.Ok? ==>
                && fresh(r.value) && r.value.file == file && r.value.crc == crc && r.value.committed == r.value.meta
                && PickActive(file[0], file[1], crc) == Some(Active(r.value.meta, r.value.metaSlot))
                && r.value.freelist == AllDamaged(freelist) && r.value.chain == {}
                && (r.value.meta.nextPageId >= 2 && NoRepeats(r.value.freelist)
                    && (forall x :: x in r.value.freelist ==> 2 <= x < r.value.meta.nextPageId) ==>
                      r.value.Valid() && r.value.live == Numbers(r.value.meta.nextPageId) - IdSet(r.value.freelist))
    {
      hide ChainAt, Chunks, AllDamaged, PickActive, SlotSound, TakenFrom;
      if |file| < 2 {
        return Err(Io);
      }
      var picked := PickActive(file[0], file[1], crc);
      PickedTaken(file[0], file[1], crc);
      if picked.None? {
        return Err(CorruptMeta);
      }
      var a := picked.value;
      var head := FreelistHead(if a.slot == 0 then file[0] else file[1]);
      var read := (id: u32) => PageOrZero(file, id);
      assert Images(file, ids) == seq(|ids|, i requires 0 <= i < |ids| => read(ids[i]));
      var restored := Restore(head, read, ids, Chunks(freelist));
      RereadAll(freelist);
      var p := new Pager.Opened(file, crc, capacity, a.meta, a.slot, restored, head);
      return Ok(p);
    }

    constructor Opened(file: seq<Page>, crc: Checksum, capacity: nat, m: Meta, slot: nat, freelist: seq<u32>, head: u32)
      requires |file| >= 2 && capacity > 0 && PickActive(file[0], file[1], crc) == Some(Active(m, slot))
      ensures this.file == file && this.crc == crc && this.capacity == capacity && meta == m && metaSlot == slot
      ensures this.freelist == freelist && chain == {} && committed == m
      ensures m.nextPageId >= 2 && NoRepeats(freelist) && (forall x :: x in freelist ==> 2 <= x < m.nextPageId) ==>
                Valid() && live == Numbers(m.nextPageId) - IdSet(freelist)
    {
      this.file, this.crc, this.capacity := file, crc, capacity;
      meta, metaSlot := m, slot;
      this.freelist, freelistHead := freelist, head;
      cache, lruOrder := map[], [];
      live, chain, committed := Numbers(m.nextPageId) - IdSet(freelist), {}, m;
      new;
      OpenedAccounted(m.nextPageId, freelist);
    }
  }
}
