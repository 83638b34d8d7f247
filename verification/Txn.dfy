/** Read and write transactions over many trees. */
module Txns {
  import opened Bytes
  import opened Entries
  import opened FreeLists
  import opened Layout
  import opened MetaPages
  import opened Pages
  import opened Pagers
  import opened Results
  import opened TreeModel
  import opened TreeLaws
  import opened TreeStore
  import opened Ascents
  import opened BTrees
  import opened Stores
  import opened Catalogs
  import opened Wals
  import opened Seqs

  /** What the trees mean: one map per tree id. */
  function ViewOf(trees: map<u32, Tree>): map<u32, map<Key, Value>>
  {
    map id | id in trees :: MapOf(Flatten(trees[id]))
  }

  /** The trees reached from a catalog root; root 0 means there is no catalog yet. */
  ghost predicate StateOk(file: seq<Page>, live: set<nat>, root: nat, catalog: Option<Tree>, trees: map<u32, Tree>)
  {
    match catalog
    case None => root == 0 && trees == map[]
    case Some(cat) => root == cat.id && StoreOk(file, live, cat, trees)
  }

  function CatalogHeight(catalog: Option<Tree>): nat
  {
    if catalog.None? then 0 else Height(catalog.value)
  }

  ghost predicate Low(catalog: Option<Tree>, trees: map<u32, Tree>, h: nat)
  {
    CatalogHeight(catalog) <= h && forall id :: id in trees ==> Height(trees[id]) <= h
  }

  /** Page numbers, which the code takes to be below 2^32, are left for `n` more insertions, whatever they split. */
  ghost predicate Room(next: nat, catalog: Option<Tree>, trees: map<u32, Tree>, n: nat)
  {
    exists h: nat :: Low(catalog, trees, h) && next + n * (2 * (h + n) + 6) < U32
  }

  /** The step took the room of one insertion at most. */
  ghost predicate RoomStep(next: nat, catalog: Option<Tree>, trees: map<u32, Tree>, next': nat, catalog': Option<Tree>,
                           trees': map<u32, Tree>)
  {
    forall n: nat {:trigger Room(next', catalog', trees', n)} ::
      Room(next, catalog, trees, n + 1) ==> Room(next', catalog', trees', n)
  }

  lemma ProductGrows(a: nat, c: nat, b: nat, d: nat)
    requires a <= c && b <= d
    ensures a * b <= c * d
  {
    assert (c - a) * b >= 0;
    assert c * (d - b) >= 0;
  }

  lemma RoomForFewer(next: nat, catalog: Option<Tree>, trees: map<u32, Tree>, n: nat, m: nat)
    requires Room(next, catalog, trees, n) && m <= n
    ensures Room(next, catalog, trees, m)
  {
    hide Low;
    var h: nat :| Low(catalog, trees, h) && next + n * (2 * (h + n) + 6) < U32;
    ProductGrows(m, n, 2 * (h + m) + 6, 2 * (h + n) + 6);
  }

  lemma RoomForOne(next: nat, catalog: Option<Tree>, trees: map<u32, Tree>)
    requires Room(next, catalog, trees, 1)
    ensures next + CatalogHeight(catalog) + 6 < U32
    ensures forall id :: id in trees ==> next + Height(trees[id]) + CatalogHeight(catalog) + 6 < U32
  {
  }

  lemma RoomAfter(next: nat, catalog: Option<Tree>, trees: map<u32, Tree>, next': nat, catalog': Option<Tree>,
                  trees': map<u32, Tree>, id: u32)
    requires id in trees' && trees' == trees[id := trees'[id]] && CatalogHeight(catalog') <= CatalogHeight(catalog) + 1
    requires Height(trees'[id]) <= (if id in trees then Height(trees[id]) else 0) + 1
    requires next' <= next + CatalogHeight(catalog) + (if id in trees then Height(trees[id]) else 0) + 6
    ensures RoomStep(next, catalog, trees, next', catalog', trees')
  {
    hide Height;
    forall n: nat | Room(next, catalog, trees, n + 1) ensures Room(next', catalog', trees', n) {
      var h: nat :| Low(catalog, trees, h) && next + (n + 1) * (2 * (h + (n + 1)) + 6) < U32;
      assert Low(catalog', trees', h + 1);
      RoomArithmetic(h, n);
    }
  }

  lemma RoomSame(next: nat, catalog: Option<Tree>, trees: map<u32, Tree>)
    ensures RoomStep(next, catalog, trees, next, catalog, trees)
  {
    forall n: nat | Room(next, catalog, trees, n + 1) ensures Room(next, catalog, trees, n) {
      var h: nat :| Low(catalog, trees, h) && next + (n + 1) * (2 * (h + (n + 1)) + 6) < U32;
      RoomArithmetic(h, n);
      assert n * (2 * (h + n) + 6) <= n * (2 * (h + 1 + n) + 6);
    }
  }

  lemma RoomArithmetic(h: nat, n: nat)
    ensures (n + 1) * (2 * (h + (n + 1)) + 6) >= n * (2 * (h + 1 + n) + 6) + 2 * h + 6
  {
  }

  lemma PagesSmall(pager: Pager, t: Tree)
    requires pager.Valid() && TreeOk(pager, t)
    ensures 2 <= t.id < U32
  {
    LiveSmall(pager, t);
    OwnId(t);
  }

  lemma StateTree(pager: Pager, root: nat, catalog: Option<Tree>, trees: map<u32, Tree>, id: u32)
    requires pager.Valid() && StateOk(pager.file, pager.live, root, catalog, trees)
    ensures (catalog.Some? <==> root != 0) && root < U32
    ensures catalog.Some? ==> StoreOk(pager.file, pager.live, catalog.value, trees)
    ensures catalog.Some? ==>
        TreeOk(pager, catalog.value) && CatalogOk(catalog.value, trees) && root == catalog.value.id
    ensures id in trees ==> catalog.Some? && TreeOk(pager, trees[id]) && 2 <= trees[id].id < U32
  {
    if catalog.Some? {
      StoreTrees(pager.file, pager.live, catalog.value, trees);
      PagesSmall(pager, catalog.value);
      if id in trees {
        PagesSmall(pager, trees[id]);
      }
    }
  }

  /** The roots a transaction remembers are the catalog's. */
  ghost predicate CacheAgrees(treeRoots: map<u32, nat>, trees: map<u32, Tree>)
  {
    forall id :: id in treeRoots ==> id in trees && treeRoots[id] == trees[id].id
  }

  ghost predicate InsertFitsIn(t: Tree, k: Key, v: Value)
  {
    Balanced(t) && PagesFit(t) && InsertFits(t, k, v)
  }

  // ----- read transactions -----

  /** Looks up a tree's root in the catalog, if there is one. */
  method FindRoot(pager: Pager, catalogRoot: nat, treeId: u32, ghost catalog: Option<Tree>, ghost trees: map<u32, Tree>)
    returns (r: Result<nat>)
    requires pager.Valid() && StateOk(pager.file, pager.live, catalogRoot, catalog, trees)
    modifies pager`cache, pager`lruOrder
    ensures pager.Valid() && r == if treeId in trees then Ok(trees[treeId].id) else Err(TreeNotFound(treeId))
  {
    StateTree(pager, catalogRoot, catalog, trees, treeId);
    hide Pager.Valid, StateOk, TreeOk, CatalogOk;
    if catalogRoot == 0 {
      return Err(TreeNotFound(treeId));
    }
    var found := CatalogGet(pager, catalogRoot, treeId, catalog.value, trees);
    match found.value {
      case Some(root) => return Ok(root);
      case None => return Err(TreeNotFound(treeId));
    }
  }

  lemma LookupView(trees: map<u32, Tree>, id: u32, k: Key)
    requires id in trees && WellFormed(trees[id])
    ensures Lookup(Flatten(trees[id]), k) == if k in ViewOf(trees)[id] then Some(ViewOf(trees)[id][k]) else None
  {
    OrderedEntries(trees[id], None, None);
    LookupMap(Flatten(trees[id]), k);
  }

  /** The answer to a point lookup, from the maps alone. */
  function Answer(view: map<u32, map<Key, Value>>, treeId: u32, key: Key): Result<Option<Value>>
  {
    if treeId !in view then Err(TreeNotFound(treeId))
    else if |key| > MAX_KEY_SIZE then Err(KeyTooLarge(|key|))
    else Ok(if key in view[treeId] then Some(view[treeId][key]) else None)
  }

  /** The answer to a scan: the map's entries in range, in key order, each once. */
  ghost predicate Listing(es: seq<Entry>, m: map<Key, Value>, start: Key, end: Key)
  {
    && Sorted(es)
    && (forall i :: 0 <= i < |es| ==>
        es[i].key in m && m[es[i].key] == es[i].value && AtMost(start, es[i].key) && AtMost(es[i].key, end))
    && (forall k :: k in m && AtMost(start, k) && AtMost(k, end) ==> exists i :: 0 <= i < |es| && es[i].key == k)
  }

  lemma WithinLists(es: seq<Entry>, start: Key, end: Key)
    requires Sorted(es)
    ensures Listing(Within(es, start, end), MapOf(es), start, end)
  {
    hide Less, Within;
    WithinExact(es, start, end);
    var r := Within(es, start, end);
    forall i | 0 <= i < |r| ensures r[i].key in MapOf(es) && MapOf(es)[r[i].key] == r[i].value {
      assert r[i] in r;
      MapOfMember(es, r[i].key);
      var j :| 0 <= j < |es| && es[j] == r[i];
    }
    forall k | k in MapOf(es) && AtMost(start, k) && AtMost(k, end) ensures exists i :: 0 <= i < |r| && r[i].key == k {
      MapOfMember(es, k);
      var j :| 0 <= j < |es| && es[j].key == k;
      assert es[j] in r;
      var i :| 0 <= i < |r| && r[i] == es[j];
    }
  }

  /** Opens the tree and looks the key up. */
  method OpenAndGet(pager: Pager, root: nat, treeId: u32, key: Key, ghost trees: map<u32, Tree>)
    returns (r: Result<Option<Value>>)
    requires pager.Valid() && treeId in trees && TreeOk(pager, trees[treeId]) && root == trees[treeId].id
    modifies pager`cache, pager`lruOrder
    ensures pager.Valid() && r == Answer(ViewOf(trees), treeId, key)
  {
    hide Pager.Valid, WellFormed, Stored, Lookup, MapOf, Flatten;
    LookupView(trees, treeId, key);
    var tree := new BTree.Open(pager, root, trees[treeId]);
    r := tree.Get(key);
  }

  /** Opens the tree and scans it. */
  method OpenAndRange(pager: Pager, root: nat, treeId: u32, start: Key, end: Key, ghost trees: map<u32, Tree>)
    returns (r: Result<seq<Entry>>)
    requires pager.Valid() && treeId in trees && TreeOk(pager, trees[treeId]) && root == trees[treeId].id
    modifies pager`cache, pager`lruOrder
    ensures pager.Valid() && r.Ok? && Listing(r.value, ViewOf(trees)[treeId], start, end)
  {
    OrderedEntries(trees[treeId], None, None);
    WithinLists(Flatten(trees[treeId]), start, end);
    hide Pager.Valid, WellFormed, Stored, Within, MapOf, Flatten, Listing;
    var tree := new BTree.Open(pager, root, trees[treeId]);
    r := tree.Range(start, end);
  }

  // ----- the database -----

  /** No page writes in the log: transactions here only log their commits. */
  ghost predicate OnlyCommits(log: seq<Record>)
  {
    forall i :: 0 <= i < |log| ==> log[i].CommitRecord?
  }

  /** The offset lies between two records. */
  ghost predicate AtRecord(log: seq<Record>, offset: nat, crc: Checksum)
  {
    exists n :: 0 <= n <= |log| && offset == |Log(log[..n], crc)|
  }

  lemma AtEnd(log: seq<Record>, crc: Checksum)
    ensures AtRecord(log, |Log(log, crc)|, crc)
  {
    assert log[..|log|] == log;
  }

  class Database {
    const pager: Pager
    const wal: WalWriter
    var currentRoot: nat
    var currentTxnId: u64
    /** The committed catalog and trees. */
    ghost var catalog: Option<Tree>
    ghost var trees: map<u32, Tree>

    /** At rest, with no write transaction under way. */
    ghost predicate Valid()
      reads this, pager, wal
    {
      && Running() && StateOk(pager.file, pager.live, currentRoot, catalog, trees)
      && pager.meta == pager.committed && currentRoot == pager.meta.rootPageId
      && AtRecord(wal.log, pager.meta.walOffset, wal.crc)
      && Saved(pager.file, pager.crc, pager.meta, pager.metaSlot, [], [])
    }

    /** What holds during a write transaction too. */
    ghost predicate Running()
      reads this, pager, wal
    {
      && pager.Valid() && wal.Valid() && OnlyCommits(wal.log) && wal.crc == pager.crc
      && pager.freelist == [] && currentTxnId == pager.meta.txnId
    }

    ghost function View(): map<u32, map<Key, Value>>
      reads this
    {
      ViewOf(trees)
    }

    constructor Create(crc: Checksum, capacity: nat)
      requires capacity > 0
      ensures Valid() && View() == map[] && trees == map[] && catalog == None && fresh(pager) && fresh(wal)
      ensures pager.meta.nextPageId == 2 && currentTxnId == 0 && wal.offset == 0
    {
      var p := new Pager.Create(crc, capacity);
      var w := new WalWriter.Create(crc);
      pager, wal := p, w;
      currentRoot, currentTxnId := p.meta.rootPageId, p.meta.txnId;
      catalog, trees := None, map[];
      AtEnd([], crc);
    }

    /** Opens the files: the active meta, its free list, and the page writes the log holds a commit for, whatever bytes
        the log has. When the log is whole and holds commits only, as it does after transactions of this database, the
        state is the one under the active meta's catalog root: a commit that was logged but whose meta was not written
        does not count. */
    static method Open(file: seq<Page>, walFile: seq<byte>, crc: Checksum, capacity: nat, ghost m: Meta,
                       ghost slot: nat, ghost ids: seq<u32>, ghost freelist: seq<u32>, ghost log: seq<Record>,
                       ghost n: nat,
                       ghost live: set<nat>, ghost catalog: Option<Tree>, ghost trees: map<u32, Tree>)
      returns (r: Result<Database>)
      requires capacity > 0 && |walFile| < U64
      requires Opens(file, crc) ==>
                 Saved(file, crc, m, slot, ids, freelist) && UsableList(AllDamaged(freelist), m.nextPageId)
                 && Replayable(Recovered(walFile, m.walOffset, crc), m, freelist)
      ensures r.Ok? <==> Opens(file, crc) && Recovered(walFile, m.walOffset, crc).Ok?
      ensures Opens(file, crc) && r.Err? ==> r == Err(CorruptRecord)
      ensures r.Ok? ==> fresh(r.value) && fresh(r.value.pager) && fresh(r.value.wal)
      ensures r.Ok? ==>
              var db, actions := r.value, Recovered(walFile, m.walOffset, crc).value;
              && db.pager.Valid() && (db.wal.Valid() <==> walFile == Log(log, crc)) && db.wal.log == log
              && db.wal.crc == db.pager.crc && db.wal.file == walFile && db.wal.offset == |walFile|
              && db.currentRoot == db.pager.meta.rootPageId == m.rootPageId && db.currentTxnId == db.pager.meta.txnId
              && db.pager.freelist == AllDamaged(freelist)
              && db.pager.live == Numbers(m.nextPageId) - IdSet(AllDamaged(freelist))
              && (actions == [] ==> db.pager.file == file && db.pager.meta == m)
              && (actions != [] ==> db.pager.meta.txnId == m.txnId + 1 && db.pager.meta.walOffset == |walFile|)
      ensures r.Ok? ==>
              var actions := Recovered(walFile, m.walOffset, crc).value;
              actions != [] ==>
                SameExcept(Replayed(file, actions), r.value.pager.file,
                           {0, 1} + IdSet(NewIds(m.nextPageId, ChainPagesNeeded(AllDamaged(freelist)))))
      ensures && StateOk(file, live, m.rootPageId, catalog, trees) && live <= Numbers(m.nextPageId)
              && Opens(file, crc) && n <= |log| && m.walOffset == |Log(log[..n], crc)|
              && OnlyCommits(log) && walFile == Log(log, crc) && ids == [] && freelist == [] ==>
                && r.Ok? && r.value.Valid() && r.value.View() == ViewOf(trees)
                && r.value.trees == trees && r.value.catalog == catalog
    {
      hide Pager.Valid, WalWriter.Valid, StateOk, Log, Committed, PickActive, ChainAt, AllDamaged, Replayed, Recovered,
           Saved, Stepped, Pending, Accounted, UsableList, Numbers, NewIds, SlotSound, TakenFrom;
      OpensOn(file, crc, m, slot, ids, freelist);
      var pager :- Pager.Open(file, crc, capacity, ids, freelist);
      ErrorsCorrupt(walFile, m.walOffset, crc);
      CleanLog(log, n, walFile, crc);
      var actions :- Recover(walFile, pager.meta.walOffset, crc);
      Replay(pager, actions);
      ReplayedNothing(file);
      if actions != [] {
        MetaMagic(pager);
        ghost var chain, images := pager.CommitMeta(pager.meta.(walOffset := |walFile|, txnId := pager.meta.txnId + 1));
      }
      var w := new WalWriter.Open(walFile, crc, log);
      var db := new Database.Opened(pager, w, catalog, trees);
      MoreLive(file, pager.live, live, m.rootPageId, catalog, trees);
      NothingFree();
      return Ok(db);
    }

    constructor Opened(pager: Pager, wal: WalWriter, ghost catalog: Option<Tree>, ghost trees: map<u32, Tree>)
      ensures this.pager == pager && this.wal == wal && currentRoot == pager.meta.rootPageId
          && currentTxnId == pager.meta.txnId
      ensures this.catalog == catalog && this.trees == trees
    {
      this.pager, this.wal := pager, wal;
      currentRoot, currentTxnId := pager.meta.rootPageId, pager.meta.txnId;
      this.catalog, this.trees := catalog, trees;
    }
  }

  /** A free list of distinct page numbers that have been handed out. */
  ghost predicate UsableList(freelist: seq<u32>, next: nat)
  {
    next >= 2 && NoRepeats(freelist) && forall x :: x in freelist ==> 2 <= x < next
  }

  /** One of the two slots is sound. */
  predicate Opens(file: seq<Page>, crc: Checksum)
  {
    |file| >= 2 && (SlotSound(file[0], crc) || SlotSound(file[1], crc))
  }

  /** The page writes to replay are not to the slots, and the numbers the meta saved after them takes stay in range. */
  ghost predicate Replayable(recovered: Result<seq<Action>>, m: Meta, freelist: seq<u32>)
  {
    recovered.Ok? ==>
      && (forall a :: a in recovered.value ==> a.pageId >= 2)
      && (recovered.value != [] ==>
          m.txnId + 1 < U64 && m.nextPageId + ChainPagesNeeded(AllDamaged(freelist)) < U32)
  }

  lemma OpensOn(file: seq<Page>, crc: Checksum, m: Meta, slot: nat, ids: seq<u32>, freelist: seq<u32>)
    requires Opens(file, crc) ==>
               Saved(file, crc, m, slot, ids, freelist) && UsableList(AllDamaged(freelist), m.nextPageId)
    ensures |file| >= 2 ==> (PickActive(file[0], file[1], crc).Some? <==> Opens(file, crc))
    ensures Opens(file, crc) ==>
              && PickActive(file[0], file[1], crc) == Some(Active(m, slot))
              && m.nextPageId >= 2 && NoRepeats(AllDamaged(freelist))
              && forall x :: x in AllDamaged(freelist) ==> 2 <= x < m.nextPageId
  {
    hide PickActive, SlotSound, TakenFrom, AllDamaged;
    if |file| >= 2 {
      PickedTaken(file[0], file[1], crc);
    }
  }

  lemma SavedOpens(file: seq<Page>, crc: Checksum, m: Meta, slot: nat, ids: seq<u32>, freelist: seq<u32>)
    requires Saved(file, crc, m, slot, ids, freelist)
    ensures Opens(file, crc)
  {
    hide PickActive, SlotSound, TakenFrom;
    PickedTaken(file[0], file[1], crc);
  }

  lemma ErrorsCorrupt(walFile: seq<byte>, offset: nat, crc: Checksum)
    ensures Recovered(walFile, offset, crc).Err? ==> Recovered(walFile, offset, crc).error == CorruptRecord
  {
    hide ReadStep;
    OnlyCorrupt(if offset <= |walFile| then walFile[offset..] else [], crc);
  }

  lemma {:induction false} OnlyCorrupt(s: seq<byte>, crc: Checksum)
    ensures ReadAll(s, crc).Err? ==> ReadAll(s, crc).error == CorruptRecord
    decreases |s|
  {
    hide ReadStep;
    var step := ReadStep(s, crc);
    if step.Got? {
      StepShrinks(s, crc);
      OnlyCorrupt(s[step.used..], crc);
    } else if step.Corrupt? {
      CorruptExact(s, step.error, crc);
    }
  }

  /** A whole log of commits alone has nothing to replay, from any of its records on. */
  lemma CleanLog(log: seq<Record>, n: nat, walFile: seq<byte>, crc: Checksum)
    ensures OnlyCommits(log) && walFile == Log(log, crc) && n <= |log| ==>
              && Recovered(walFile, |Log(log[..n], crc)|, crc) == Ok([])
              && AtRecord(log, |Log(log[..n], crc)|, crc) && |Log(log[..n], crc)| <= |walFile|
  {
    hide Committed, Pending, Recovered, Log, AtRecord;
    if OnlyCommits(log) && walFile == Log(log, crc) && n <= |log| {
      RecoveredTail(log, n, |walFile|, crc);
      assert Log(log, crc)[..|walFile|] == walFile;
      NothingPending(log, n, |walFile|, crc);
      RecordStart(log, n, crc);
    }
  }

  lemma RecordStart(log: seq<Record>, n: nat, crc: Checksum)
    requires n <= |log|
    ensures AtRecord(log, |Log(log[..n], crc)|, crc)
  {
    hide Log;
  }

  lemma NothingFree()
    ensures AllDamaged([]) == [] && forall next :: Numbers(next) - IdSet([]) == Numbers(next)
  {
  }

  lemma MetaMagic(pager: Pager)
    requires pager.Valid()
    ensures pager.meta.magic == MAGIC
  {
  }

  lemma ReplayedNothing(file: seq<Page>)
    ensures Replayed(file, []) == file
  {
  }

  lemma NothingPending(log: seq<Record>, n: nat, cut: nat, crc: Checksum)
    requires n <= |log| && OnlyCommits(log)
    ensures Committed(Pending(log, n, cut, crc)) == [] && |Log(log[..n], crc)| <= |Log(log, crc)|
  {
    hide PageWrites, WholeRecords, Log;
    var rs := Pending(log, n, cut, crc);
    CommitsWriteNothing(rs[..CommittedLength(rs)]);
    assert log == log[..n] + log[n..];
    LogConcat(log[..n], log[n..], crc);
  }

  lemma MoreLive(file: seq<Page>, live': set<nat>, live: set<nat>, root: nat, catalog: Option<Tree>,
                 trees: map<u32, Tree>)
    ensures StateOk(file, live, root, catalog, trees) && live <= live' ==> StateOk(file, live', root, catalog, trees)
  {
    hide StateOk;
    if StateOk(file, live, root, catalog, trees) && live <= live' {
      StateMoreLive(file, live, live', root, catalog, trees);
    }
  }

  lemma {:induction false} CommitsWriteNothing(log: seq<Record>)
    requires OnlyCommits(log)
    ensures PageWrites(log) == []
  {
    if log != [] {
      CommitsWriteNothing(log[1..]);
    }
  }

  lemma StateMoreLive(file: seq<Page>, live: set<nat>, live': set<nat>, root: nat, catalog: Option<Tree>,
                      trees: map<u32, Tree>)
    requires StateOk(file, live, root, catalog, trees) && live <= live'
    ensures StateOk(file, live', root, catalog, trees)
  {
    hide WellFormed, Stored, CatalogOk, Ids;
  }

  /** The file after these page writes. */
  function Replayed(file: seq<Page>, actions: seq<Action>): seq<Page>
  {
    if actions == [] then file
    else
      var last := actions[|actions| - 1];
      FileWrite(Replayed(file, actions[..|actions| - 1]), last.pageId, last.data)
  }

  /** Every page holds what was last written to it, and pages not written keep what they had. */
  lemma {:induction false} ReplayedLast(file: seq<Page>, actions: seq<Action>, i: nat, p: nat)
    requires i < |actions| && forall j :: i < j < |actions| ==> actions[j].pageId != actions[i].pageId
    ensures actions[i].pageId < |Replayed(file, actions)|
         && Replayed(file, actions)[actions[i].pageId] == actions[i].data
    ensures p < |file| && (forall j :: 0 <= j < |actions| ==> actions[j].pageId != p) ==>
              p < |Replayed(file, actions)| && Replayed(file, actions)[p] == file[p]
    decreases |actions|
  {
    hide FileWrite;
    var front := actions[..|actions| - 1];
    if i < |front| {
      ReplayedLast(file, front, i, p);
    }
    ReplayedKeeps(file, front, p);
  }

  lemma {:induction false} ReplayedKeeps(file: seq<Page>, actions: seq<Action>, p: nat)
    ensures |Replayed(file, actions)| >= |file|
    ensures p < |file| && (forall j :: 0 <= j < |actions| ==> actions[j].pageId != p) ==>
              Replayed(file, actions)[p] == file[p]
    decreases |actions|
  {
    hide FileWrite;
    if actions != [] {
      ReplayedKeeps(file, actions[..|actions| - 1], p);
    }
  }

  method Replay(pager: Pager, actions: seq<Action>)
    requires pager.Valid() && forall a :: a in actions ==> a.pageId >= 2
    modifies pager`file, pager`cache, pager`lruOrder
    ensures pager.Valid() && pager.file == Replayed(old(pager.file), actions)
  {
    hide Pager.Valid, FileWrite;
    for i := 0 to |actions|
      invariant pager.Valid() && pager.file == Replayed(old(pager.file), actions[..i])
    {
      assert actions[..i + 1][..i] == actions[..i];
      pager.WritePage(actions[i].pageId, actions[i].data);
    }
    assert actions[..|actions|] == actions;
  }

  // ----- reading -----

  class ReadTxn {
    const db: Database
    const root: nat

    ghost predicate Valid()
      reads this, db, db.pager, db.wal
    {
      db.Valid() && root == db.currentRoot
    }

    constructor (db: Database)
      requires db.Valid()
      ensures Valid() && this.db == db
    {
      hide Pager.Valid, StateOk, WalWriter.Valid, Saved;
      this.db, root := db, db.currentRoot;
    }

    /** Point lookup in the committed state. */
    method Get(treeId: u32, key: Key) returns (r: Result<Option<Value>>)
      requires Valid()
      modifies db.pager`cache, db.pager`lruOrder
      ensures Valid()
      ensures r == if treeId !in db.View() then Err(TreeNotFound(treeId))
                   else if |key| > MAX_KEY_SIZE then Err(KeyTooLarge(|key|))
                   else Ok(if key in db.View()[treeId] then Some(db.View()[treeId][key]) else None)
    {
      hide Pager.Valid, StateOk, TreeOk, Saved, WalWriter.Valid, MapOf, Flatten, StoreOk, CatalogOk, OnlyCommits;
      StateTree(db.pager, root, db.catalog, db.trees, treeId);
      var found := FindRoot(db.pager, root, treeId, db.catalog, db.trees);
      if found.Err? {
        return Err(found.error);
      }
      r := OpenAndGet(db.pager, found.value, treeId, key, db.trees);
    }

    /** Inclusive scan of the committed state. */
    method Range(treeId: u32, start: Key, end: Key) returns (r: Result<seq<Entry>>)
      requires Valid()
      modifies db.pager`cache, db.pager`lruOrder
      ensures Valid()
      ensures if treeId in db.View() then r.Ok? && Listing(r.value, db.View()[treeId], start, end)
              else r == Err(TreeNotFound(treeId))
    {
      hide Pager.Valid, StateOk, TreeOk, Saved, WalWriter.Valid, MapOf, Flatten, Listing, StoreOk, CatalogOk,
           OnlyCommits;
      StateTree(db.pager, root, db.catalog, db.trees, treeId);
      var found := FindRoot(db.pager, root, treeId, db.catalog, db.trees);
      if found.Err? {
        return Err(found.error);
      }
      r := OpenAndRange(db.pager, found.value, treeId, start, end, db.trees);
    }
  }

  // ----- writing -----

  class WriteTxn {
    const db: Database
    var catalogRoot: nat
    var treeRoots: map<u32, nat>
    var committed: bool
    /** The catalog and trees as this transaction has made them. */
    ghost var catalog: Option<Tree>
    ghost var trees: map<u32, Tree>

    ghost predicate Valid()
      reads this, db, db.pager, db.wal
    {
      && db.Running() && StateOk(db.pager.file, db.pager.live, catalogRoot, catalog, trees)
      && CacheAgrees(treeRoots, trees)
    }

    ghost function View(): map<u32, map<Key, Value>>
      reads this
    {
      ViewOf(trees)
    }

    ghost predicate RoomLeft(n: nat)
      reads this, db, db.pager
    {
      Room(db.pager.meta.nextPageId, catalog, trees, n)
    }

    constructor (db: Database)
      requires db.Valid()
      ensures Valid() && this.db == db && View() == db.View() && trees == db.trees && catalog == db.catalog
    {
      hide Pager.Valid, StateOk, WalWriter.Valid, Saved, ViewOf;
      this.db, catalogRoot, treeRoots, committed := db, db.currentRoot, map[], false;
      catalog, trees := db.catalog, db.trees;
    }

    /** From the cache if the tree was touched before, else from the catalog. */
    method ResolveTreeRoot(treeId: u32) returns (r: Result<nat>)
      requires Valid()
      modifies db.pager`cache, db.pager`lruOrder
      ensures Valid() && r == if treeId in trees then Ok(trees[treeId].id) else Err(TreeNotFound(treeId))
    {
      hide Pager.Valid, StateOk, TreeOk, WalWriter.Valid;
      if treeId in treeRoots {
        return Ok(treeRoots[treeId]);
      }
      r := FindRoot(db.pager, catalogRoot, treeId, catalog, trees);
    }

    method Get(treeId: u32, key: Key) returns (r: Result<Option<Value>>)
      requires Valid()
      modifies db.pager`cache, db.pager`lruOrder
      ensures Valid()
      ensures r == if treeId !in View() then Err(TreeNotFound(treeId))
                   else if |key| > MAX_KEY_SIZE then Err(KeyTooLarge(|key|))
                   else Ok(if key in View()[treeId] then Some(View()[treeId][key]) else None)
    {
      hide Pager.Valid, StateOk, TreeOk, WalWriter.Valid, MapOf, Flatten, CacheAgrees, StoreOk, CatalogOk, OnlyCommits;
      StateTree(db.pager, catalogRoot, catalog, trees, treeId);
      var found := ResolveTreeRoot(treeId);
      if found.Err? {
        return Err(found.error);
      }
      r := OpenAndGet(db.pager, found.value, treeId, key, trees);
    }

    method Range(treeId: u32, start: Key, end: Key) returns (r: Result<seq<Entry>>)
      requires Valid()
      modifies db.pager`cache, db.pager`lruOrder
      ensures Valid()
      ensures if treeId in View() then r.Ok? && Listing(r.value, View()[treeId], start, end)
              else r == Err(TreeNotFound(treeId))
    {
      hide Pager.Valid, StateOk, TreeOk, WalWriter.Valid, MapOf, Flatten, Listing, CacheAgrees, StoreOk, CatalogOk,
           OnlyCommits;
      StateTree(db.pager, catalogRoot, catalog, trees, treeId);
      var found := ResolveTreeRoot(treeId);
      if found.Err? {
        return Err(found.error);
      }
      r := OpenAndRange(db.pager, found.value, treeId, start, end, trees);
    }

    /** Sets one key of one tree. Only that tree's map changes, even when its root splits and the catalog is
        rewritten to say so. */
    method Insert(treeId: u32, key: Key, value: Value) returns (r: Result<()>)
      requires Valid()
      requires treeId in trees && |key| <= MAX_KEY_SIZE && |value| <= MAX_VALUE_SIZE ==>
                 InsertFitsIn(trees[treeId], key, value) && RoomLeft(1)
      modifies this`catalogRoot, this`treeRoots, this`catalog, this`trees
      modifies db.pager`file, db.pager`cache, db.pager`lruOrder, db.pager`meta, db.pager`freelist, db.pager`live
      ensures Valid()
      ensures r == if treeId !in old(trees) then Err(TreeNotFound(treeId))
                   else if |key| > MAX_KEY_SIZE then Err(KeyTooLarge(|key|))
                   else if |value| > MAX_VALUE_SIZE then Err(ValueTooLarge(|value|)) else Ok(())
      ensures r.Err? ==> trees == old(trees) && catalog == old(catalog)
      ensures r.Ok? ==> treeId in trees && trees == old(trees)[treeId := trees[treeId]]
      ensures r.Ok? ==> View() == old(View())[treeId := old(View())[treeId][key := value]]
      ensures r.Ok? ==> exists ids :: Inserted(old(trees)[treeId], key, value, trees[treeId], ids)
      ensures RoomStep(old(db.pager.meta.nextPageId), old(catalog), old(trees), db.pager.meta.nextPageId, catalog,
          trees)
    {
      hide Pager.Valid, StateOk, StoreOk, TreeOk, WalWriter.Valid, OnlyCommits, ViewOf, CacheAgrees, CatalogOk, Placed,
           WellFormed, Balanced, PagesFit, Flatten, Upcoming, MapOf, InsertFits, Inserted;
      RoomSame(db.pager.meta.nextPageId, catalog, trees);
      StateTree(db.pager, catalogRoot, catalog, trees, treeId);
      var found := ResolveTreeRoot(treeId);
      if found.Err? {
        return Err(found.error);
      }
      if |key| <= MAX_KEY_SIZE && |value| <= MAX_VALUE_SIZE {
        RoomForOne(db.pager.meta.nextPageId, catalog, trees);
      }
      var treeRoot := found.value;
      ghost var t, f0, live0 := trees[treeId], db.pager.file, db.pager.live;
      TreeShape(db.pager, t);
      ghost var ids := Upcoming(db.pager.freelist, db.pager.meta.nextPageId, Height(t) + 2);
      var done, newRoot;
      ghost var t';
      done, newRoot, t' := OpenAndInsert(db.pager, treeRoot, key, value, t);
      if done.Err? {
        return Err(done.error);
      }
      RecordRoot(treeId, treeRoot, newRoot, t', f0, live0);
      InsertedView(old(trees), treeId, key, value, t', ids);
      RoomAfter(old(db.pager.meta.nextPageId), old(catalog), old(trees), db.pager.meta.nextPageId, catalog, trees,
          treeId);
      return Ok(());
    }

    /** Removes one key of one tree; tells whether it was there. */
    method Delete(treeId: u32, key: Key) returns (r: Result<bool>)
      requires Valid()
      modifies this`catalogRoot, this`treeRoots, this`catalog, this`trees
      modifies db.pager`file, db.pager`cache, db.pager`lruOrder, db.pager`meta, db.pager`freelist, db.pager`live
      ensures Valid()
      ensures r == if treeId !in old(trees) then Err(TreeNotFound(treeId))
                   else if |key| > MAX_KEY_SIZE then Err(KeyTooLarge(|key|)) else Ok(key in old(View())[treeId])
      ensures r.Err? ==> trees == old(trees) && catalog == old(catalog)
      ensures r.Ok? ==>
                && Balanced(old(trees)[treeId])
                && trees == old(trees)[treeId := TreeModel.Delete(old(trees)[treeId], key)]
      ensures r.Ok? ==> View() == old(View())[treeId := old(View())[treeId] - {key}]
    {
      hide Pager.Valid, StateOk, StoreOk, TreeOk, WalWriter.Valid, OnlyCommits, ViewOf, CacheAgrees, CatalogOk, Placed,
           WellFormed, Balanced, PagesFit, Flatten, Found, MapOf, TreeModel.Delete;
      StateTree(db.pager, catalogRoot, catalog, trees, treeId);
      var found := ResolveTreeRoot(treeId);
      if found.Err? {
        return Err(found.error);
      }
      var treeRoot := found.value;
      ghost var t, f0, live0 := trees[treeId], db.pager.file, db.pager.live;
      TreeShape(db.pager, t);
      var existed, newRoot := OpenAndDelete(db.pager, treeRoot, key, t);
      if existed.Err? {
        return Err(existed.error);
      }
      RecordRoot(treeId, treeRoot, newRoot, TreeModel.Delete(t, key), f0, live0);
      DeletedView(old(trees), treeId, key);
      return Ok(existed.value);
    }

    /** Remembers the root of a tree just written, and tells the catalog if it moved. */
    method RecordRoot(treeId: u32, treeRoot: nat, newRoot: nat, ghost t': Tree, ghost f0: seq<Page>,
                      ghost live0: set<nat>)
      requires db.Running() && catalog.Some? && catalogRoot == catalog.value.id && CacheAgrees(treeRoots, trees)
      requires StoreOk(f0, live0, catalog.value, trees) && treeId in trees && treeRoot == trees[treeId].id
      requires TreeOk(db.pager, t') && newRoot == t'.id
      requires Placed(trees[treeId], t', f0, live0, db.pager.file, db.pager.live)
      requires newRoot != treeRoot ==> db.pager.meta.nextPageId + Height(catalog.value) + 2 < U32
      modifies this`catalogRoot, this`treeRoots, this`catalog, this`trees
      modifies db.pager`file, db.pager`cache, db.pager`lruOrder, db.pager`meta, db.pager`freelist, db.pager`live
      ensures Valid() && trees == old(trees)[treeId := t'] && CatalogHeight(catalog) <= CatalogHeight(old(catalog)) + 1
      ensures db.pager.meta.nextPageId <= old(db.pager.meta.nextPageId) + CatalogHeight(old(catalog)) + 2
    {
      hide Pager.Valid, StoreOk, TreeIn, WalWriter.Valid, Forest, CatalogOk, Placed;
      ghost var cat := catalog.value;
      TreeWritten(f0, live0, cat, trees, db.pager.file, db.pager.live, treeId, t');
      if newRoot != treeRoot {
        ghost var f1, live1 := db.pager.file, db.pager.live;
        PagesSmall(db.pager, t');
        var moved, cat' := CatalogSet(db.pager, catalogRoot, treeId, newRoot, cat, trees, t');
        CatalogWritten(f1, live1, cat, trees[treeId := t'], db.pager.file, db.pager.live, cat');
        catalogRoot := moved.value;
        catalog := Some(cat');
      }
      treeRoots := treeRoots[treeId := newRoot];
      trees := trees[treeId := t'];
    }

    /** Makes the catalog on the first use of a new database. */
    method EnsureCatalog()
      requires Valid() && db.pager.meta.nextPageId + 1 < U32
      modifies this`catalogRoot, this`catalog
      modifies db.pager`file, db.pager`cache, db.pager`lruOrder, db.pager`meta, db.pager`freelist, db.pager`live
      ensures Valid() && catalog.Some?
      ensures old(catalog).Some? ==> catalog == old(catalog) && db.pager.meta == old(db.pager.meta)
      ensures CatalogHeight(catalog) == CatalogHeight(old(catalog))
      ensures db.pager.meta.nextPageId <= old(db.pager.meta.nextPageId) + 1
    {
      hide Pager.Valid, StateOk, StoreOk, TreeOk, WalWriter.Valid, OnlyCommits, CatalogOk, WellFormed, SameExcept,
           CacheAgrees;
      StateTree(db.pager, catalogRoot, catalog, trees, 0);
      if catalogRoot == 0 {
        NoTrees(db.pager, catalogRoot, catalog, trees);
        var btree := new BTree.New(db.pager);
        EmptyCatalog(db.pager, btree.tree);
        catalogRoot, catalog := btree.root, Some(btree.tree);
      }
    }

    /** A new, empty tree under an id no tree has had so far. */
    method CreateTree() returns (r: Result<u32>)
      requires Valid() && RoomLeft(1)
      requires forall id :: id in trees ==> id + 1 < U32
      modifies this`catalogRoot, this`treeRoots, this`catalog, this`trees
      modifies db.pager`file, db.pager`cache, db.pager`lruOrder, db.pager`meta, db.pager`freelist, db.pager`live
      ensures Valid()
      ensures r.Ok? && r.value !in old(trees) && forall id :: id in old(trees) ==> id < r.value
      ensures r.value == 1 || r.value - 1 in old(trees)
      ensures r.value in trees && trees == old(trees)[r.value := trees[r.value]]
          && View() == old(View())[r.value := map[]]
      ensures trees[r.value].Leaf? && trees[r.value].entries == []
      ensures RoomStep(old(db.pager.meta.nextPageId), old(catalog), old(trees), db.pager.meta.nextPageId, catalog,
          trees)
    {
      hide Pager.Valid, StateOk, StoreOk, TreeOk, WalWriter.Valid, OnlyCommits, ViewOf, CatalogOk, SameExcept,
           CacheAgrees, WellFormed;
      RoomForOne(db.pager.meta.nextPageId, catalog, trees);
      EnsureCatalog();
      ghost var cat := catalog.value;
      StateTrees(db.pager, catalogRoot, catalog, trees);
      var nextId := CatalogNextTreeId(db.pager, catalogRoot, cat, trees);
      ghost var f0, live0 := db.pager.file, db.pager.live;
      var btree := new BTree.New(db.pager);
      Register(nextId.value, btree.root, btree.tree, f0, live0);
      RoomAfter(old(db.pager.meta.nextPageId), old(catalog), old(trees), db.pager.meta.nextPageId, catalog, trees,
          nextId.value);
      return Ok(nextId.value);
    }

    /** Enters a new tree in the catalog and in the cache. */
    method Register(newId: u32, root: nat, ghost t: Tree, ghost f0: seq<Page>, ghost live0: set<nat>)
      requires db.Running() && catalog.Some? && catalogRoot == catalog.value.id && CacheAgrees(treeRoots, trees)
      requires StoreOk(f0, live0, catalog.value, trees) && newId !in trees && TreeOk(db.pager, t) && root == t.id
      requires t == Leaf(root, []) && root !in live0 && db.pager.live == live0 + {root}
          && SameExcept(f0, db.pager.file, {root})
      requires db.pager.meta.nextPageId + Height(catalog.value) + 2 < U32
      modifies this`catalogRoot, this`treeRoots, this`catalog, this`trees
      modifies db.pager`file, db.pager`cache, db.pager`lruOrder, db.pager`meta, db.pager`freelist, db.pager`live
      ensures Valid() && trees == old(trees)[newId := t] && View() == old(View())[newId := map[]]
      ensures CatalogHeight(catalog) <= CatalogHeight(old(catalog)) + 1
      ensures db.pager.meta.nextPageId <= old(db.pager.meta.nextPageId) + CatalogHeight(old(catalog)) + 2
    {
      hide Pager.Valid, StoreOk, TreeIn, WalWriter.Valid, OnlyCommits, ViewOf, CatalogOk, SameExcept, Forest, Placed;
      ghost var cat := catalog.value;
      JoinsForest(db.pager, f0, live0, cat, trees, newId, t);
      ghost var f1, live1 := db.pager.file, db.pager.live;
      var moved, cat' := CatalogSet(db.pager, catalogRoot, newId, root, cat, trees, t);
      CatalogWritten(f1, live1, cat, trees[newId := t], db.pager.file, db.pager.live, cat');
      NewView(trees, newId, t);
      catalogRoot, catalog := moved.value, Some(cat');
      treeRoots := treeRoots[newId := root];
      trees := trees[newId := t];
    }

    /** Logs the commit, then makes the catalog root and the new transaction id the database's. */
    method Commit()
      requires Valid() && db.currentTxnId + 1 < U64 && db.wal.offset + 17 < U64
      modifies this`committed, db, db.pager, db.wal`file, db.wal`offset, db.wal`log
      ensures db.Valid() && db.trees == trees && db.catalog == catalog && db.View() == View()
      ensures db.currentTxnId == old(db.currentTxnId) + 1 && db.currentRoot == catalogRoot
      ensures db.wal.log == old(db.wal.log) + [CommitRecord(db.currentTxnId)]
          && db.pager.meta.walOffset == db.wal.offset && committed
    {
      hide Pager.Valid, StateOk, StoreOk, TreeOk, CatalogOk, Saved, Stepped, CommitFile, ChainAt, Chunks, Fields,
           WalWriter.Valid, ViewOf, CacheAgrees, IdSet, SameExcept, AtRecord, Log;
      StateTree(db.pager, catalogRoot, catalog, trees, 0);
      WalLength(db.wal);
      var newTxnId := db.currentTxnId + 1;
      var start := db.wal.AppendCommit(newTxnId);
      WalLength(db.wal);
      var newWalOffset := db.wal.offset;
      var pager := db.pager;
      NoChainNeeded(pager);
      var newMeta := pager.meta.(rootPageId := catalogRoot, txnId := newTxnId, walOffset := newWalOffset);
      ghost var f0 := pager.file;
      ghost var ids, images := pager.CommitMeta(newMeta);
      assert ids == [];
      StateKept(pager, f0, catalogRoot, catalog, trees, ids);
      WalAtRecord(db.wal);
      db.currentRoot, db.currentTxnId := catalogRoot, newTxnId;
      db.catalog, db.trees := catalog, trees;
      committed := true;
    }
  }

  lemma WalAtRecord(wal: WalWriter)
    requires wal.Valid()
    ensures AtRecord(wal.log, wal.offset, wal.crc)
  {
    AtEnd(wal.log, wal.crc);
  }

  lemma LogEnd(wal: WalWriter)
    requires wal.Valid()
    ensures wal.file == Log(wal.log, wal.crc) && wal.offset == |wal.file|
  {
  }

  lemma LiveHandedOut(pager: Pager)
    requires pager.Valid()
    ensures pager.meta.nextPageId >= 2 && pager.live <= Numbers(pager.meta.nextPageId)
  {
    NumbersCount(pager.meta.nextPageId);
  }

  lemma EmptyUsable(next: nat)
    requires next >= 2
    ensures UsableList(AllDamaged([]), next)
  {
  }

  /** Opening the files of a database at rest gives a database in the same state. */
  method Reopen(db: Database, capacity: nat) returns (r: Database)
    requires db.Valid() && capacity > 0 && db.wal.offset < U64
    ensures fresh(r) && fresh(r.pager) && fresh(r.wal)
    ensures r.Valid() && r.View() == db.View() && r.trees == db.trees && r.catalog == db.catalog
    ensures r.currentTxnId == db.currentTxnId
  {
    hide Pager.Valid, WalWriter.Valid, StateOk, Log, Committed, AllDamaged, Saved, Pending, UsableList, Numbers, ViewOf,
         OnlyCommits;
    var crc := db.pager.crc;
    ghost var log, m := db.wal.log, db.pager.meta;
    ghost var n :| 0 <= n <= |log| && m.walOffset == |Log(log[..n], crc)|;
    LogEnd(db.wal);
    LiveHandedOut(db.pager);
    EmptyUsable(m.nextPageId);
    CleanLog(log, n, db.wal.file, crc);
    SavedOpens(db.pager.file, crc, m, db.pager.metaSlot, [], []);
    var result := Database.Open(db.pager.file, db.wal.file, crc, capacity, m, db.pager.metaSlot, [], [], log, n,
                                db.pager.live, db.catalog, db.trees);
    r := result.value;
  }

  /** What a transaction committed is what the reopened files hold. */
  method CommitAndReopen(wtx: WriteTxn, capacity: nat) returns (r: Database)
    requires wtx.Valid() && capacity > 0 && wtx.db.currentTxnId + 1 < U64 && wtx.db.wal.offset + 17 < U64
    modifies wtx`committed, wtx.db, wtx.db.pager, wtx.db.wal`file, wtx.db.wal`offset, wtx.db.wal`log
    ensures fresh(r) && r.Valid() && r.View() == old(wtx.View()) && r.trees == old(wtx.trees)
    ensures r.currentTxnId == old(wtx.db.currentTxnId) + 1
  {
    hide Pager.Valid, WalWriter.Valid, StateOk, ViewOf, OnlyCommits, Saved, CacheAgrees, AtRecord;
    WalLength(wtx.db.wal);
    wtx.Commit();
    WalLength(wtx.db.wal);
    r := Reopen(wtx.db, capacity);
  }

  lemma WalLength(wal: WalWriter)
    requires wal.Valid() && OnlyCommits(wal.log)
    ensures wal.offset == 17 * |wal.log|
  {
    CommitsLength(wal.log, wal.crc);
  }

  lemma {:induction false} CommitsLength(log: seq<Record>, crc: Checksum)
    requires OnlyCommits(log)
    ensures |Log(log, crc)| == 17 * |log|
  {
    if log != [] {
      CommitsLength(log[1..], crc);
    }
  }

  lemma NoChainNeeded(pager: Pager)
    requires pager.Valid() && pager.freelist == []
    ensures ChainPagesNeeded(pager.freelist) == 0 && pager.meta.magic == MAGIC
  {
  }

  /** Writing the meta touches no page of any tree. */
  lemma StateKept(pager: Pager, f0: seq<Page>, root: nat, catalog: Option<Tree>, trees: map<u32, Tree>, ids: seq<u32>)
    requires pager.Valid() && StateOk(f0, pager.live, root, catalog, trees)
    requires SameExcept(f0, pager.file, {0, 1} + IdSet(ids)) && IdSet(ids) !! pager.live
    ensures StateOk(pager.file, pager.live, root, catalog, trees)
  {
    hide StoreOk, SameExcept, IdSet, Coherent, PickActive;
    assert {0, 1} + IdSet(ids) !! pager.live;
    if catalog.Some? {
      StoreKept(f0, pager.live, catalog.value, trees, pager.file, {0, 1} + IdSet(ids));
    }
  }

  lemma EmptyCatalog(pager: Pager, t: Tree)
    requires TreeOk(pager, t) && t.Leaf? && t.entries == []
    ensures StateOk(pager.file, pager.live, t.id, Some(t), map[]) && Height(t) == 0
  {
    hide Stored, WellFormed;
    assert MapOf(Flatten(t)) == map[];
  }

  lemma NoTrees(pager: Pager, root: nat, catalog: Option<Tree>, trees: map<u32, Tree>)
    requires pager.Valid() && StateOk(pager.file, pager.live, root, catalog, trees) && root == 0
    ensures catalog == None && trees == map[]
  {
    StateTree(pager, root, catalog, trees, 0);
  }

  lemma StateTrees(pager: Pager, root: nat, catalog: Option<Tree>, trees: map<u32, Tree>)
    requires pager.Valid() && StateOk(pager.file, pager.live, root, catalog, trees) && catalog.Some?
    ensures StoreOk(pager.file, pager.live, catalog.value, trees) && root == catalog.value.id
    ensures TreeOk(pager, catalog.value) && CatalogOk(catalog.value, trees)
    ensures forall id :: id in trees ==> trees[id].id < U32
  {
    hide Pager.Valid, StateOk, StoreOk, TreeOk, CatalogOk;
    StateTree(pager, root, catalog, trees, 0);
    forall id | id in trees ensures trees[id].id < U32 {
      StateTree(pager, root, catalog, trees, id);
    }
  }

  lemma JoinsForest(pager: Pager, f0: seq<Page>, live0: set<nat>, cat: Tree, trees: map<u32, Tree>, id: u32, t: Tree)
    requires pager.Valid() && StoreOk(f0, live0, cat, trees) && id !in trees && TreeOk(pager, t)
    requires t == Leaf(t.id, []) && t.id !in live0 && pager.live == live0 + {t.id} && SameExcept(f0, pager.file, {t.id})
    ensures Forest(pager.file, pager.live, All(cat, trees[id := t])) && CatalogOk(cat, trees) && TreeOk(pager, cat)
        && t.id < U32
  {
    hide Pager.Valid, StoreOk, TreeIn, Forest, CatalogOk, SameExcept;
    PagesSmall(pager, t);
    assert live0 + {t.id} - live0 == {t.id} && Ids(t) == {t.id};
    TreeAdded(f0, live0, cat, trees, pager.file, pager.live, id, t);
  }

  lemma NewView(trees: map<u32, Tree>, id: u32, t: Tree)
    requires t.Leaf? && t.entries == []
    ensures ViewOf(trees[id := t]) == ViewOf(trees)[id := map[]]
  {
    assert MapOf(Flatten(t)) == map[];
    hide MapOf, Flatten;
  }

  lemma TreeShape(pager: Pager, t: Tree)
    requires TreeOk(pager, t)
    ensures WellFormed(t) && Balanced(t) && PagesFit(t)
  {
  }

  lemma InsertedView(trees: map<u32, Tree>, id: u32, k: Key, v: Value, t': Tree, ids: seq<nat>)
    requires id in trees && WellFormed(trees[id]) && Inserted(trees[id], k, v, t', ids)
    ensures ViewOf(trees[id := t']) == ViewOf(trees)[id := ViewOf(trees)[id][k := v]]
        && Height(t') <= Height(trees[id]) + 1
  {
    hide WellFormed, MapOf, Flatten;
    assert Sorted(Flatten(trees[id])) by { OrderedTree(trees[id]); }
    UpsertedMap(Flatten(trees[id]), k, v);
  }

  lemma DeletedView(trees: map<u32, Tree>, id: u32, k: Key)
    requires id in trees && WellFormed(trees[id]) && Balanced(trees[id])
    ensures ViewOf(trees[id := TreeModel.Delete(trees[id], k)]) == ViewOf(trees)[id := ViewOf(trees)[id] - {k}]
    ensures Found(Flatten(trees[id]), k) <==> k in ViewOf(trees)[id]
  {
    hide WellFormed, MapOf, Flatten, Balanced;
    assert Sorted(Flatten(trees[id])) by { OrderedTree(trees[id]); }
    DeleteCorrect(trees[id], k);
    RemovedMap(Flatten(trees[id]), k);
  }

  lemma OrderedTree(t: Tree)
    requires WellFormed(t)
    ensures Sorted(Flatten(t))
  {
    OrderedEntries(t, None, None);
  }

  /** Opens the tree at `root`, deletes, and tells the root it has afterwards. */
  method OpenAndDelete(pager: Pager, root: nat, key: Key, ghost t: Tree) returns (r: Result<bool>, newRoot: nat)
    requires pager.Valid() && TreeOk(pager, t) && root == t.id && Balanced(t)
    modifies pager`file, pager`cache, pager`lruOrder
    ensures pager.Valid() && newRoot == root
    ensures r == if |key| > MAX_KEY_SIZE then Err(KeyTooLarge(|key|)) else Ok(Found(Flatten(t), key))
    ensures r.Err? ==> pager.file == old(pager.file)
    ensures r.Ok? ==> TreeOk(pager, TreeModel.Delete(t, key)) && newRoot == TreeModel.Delete(t, key).id
                      && Placed(t, TreeModel.Delete(t, key), old(pager.file), pager.live, pager.file, pager.live)
  {
    hide Pager.Valid, WellFormed, Found, Flatten;
    var tree := new BTree.Open(pager, root, t);
    r := tree.Delete(key);
    newRoot := tree.root;
  }
}
