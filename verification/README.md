# A verified model of gemgraph

gemgraph is an embedded graph database built in layers: a pager with a write-through cache, B+trees stored in its
pages, transactions over many trees found through a catalog tree, a property graph kept in five of those trees, a
write-ahead log, and a small Cypher front end. This project models those layers in Dafny and proves that they do what
the layers above them need.

Each layer has two descriptions, and the proofs connect them.

* **Bytes and pages.** Leaf and internal nodes are classes whose `ToPage` fills a 4096-byte array from both ends; what
  `FromPage` reads back is the same node whenever slots and data fit (`Layout`, `Pages`, `NodePages`).
* **B+tree.** `TreeModel` describes a tree as a value with page ids; `TreeInsert`, `TreeLaws`, `FixedSize` and
  `SimilarSizes` prove that inserting, deleting, looking up and scanning it agree with a sorted list of entries, and
  that well-formedness is kept. The class `BTrees.BTree` works on the pager's pages in place; `TreeStore` and
  `Ascents` prove that the pages it leaves are those of the tree the model builds, page ids included, while a split
  climbs towards the root.
* **Pager.** The class `Pagers.Pager` keeps file, cache, LRU order, free list and the two meta slots. Its invariant
  holds cache coherence and the account of every page number; `MetaPages`, `FreeLists` and `Crashes` add what a saved
  free list reads back as, and what a file opens on after any run of commits and crashes.
* **Transactions.** `Stores`, `Catalogs` and `Txns` prove that a write transaction over pairwise disjoint trees
  behaves like a map from tree id to key/value map, that its cached roots are the catalog's, and that after commit
  readers see that state; `Txns.CommitAndReopen` and `GraphDbs.Reopen` say that the reopened files hold it too.
* **Graph.** `Graphs` has the graph as a value; `GraphIndexes` says how it lies in the five trees; `GraphTxns`,
  `GraphReads` and `GraphDbs` prove each operation against it.
* **Write-ahead log.** `Wals` has the framing, the reader, and recovery: which bytes are read as which records, checksum
  included, and what recovery keeps of a log that is cut or damaged anywhere.
* **Cypher.** `Lexers`, `Grammar` and `Parsers` have the reading of queries, method by method against functions;
  `Readings` says which texts a token has, `Derivations` and `Sentences` say which tokens form which expression, node,
  edge, path and statement, and `Cypher.QueryExact` that a query means a statement exactly when it is a text of tokens
  that form it; `Spelling`, `Printer` and `Queries` prove that printing and reading are inverse. `Matchers`, `Bindings`
  and `NamedWalks` prove that pattern expansion lists the matching walks, first by hash and then by name, and in which
  order.

`Bytes`, `Seqs`, `Entries` and `Results` hold what all of them share: byte order, sorted entries, error values.

Some names used below: a tree is *well formed* when it is search-ordered with keys and values inside the bounds its
separators give, all leaves are at one depth, no page occurs twice, every node fits its page, and keys and values are
within their size limits. `Upserted`, `Removed`, `Lookup` and `Within` (module `Entries`) are setting, removing,
finding and range-selecting in a sorted entry list; `UpsertedMap`, `RemovedMap`, `LookupMap` and `WithinExact` tie
them to maps. A *view* is a map from tree id to key/value map.

Four things the code does not do for all inputs, each with the exact condition under which it does:

* A split divides by entry count, so with mixed entry sizes a half can be too large for its page, and replacing a
  value is not checked for space. `InsertFits` follows the insertion down the tree and says whether every page it
  writes fits; `TreeLaws.InsertFitsExact` proves that it says exactly that, `Layout.LeafSplitFits` and
  `InternalSplitFits` give the bound in bytes for a split, `FixedSize.OverwriteFits` the one for a replaced value, and
  `FixedSize` proves that with one key length and one value length every insertion fits, `SimilarSizes` that every new
  key does while entries differ in size by no more than a factor of two. Two lemmas give concrete leaves where one
  does not.
* A full free-list page has its last entry's top byte overwritten by the count. `FreeLists.RestoredExactly` says for
  which lists the saved free list comes back unchanged.
* A pattern variable used twice is bound twice instead of compared. `Bindings.FaithfulAlways` says that bindings
  record their walks exactly when the pattern's names are distinct; `RepeatedNameOverwrites` has a graph where they do
  not.
* A label or type is looked up by its hash. `NamedWalks.FirstExact` and `StepExact` say exactly when matching by hash
  is matching by name, and `HashedNamesCollide` has two names and a graph where it is not.

Checksums, record serialization and, in the graph layer, the name hash are function parameters, so every statement
holds for all of them (record decoding is required to undo encoding). The code's own name hash is in `NameHashes`.

## Model

| member | source | states |
|---|---|---|
| Bytes.BEOrder | crates/gemgraph-graph/src/keys.rs:20-34 | the byte order of fixed-width big-endian encodings is the order of the numbers, and only equal numbers encode alike |
| Bytes.BERoundTrip | crates/gemgraph-graph/src/keys.rs:36-43 | big-endian decoding undoes encoding for every number that fits the width |
| Bytes.LERoundTrip | crates/gemgraph-btree/src/node.rs:431-445 | little-endian decoding undoes encoding for every number that fits the width |
| Bytes.LEDigit | crates/gemgraph-btree/src/node.rs:431-445 | byte i of the little-endian code is the digit of weight 256^i |
| Entries.UpsertedMap | crates/gemgraph-btree/src/node.rs:147-163 | setting a key in a sorted entry list sets exactly that key in the map the list stands for |
| Entries.RemovedMap | crates/gemgraph-btree/src/node.rs:178-186 | removing a key from a sorted entry list removes exactly that key from its map, and the search finds a key just when the map has it |
| Entries.LookupMap | crates/gemgraph-btree/src/node.rs:140-143 | looking a key up in a sorted entry list is looking it up in its map |
| Entries.WithinExact | crates/gemgraph-btree/src/tree.rs:109-113 | selecting a range of a sorted entry list keeps order and keeps exactly the entries with lo <= key <= hi |
| Layout.LeafCanFitExact | crates/gemgraph-btree/src/node.rs:118-136 | `can_fit` on a leaf is true exactly when the leaf with the new entry at any position still fits the page |
| Layout.InternalCanFitExact | crates/gemgraph-btree/src/node.rs:287-305 | `can_fit` on an internal node is true exactly when the node with the new key at any position still fits the page |
| Layout.LeafSplitFits | crates/gemgraph-btree/src/node.rs:166-175 | for a leaf that fitted before the new entry and any split point, each half fits exactly when the other half and the old free space make up for the new entry; both fit when neither half costs less than it |
| Layout.InternalSplitFits | crates/gemgraph-btree/src/node.rs:348-416 | the same bound for internal nodes, where each half is weighed together with the middle key |
| NodePages.LeafNode.FromPage | crates/gemgraph-btree/src/node.rs:63-87 | reading a page gives the decoded leaf, or the decoder's error when the page type is another or a cell runs past the page |
| NodePages.LeafNode.ToPage | crates/gemgraph-btree/src/node.rs:90-115 | the page written for a leaf that fits decodes to the same page id and entries; `LeafExact` says which bytes those are |
| NodePages.LeafRoundTrip | crates/gemgraph-btree/src/node.rs:63-115 | a page whose header, slots and cells are laid out as `to_page` lays them decodes to exactly those entries |
| NodePages.LeafExact | crates/gemgraph-btree/src/node.rs:63-87 | a page decodes to a leaf if and only if its bytes are that leaf's: type 3, id, count, and for each slot the lengths and the offset at which key and value lie |
| NodePages.LeafNode.Upsert | crates/gemgraph-btree/src/node.rs:147-163 | in place: sets the value of a key that is there, inserts the entry at its sorted position otherwise |
| NodePages.LeafNode.Split | crates/gemgraph-btree/src/node.rs:166-175 | in place: the left half by count stays, the right half moves to the new node, and the separator is its first key |
| NodePages.LeafNode.Delete | crates/gemgraph-btree/src/node.rs:178-186 | in place: removes the key's entry and tells whether there was one |
| NodePages.InternalNode.FromPage | crates/gemgraph-btree/src/node.rs:231-259 | reading a page gives the decoded internal node, or the decoder's error |
| NodePages.InternalNode.ToPage | crates/gemgraph-btree/src/node.rs:262-284 | the page written for an internal node that fits decodes to the same id, keys, children and right child |
| NodePages.InternalRoundTrip | crates/gemgraph-btree/src/node.rs:231-284 | a page laid out as `to_page` lays it decodes to exactly those entries and that right child |
| NodePages.InternalExact | crates/gemgraph-btree/src/node.rs:231-259 | a page decodes to an internal node if and only if its bytes are that node's: type 2, id, count, right child, and for each slot key length, offset, child and key |
| NodePages.InternalNode.FindChild | crates/gemgraph-btree/src/node.rs:310-321 | the index is that of the first key greater than the search key, and the child is the one there, or the right child past the end |
| NodePages.InternalNode.InsertKey | crates/gemgraph-btree/src/node.rs:324-344 | in place: the separator goes in at its sorted position with the left child, and the pointer that follows it, entry or right child, becomes the right child |
| NodePages.InternalNode.Split | crates/gemgraph-btree/src/node.rs:348-416 | in place: the middle key is pushed up, its left child becomes the left node's right child, and the rest moves to the new node with the old right child |
| TreeLaws.InsertCorrect | crates/gemgraph-btree/src/tree.rs:49-92 | inserting into a well-formed tree when every written page fits gives a well-formed tree holding the old entries with just that key set, on the old pages and the new ones handed out, at most one level higher |
| TreeInsert.InsOrdered | crates/gemgraph-btree/src/tree.rs:75-92 | through leaf split and any cascade of internal splits, the parts stay ordered inside the bounds of the subtree, strictly separated, and hold the old entries with the key set |
| TreeInsert.InsBalanced | crates/gemgraph-btree/src/tree.rs:170-213 | a split anywhere below keeps all leaves at one depth, and both parts at the depth of the subtree that split |
| TreeInsert.InsSeparate | crates/gemgraph-btree/src/tree.rs:170-213 | a split uses no page twice: the parts' pages are the old ones and the newly allocated ones |
| TreeLaws.InsertFitsExact | crates/gemgraph-btree/src/tree.rs:61-89 | `InsertFits`, a descent over sizes that builds no tree, is true exactly when all pages of the tree after the insertion fit |
| TreeLaws.PagesTakenExactly | crates/gemgraph-btree/src/tree.rs:61-89 | an insertion that fits takes new pages if and only if the leaf it goes to, with the entry in it, does not fit its page |
| TreeLaws.DeleteCorrect | crates/gemgraph-btree/src/tree.rs:95-106 | deleting keeps a tree well formed, on the same pages and with the same height, and removes just that key |
| TreeLaws.LookupCorrect | crates/gemgraph-btree/src/tree.rs:39-46 | looking a key up in the leaf the descent reaches gives what looking it up among all entries gives |
| TreeLaws.ScanCorrect | crates/gemgraph-btree/src/tree.rs:216-256 | the scan that skips and stops at separators gives exactly the tree's entries with start <= key <= end, in order and each once, for every start and end, emptied leaves included |
| FixedSize.FixedInsertFits | crates/gemgraph-btree/src/tree.rs:49-92 | in a tree with one key length and one value length no insertion ever builds a page that does not fit, and the result has those lengths again |
| FixedSize.OverwriteFits | crates/gemgraph-btree/src/tree.rs:61-67 | replacing a value fits exactly when the new value is no longer than the old one plus the leaf's free space, and it never splits |
| SimilarSizes.SimilarLeafTakes | crates/gemgraph-btree/src/node.rs:166-175 | when every entry and the new one cost between c and 2c bytes, a leaf that has no room for a new key splits into halves that both fit |
| SimilarSizes.SimilarNodeTakes | crates/gemgraph-btree/src/node.rs:348-416 | when every separator and the new one cost between d and 2d bytes, an internal node takes the separator or splits into halves that both fit, and its keys stay of that size |
| SimilarSizes.SimilarInsertFits | crates/gemgraph-btree/src/tree.rs:49-92 | in a tree of entries and separators of such sizes an insertion fits exactly when it is not a replaced value growing by more than the leaf's free space; a new key always fits, at any depth, and the result has such sizes again |
| SimilarSizes.DeleteSimilar | crates/gemgraph-btree/src/tree.rs:95-106 | deletion keeps such sizes |
| FixedSize.RunTree | crates/gemgraph-btree/src/tree.rs:49-106 | any run of puts and removes of one size keeps the tree well formed, and its entries are those of the same run on a sorted list, with no side condition on fitting |
| FixedSize.RunRefinesMap | crates/gemgraph-btree/src/tree.rs:39-113 | after any such run, every lookup and every range scan gives what the sorted list gives |
| FixedSize.SplitCanOverflow | crates/gemgraph-btree/src/node.rs:166-175 | a concrete well-formed leaf and a new entry within the size limits whose count-based split leaves a half that does not fit |
| FixedSize.OverwriteCanOverflow | crates/gemgraph-btree/src/tree.rs:61-67 | a concrete well-formed leaf where replacing a short value by a longer one gives a leaf that does not fit |
| TreeStore.SeparatorPosition | crates/gemgraph-btree/src/node.rs:324-330 | a separator that lies strictly between the bounds of child i is new, and binary search puts it at position i |
| Ascents.SeparatorLands | crates/gemgraph-btree/src/tree.rs:145-213 | the separator a split pushes up lands, by binary search in the parent, at exactly the child index the descent recorded there |
| TreeStore.SpliceMirrors | crates/gemgraph-btree/src/node.rs:324-344 | inserting separator and pointers into the entry list gives the entries of the parent with that child replaced by the two parts |
| TreeStore.CutMirrors | crates/gemgraph-btree/src/node.rs:348-416 | splitting the entry list gives the entries of the two halves of the node |
| TreeStore.StoredKept | crates/gemgraph-btree/src/tree.rs:216-256 | a tree stored in the file stays stored when only pages outside it change |
| TreeStore.LiftOne | crates/gemgraph-btree/src/tree.rs:61-75 | when the subtree at any depth of the search path is updated in its own pages and nothing else of the tree changes, the file holds the whole tree with that subtree updated |
| TreeStore.SplicedStored | crates/gemgraph-btree/src/tree.rs:170-191 | after a child split into fresh pages, the parent's own page is unchanged and all children of the parent-to-be are in the file, apart from its page |
| TreeStore.DeleteStored | crates/gemgraph-btree/src/tree.rs:95-106 | rewriting one leaf leaves in the file exactly the tree with the key deleted |
| Ascents.ParentReady | crates/gemgraph-btree/src/tree.rs:179-191 | whenever a split reaches a level, the parent read there is the one the descent passed, its pointer position is the recorded child index, and a full or half page will hold the result |
| Ascents.ClimbedUp | crates/gemgraph-btree/src/tree.rs:179-206 | one round of the upward loop keeps its invariant: the file holds the grown subtree of the next level, and only its pages and newly allocated ones have changed |
| Ascents.ClimbedOne | crates/gemgraph-btree/src/tree.rs:184-189 | when a parent takes the separator, the file holds the whole tree after the insertion |
| Ascents.ClimbedRoot | crates/gemgraph-btree/src/tree.rs:206-213 | when the root itself split, the new root page completes the tree after the insertion |
| BTrees.BTree.New | crates/gemgraph-btree/src/tree.rs:17-26 | a new tree is one empty leaf on a page that was not in use, and nothing else changes |
| BTrees.BTree.FindLeaf | crates/gemgraph-btree/src/tree.rs:120-135 | the descent through pages terminates at the leaf responsible for the key and reads back its entries |
| BTrees.BTree.Get | crates/gemgraph-btree/src/tree.rs:39-46 | gives the value the tree's entries have for the key, or nothing; a key over the limit is an error |
| BTrees.BTree.Insert | crates/gemgraph-btree/src/tree.rs:49-92 | sets exactly that key and keeps the tree valid, touching only the tree's pages and newly allocated ones; an oversized key or value is an error that changes nothing |
| BTrees.BTree.SplitLeaf | crates/gemgraph-btree/src/tree.rs:78-89 | writes both halves of the full leaf and leaves, after the upward loop, the pages of the tree after the insertion |
| BTrees.BTree.RewriteLeaf | crates/gemgraph-btree/src/tree.rs:61-75 | rewriting the leaf page leaves the pages of the tree after the insertion |
| BTrees.BTree.FindPath | crates/gemgraph-btree/src/tree.rs:145-165 | the recorded path is the sequence of pages and child indices on the way to the key, ending in the leaf with index 0 |
| BTrees.BTree.InsertIntoParent | crates/gemgraph-btree/src/tree.rs:170-213 | the upward loop, from the split leaf to a parent with space or to a new root, leaves the pages of the tree after the insertion and the root id of that tree |
| BTrees.BTree.GrowParent | crates/gemgraph-btree/src/tree.rs:179-205 | one round: the parent takes the separator, or splits and pushes its middle key with a freshly allocated right node |
| BTrees.BTree.StoreHalves | crates/gemgraph-btree/src/tree.rs:192-205 | both halves of a split parent are stored, the left on the parent's page and the right on a new one |
| BTrees.BTree.NewRoot | crates/gemgraph-btree/src/tree.rs:206-213 | the new root is on a fresh page and holds the separator with the two parts |
| BTrees.BTree.Delete | crates/gemgraph-btree/src/tree.rs:95-106 | removes exactly that key, tells whether it was there, and keeps the tree valid; a key over the limit is an error that changes nothing |
| BTrees.BTree.Range | crates/gemgraph-btree/src/tree.rs:109-113 | gives exactly the entries with start <= key <= end in key order |
| BTrees.BTree.CollectRange | crates/gemgraph-btree/src/tree.rs:216-256 | appends to the results the scan of the subtree at this page |
| BTrees.BTree.CollectKids | crates/gemgraph-btree/src/tree.rs:232-251 | the loop over an internal node's entries, with its skip and its early return, appends the scan of the node |
| BTrees.BTree.Filter | crates/gemgraph-btree/src/tree.rs:226-231 | the loop over a leaf's entries appends those with start <= key <= end |
| Lru.KeepsMostRecent | crates/gemgraph-pager/src/pager.rs:110-188 | after any sequence of uses the order holds no page twice, is by last use, is never longer than the capacity, and holds the most recently used distinct pages |
| Pagers.CacheSize | crates/gemgraph-pager/src/pager.rs:178-188 | in a coherent cache the number of cached pages is the length of the LRU order, so testing either against the capacity is the same |
| Pagers.Pager.Create | crates/gemgraph-pager/src/pager.rs:47-74 | a new file has the initial meta in both slots (version 1, no root, next page 2, transaction 0) and neither live nor free pages |
| Pagers.Pager.TouchLru | crates/gemgraph-pager/src/pager.rs:168-175 | moves the page to the back of the order and leaves the rest in place |
| Pagers.Pager.CacheInsert | crates/gemgraph-pager/src/pager.rs:178-188 | keeps the cache coherent and within capacity, evicting the page used longest ago |
| Pagers.Pager.ReadPage | crates/gemgraph-pager/src/pager.rs:110-127 | gives the page on disk for ids other than 0 and 1, whether cached or not, fails only past the end of the file, and makes the page the most recently used |
| Pagers.Pager.WritePage | crates/gemgraph-pager/src/pager.rs:130-143 | writes through: the file changes at that page only, and the cache agrees with it afterwards |
| Pagers.UpcomingFresh | crates/gemgraph-pager/src/pager.rs:146-154 | the pages the next allocations will give are distinct, not in use, and never a meta page |
| Pagers.Pager.AllocPage | crates/gemgraph-pager/src/pager.rs:146-154 | gives the last page of the free list, or the next page number when the list is empty; it was neither live nor in a free-list chain and becomes live |
| Pagers.Pager.FreePage | crates/gemgraph-pager/src/pager.rs:157-165 | the page leaves the live set for the free list and is gone from the cache |
| Pagers.PagesConserved | crates/gemgraph-pager/src/pager.rs:146-165 | in every reachable state `next_page_id` minus 2 is the number of live pages plus free pages plus chain pages ever written |
| Pagers.Pager.CommitMeta | crates/gemgraph-pager/src/pager.rs:197-239 | saves the free list in new pages outside all live ones and the meta in the other slot, so that reopening finds this meta and this free list; only those pages and the slots change; the slots take the crash model's commit step |
| Pagers.Pager.InstallMeta | crates/gemgraph-pager/src/pager.rs:218-238 | writing the sealed meta into the inactive slot makes it the one reopening picks, as the crash model's commit step does |
| Pagers.SlotsConsistent | crates/gemgraph-pager/src/pager.rs:197-239 | in every reachable state the two slots are as the crash model needs them: reopening picks the committed meta |
| Crashes.SavedKept | crates/gemgraph-pager/src/pager.rs:77-106 | writes outside the slots and the saved chain leave meta and free list to be read as they were saved |
| Crashes.CommitCrashes | crates/gemgraph-pager/src/pager.rs:197-239 | a commit after any writes to other pages, stopped by a crash at any step, leaves a file that opens on the last committed meta with its free list, or on the new ones if the slot write was complete |
| Crashes.RunRestores | crates/gemgraph-pager/src/pager.rs:197-239 | the same over any run of page writes and commits, each finished or stopped by a crash |
| Crashes.CommitFollows | crates/gemgraph-pager/src/pager.rs:197-239 | what the pager's own commit leaves, after writes outside slots and saved chain, is a finished commit step of the crash model: file, meta, slot and free list are the ones the model says come after |
| Crashes.SavedRestores | crates/gemgraph-pager/src/pager.rs:77-106 | a saved file whose free list has at most 1020 entries has all that reopening it whole needs |
| Crashes.Reopen | crates/gemgraph-pager/src/pager.rs:77-106 | opening such a file gives a valid pager on that meta with exactly that free list, and every page in use stays in use |
| Pagers.Pager.WriteChain | crates/gemgraph-pager/src/pager.rs:209-212 | the chain pages are on disk as built, and no other page changes |
| Pagers.Pager.Open | crates/gemgraph-pager/src/pager.rs:77-106 | fails exactly on a file shorter than two pages or with no slot whose magic and checksum are right; otherwise takes the fields of such a slot, the other having no larger transaction id or being unsound, and the free list is the saved one as `RestoredExactly` describes |
| MetaPages.MetaRoundTrip | crates/gemgraph-pager/src/meta.rs:64-103 | a meta page reads back every field, the free-list head written beside them, and its page type and slot number |
| MetaPages.ValidExact | crates/gemgraph-pager/src/meta.rs:40-103 | on a slot's bytes: it counts if and only if the magic is there and the stored checksum is that of the 32 field bytes, and then as the meta whose fields those bytes are |
| MetaPages.PickExact | crates/gemgraph-pager/src/meta.rs:107-125 | on the bytes of both slots: a meta is picked if and only if one slot is sound, and it is that of the sound slot with the larger transaction id, of slot 0 when they are equal |
| MetaPages.NewestWins | crates/gemgraph-pager/src/meta.rs:107-125 | a meta with a larger transaction id written to the inactive slot becomes the one picked; when that slot is unreadable the old one is |
| MetaPages.StepConsistent | crates/gemgraph-pager/src/pager.rs:197-239 | a commit, or a commit cut off by a crash that left the slot untouched, complete or with a wrong checksum or magic in its bytes, followed by reopening, leaves the last committed meta or the one being committed |
| MetaPages.RunSurvives | crates/gemgraph-pager/src/meta.rs:107-125 | over any run of such commits and crashes with increasing transaction ids a meta is always found, never an older one |
| FreeLists.WriteChunk | crates/gemgraph-pager/src/freelist.rs:42-66 | the page holds its type and id, the link, the count and the entries at their offsets, the count written last |
| FreeLists.Persist | crates/gemgraph-pager/src/freelist.rs:33-70 | the chain pages carry their ids, link the chunks of the list in order, and end with 0 |
| FreeLists.LastEntryReads | crates/gemgraph-pager/src/freelist.rs:60-64 | on a full page the last entry reads back with its top byte replaced by the count's low byte |
| FreeLists.Restore | crates/gemgraph-pager/src/freelist.rs:73-104 | following the chain terminates and gives the concatenation of the chunks as they read back |
| FreeLists.RereadAll | crates/gemgraph-pager/src/freelist.rs:33-104 | the restored list has the saved list's length and equals it at every index except the last of each full page |
| FreeLists.RestoredExactly | crates/gemgraph-pager/src/freelist.rs:33-104 | saving and restoring gives the same list exactly when every last entry of a full page has top byte 0xFD; always for up to 1020 entries |
| FreeLists.FullPageLosesEntry | crates/gemgraph-pager/src/freelist.rs:60-64 | a concrete list of 1021 pages that does not come back |
| Wals.RecordRoundTrip | crates/gemgraph-wal/src/record.rs:19-69 | decoding undoes encoding, and only a record's own type byte and payload decode to it |
| Wals.RecordBytes | crates/gemgraph-wal/src/record.rs:3-42 | the type byte and payload bytes of the three kinds of record |
| Wals.TornFrame | crates/gemgraph-wal/src/reader.rs:40-99 | a frame cut short at any byte reads as the end of the log |
| Wals.ReadsBeforeCut | crates/gemgraph-wal/src/reader.rs:40-99 | for every sequence of records and every cut of the file, reading gives exactly the records wholly before the cut |
| Wals.LogRoundTrip | crates/gemgraph-wal/src/reader.rs:40-87 | reading the whole file gives exactly the appended records |
| Wals.EndExact | crates/gemgraph-wal/src/reader.rs:40-74 | the reader stops if and only if no whole frame with its right length and right checksum begins there |
| Wals.RecordExact | crates/gemgraph-wal/src/reader.rs:40-86 | the reader returns a record if and only if the bytes begin with that record's frame, checksum included, and takes exactly the frame |
| Wals.CorruptExact | crates/gemgraph-wal/src/reader.rs:76-86 | it reports a corrupt record if and only if a whole frame with the right checksum holds bytes that are no record |
| Wals.ReadAllExact | crates/gemgraph-wal/src/reader.rs:40-86 | for any bytes: reading gives these records if and only if the bytes are their log followed by bytes with which no frame begins |
| Wals.WrongChecksum | crates/gemgraph-wal/src/reader.rs:71-74 | a frame whose stored checksum is not that of its body ends the reading, whatever the body and whatever follows |
| Wals.WalWriter.AppendRecord | crates/gemgraph-wal/src/writer.rs:58-76 | appends the record's frame, returns where it starts, and keeps the offset at the end of the file |
| Wals.WalWriter.AppendPageWrite | crates/gemgraph-wal/src/writer.rs:34-39 | the log grows by this page write |
| Wals.WalWriter.AppendCommit | crates/gemgraph-wal/src/writer.rs:42-44 | the log grows by this commit |
| Wals.WalWriter.AppendCheckpoint | crates/gemgraph-wal/src/writer.rs:47-49 | the log grows by this checkpoint |
| Wals.WalIter.Next | crates/gemgraph-wal/src/reader.rs:40-86 | gives the record at the offset and moves past it, the end for a torn frame or a wrong checksum, or the decoder's error; otherwise the offset stays (see `RecordExact`, `EndExact`, `CorruptExact`) |
| Wals.CommittedStep | crates/gemgraph-wal/src/recovery.rs:26-42 | what is recovered changes only at a commit, and then becomes all page writes so far |
| Wals.SplitAtCommit | crates/gemgraph-wal/src/recovery.rs:18-45 | recovering up to a commit and then from it is recovering the whole |
| Wals.Recover | crates/gemgraph-wal/src/recovery.rs:18-45 | the loop over the reader returns the page writes followed by a commit, in order, or the reader's error |
| Wals.RecoveryExact | crates/gemgraph-wal/src/recovery.rs:18-45 | for any records, any commit boundary and any later cut of the file: recovery of the cut file gives exactly the page writes followed by a commit before the cut, and equals recovery up to the boundary followed by recovery from it |
| Wals.RecoveredTail | crates/gemgraph-wal/src/recovery.rs:18-45 | recovery from any record boundary of a log cut at any byte gives the page writes followed by a commit among the whole records between |
| Wals.DamageStops | crates/gemgraph-wal/src/recovery.rs:18-45 | with a damaged frame anywhere in a log, reading gives the records before it, and recovery from any record on the page writes followed by a commit before it, and nothing after |
| Stores.ForestStep | crates/gemgraph-mvcc/src/txn.rs:134-148 | writing one tree, or adding one, on its own and newly allocated pages keeps all trees stored and pairwise disjoint |
| Stores.TreeWritten | crates/gemgraph-mvcc/src/txn.rs:134-164 | after one tree is written the catalog and all other trees are in the file unchanged |
| Stores.CatalogWritten | crates/gemgraph-mvcc/src/txn.rs:141-146 | after the catalog is rewritten all trees are in the file unchanged and the catalog names their roots |
| Stores.TreeAdded | crates/gemgraph-mvcc/src/txn.rs:107-123 | a tree on fresh pages joins the others without touching them |
| Stores.ListsSet | crates/gemgraph-mvcc/src/catalog.rs:28-39 | setting an id's record in the catalog lists exactly the trees with that one set |
| Stores.ListsLookup | crates/gemgraph-mvcc/src/catalog.rs:14-24 | the catalog has a record for an id exactly when there is such a tree, and it is its root |
| Stores.FourBytesInRange | crates/gemgraph-mvcc/src/catalog.rs:42-52 | every four-byte key lies between the bounds of the catalog's listing scan |
| Catalogs.CatalogGet | crates/gemgraph-mvcc/src/catalog.rs:14-24 | gives the root of the tree with this id, or nothing |
| Catalogs.CatalogSet | crates/gemgraph-mvcc/src/catalog.rs:28-39 | afterwards the catalog lists exactly the trees with this one set, on its own and fresh pages, and the new catalog root is returned; it always fits |
| Catalogs.CatalogList | crates/gemgraph-mvcc/src/catalog.rs:42-52 | lists every tree's id and root once, in the byte order of the ids' little-endian keys |
| Catalogs.CatalogNextTreeId | crates/gemgraph-mvcc/src/catalog.rs:55-63 | the id given is greater than every id in use: one more than the largest, or 1 |
| Txns.Database.Create | crates/gemgraph-mvcc/src/database.rs:51-69 | a new database has no trees, transaction 0 and an empty log |
| Txns.Database.Open | crates/gemgraph-mvcc/src/database.rs:72-120 | for any bytes of the log: fails exactly when no slot is sound or the log holds a corrupt record; otherwise replays exactly what recovery from the meta's offset gives and saves a new meta only if there was something; with a whole log of commits alone, also after one whose meta was not written, it gives the trees under the active meta's root |
| Txns.Reopen | crates/gemgraph-mvcc/src/database.rs:72-120 | opening the files of any database at rest gives a valid database with the same trees, catalog, view and transaction id |
| Txns.Replay | crates/gemgraph-mvcc/src/database.rs:83-89 | replaying writes the recovered pages in order |
| Txns.ReplayedLast | crates/gemgraph-mvcc/src/database.rs:83-89 | after a replay each page written holds what was last written to it, and every other page what it had |
| Txns.ReadTxn.Get | crates/gemgraph-mvcc/src/txn.rs:52-65 | gives what the committed view has for the key, or that the tree does not exist, or that the key is too large |
| Txns.ReadTxn.Range | crates/gemgraph-mvcc/src/txn.rs:68-86 | lists the committed view's entries in the range in key order, each once |
| Txns.WithinLists | crates/gemgraph-btree/src/tree.rs:109-113 | selecting a range of a sorted entry list lists the map's keys in the range in order, each once |
| Txns.WriteTxn.constructor | crates/gemgraph-mvcc/src/txn.rs:39-47 | a write transaction starts from the committed state |
| Txns.WriteTxn.ResolveTreeRoot | crates/gemgraph-mvcc/src/txn.rs:234-246 | from the cache or the catalog, gives the current root of the tree, or that there is none |
| Txns.WriteTxn.CreateTree | crates/gemgraph-mvcc/src/txn.rs:107-123 | gives an id not in use, adds an empty tree under it, and changes no other tree |
| Txns.WriteTxn.Get | crates/gemgraph-mvcc/src/txn.rs:126-131 | gives what the transaction's own view has for the key |
| Txns.WriteTxn.Insert | crates/gemgraph-mvcc/src/txn.rs:134-148 | sets one key of one tree in the view, even when the root splits and the catalog is rewritten; errors leave all trees as they were, and the cached roots stay the catalog's |
| Txns.WriteTxn.Delete | crates/gemgraph-mvcc/src/txn.rs:151-164 | removes one key of one tree from the view and tells whether it was there |
| Txns.WriteTxn.Range | crates/gemgraph-mvcc/src/txn.rs:167-177 | lists the view's entries in the range in key order, each once |
| Txns.WriteTxn.RecordRoot | crates/gemgraph-mvcc/src/txn.rs:141-147 | after a tree's root moved, catalog and cache name the new root and every tree is in the file |
| Txns.WriteTxn.EnsureCatalog | crates/gemgraph-mvcc/src/txn.rs:224-230 | makes an empty catalog if there is none, and changes nothing otherwise |
| Txns.WriteTxn.Commit | crates/gemgraph-mvcc/src/txn.rs:185-210 | the transaction's view becomes the database's, under the next transaction id, with one commit logged and the meta's offset at the end of the log |
| Txns.CommitAndReopen | crates/gemgraph-mvcc/src/txn.rs:185-210 | after a commit the reopened files hold the transaction's view, under the next transaction id |
| GraphKeys.EncodeAdjacencyKey | crates/gemgraph-graph/src/keys.rs:20-34 | filling the 29-byte array field by field gives the big-endian key |
| GraphKeys.AdjRoundTrip | crates/gemgraph-graph/src/keys.rs:20-43 | decoding undoes encoding, and encoding undoes decoding for every 29-byte key with a valid direction byte |
| GraphKeys.AdjOrder | crates/gemgraph-graph/src/keys.rs:20-34 | byte order of adjacency keys is the order of (source, direction, type hash, target, edge id) |
| GraphKeys.AdjPrefixRange | crates/gemgraph-graph/src/keys.rs:46-53 | a key lies between the bounds exactly when node, direction and type hash are those asked for |
| GraphKeys.AdjDirRange | crates/gemgraph-graph/src/keys.rs:56-63 | a key lies between the bounds exactly when node and direction are those asked for |
| GraphKeys.EncodeLabelKey | crates/gemgraph-graph/src/keys.rs:72-77 | filling the 12-byte array gives the big-endian key |
| GraphKeys.LabelRoundTrip | crates/gemgraph-graph/src/keys.rs:72-83 | decoding undoes encoding and the other way round |
| GraphKeys.LabelOrder | crates/gemgraph-graph/src/keys.rs:72-77 | byte order of label keys is the order of (label hash, node id) |
| GraphKeys.LabelPrefixRange | crates/gemgraph-graph/src/keys.rs:85-91 | a key lies between the bounds exactly when the label hash is the one asked for |
| Graphs.OperationsKeepOk | crates/gemgraph-graph/src/write_txn.rs:23-190 | every operation keeps each edge's ends existing and all ids below the counters |
| Graphs.DetachedTwice | crates/gemgraph-graph/src/write_txn.rs:115-146 | removing the edges out of a node and then the edges into it removes precisely its incident edges, self-loops once |
| Graphs.PropertySetExact | crates/gemgraph-graph/src/write_txn.rs:181-190 | the graph with a property set is the only one in which reading gives the new value at that property and the old graph's answer everywhere else |
| Graphs.AdjacencyAdd | crates/gemgraph-graph/src/write_txn.rs:86-94 | adding the Out and the In entry of a new edge makes the index that of the edges with it |
| Graphs.AdjacencyDrop | crates/gemgraph-graph/src/write_txn.rs:164-170 | dropping both entries of an edge makes the index that of the edges without it |
| Graphs.AdjacencyCount | crates/gemgraph-graph/src/write_txn.rs:62-97 | an exact adjacency index has two entries for every edge, self-loops included |
| Graphs.LabelsCount | crates/gemgraph-graph/src/write_txn.rs:45-60 | an exact label index has one entry for every node |
| GraphIndexes.NodeEncoded | crates/gemgraph-graph/src/write_txn.rs:45-60 | a node record and its label entry encode the graph with that node |
| GraphIndexes.EdgeEncoded | crates/gemgraph-graph/src/write_txn.rs:76-97 | an edge record and its two adjacency entries encode the graph with that edge |
| GraphIndexes.PropertyEncoded | crates/gemgraph-graph/src/write_txn.rs:181-190 | rewriting a record under the same label keeps the encoding, now of the changed node |
| GraphIndexes.CounterEncoded | crates/gemgraph-graph/src/write_txn.rs:23-39 | writing a counter's successor encodes the graph with that id taken |
| GraphIndexes.EdgeRemoved | crates/gemgraph-graph/src/write_txn.rs:153-175 | dropping both entries and the record encodes the graph without that edge |
| GraphIndexes.ScanExact | crates/gemgraph-graph/src/read_txn.rs:48-73 | a scan of the adjacency index lists exactly the edges a full scan would select by end, direction and type hash, each once, in key order |
| GraphIndexes.LabelScanExact | crates/gemgraph-graph/src/read_txn.rs:75-87 | a scan of the label index lists exactly the nodes with that label hash, each once, in order of id |
| GraphDbs.Create | crates/gemgraph-graph/src/graph.rs:20-51 | a new graph database holds the empty graph in its five trees, with both counters at 1 |
| GraphDbs.CheckMarker | crates/gemgraph-graph/src/graph.rs:71-84 | an opened database is refused with an error when the meta tree is missing, and with another when the marker is missing or wrong; nothing changes |
| GraphDbs.Reopen | crates/gemgraph-graph/src/graph.rs:54-86 | opening the files of a graph database at rest succeeds and gives a database that holds the same graph |
| GraphTxns.GraphWriteTxn.AllocNodeId | crates/gemgraph-graph/src/write_txn.rs:23-30 | gives the next node id and takes it |
| GraphTxns.GraphWriteTxn.AllocEdgeId | crates/gemgraph-graph/src/write_txn.rs:32-39 | gives the next edge id and takes it |
| GraphTxns.GraphWriteTxn.CreateNode | crates/gemgraph-graph/src/write_txn.rs:45-60 | adds the node under a new id and keeps records and indexes exact; a record too large leaves the graph as it was but for the id taken |
| GraphTxns.GraphWriteTxn.CreateEdge | crates/gemgraph-graph/src/write_txn.rs:62-97 | adds the edge under a new id with both adjacency entries; a missing end changes nothing, a record too large only takes the id |
| GraphTxns.GraphWriteTxn.FileEdge | crates/gemgraph-graph/src/write_txn.rs:86-94 | writes the Out entry under the source and the In entry under the target |
| GraphTxns.GraphWriteTxn.DeleteNode | crates/gemgraph-graph/src/write_txn.rs:103-151 | removes the node, its label entry and precisely its incident edges with all their entries, self-loops included, and nothing else |
| GraphTxns.GraphWriteTxn.Detach | crates/gemgraph-graph/src/write_txn.rs:115-128 | one deletion loop: removes every edge on that side of the node with its record and both entries, and touches no other tree |
| GraphTxns.GraphWriteTxn.RemoveScanned | crates/gemgraph-graph/src/write_txn.rs:118-128 | one round of the loop: the reverse entry rebuilt from the scanned key, the record and the scanned entry are all of one edge |
| GraphTxns.GraphWriteTxn.DeleteEdge | crates/gemgraph-graph/src/write_txn.rs:153-175 | removes the edge with both entries, or tells that there is none |
| GraphTxns.GraphWriteTxn.SetNodeProperty | crates/gemgraph-graph/src/write_txn.rs:181-190 | afterwards a property of a node is there exactly if it was or is the one set, with the value set there and the old value everywhere else; labels, nodes, edges and counters are as before; a missing node or a record too large changes nothing |
| GraphTxns.GraphWriteTxn.Commit | crates/gemgraph-graph/src/write_txn.rs:273-276 | the graph becomes the database's |
| GraphReads.GraphReadTxn.GetNode | crates/gemgraph-graph/src/read_txn.rs:16-29 | gives the node with its label and properties, or nothing |
| GraphReads.GraphReadTxn.GetEdge | crates/gemgraph-graph/src/read_txn.rs:31-46 | gives the edge with its ends, type and properties, or nothing |
| GraphReads.GraphReadTxn.Neighbors | crates/gemgraph-graph/src/read_txn.rs:48-73 | lists exactly the edges that leave the node, or for `In` enter it, of the type hash if one is asked for, each once with its other end, in order of type hash, far end and id |
| GraphReads.NeighborsDistinct | crates/gemgraph-graph/src/read_txn.rs:48-73 | no pair occurs twice in such a list |
| GraphReads.GraphReadTxn.NodesByLabel | crates/gemgraph-graph/src/read_txn.rs:75-87 | lists exactly the nodes with that label hash, each once, in order of id |
| GraphReads.GraphReadTxn.GetNodeProperty | crates/gemgraph-graph/src/read_txn.rs:89-94 | gives the node's property, or nothing |
| Parsers.Parser.Parse | crates/gemgraph-cypher/src/parser.rs:17-26 | the statement parser accepts the token lists the grammar function accepts, with the same tree and the same tokens left, and rejects the others; it terminates on every token list |
| Parsers.Parser.ParseMatchStatement | crates/gemgraph-cypher/src/parser.rs:62-92 | agrees with the grammar function for MATCH |
| Parsers.Parser.ParseCreateStatement | crates/gemgraph-cypher/src/parser.rs:96-100 | agrees with the grammar function for CREATE |
| Parsers.Parser.ParseMergeStatement | crates/gemgraph-cypher/src/parser.rs:104-108 | agrees with the grammar function for MERGE |
| Parsers.Parser.ParseReturnClause | crates/gemgraph-cypher/src/parser.rs:112-129 | agrees with the grammar function for RETURN with LIMIT |
| Parsers.Parser.ParseItem | crates/gemgraph-cypher/src/parser.rs:131-149 | agrees with the grammar function for a return item with alias |
| Parsers.Parser.ParseAtomItem | crates/gemgraph-cypher/src/parser.rs:151-160 | agrees with the grammar function for a variable or property item |
| Parsers.Parser.ParseDeleteClause | crates/gemgraph-cypher/src/parser.rs:164-172 | agrees with the grammar function for DELETE |
| Parsers.Parser.ParsePath | crates/gemgraph-cypher/src/parser.rs:176-198 | agrees with the grammar function for path patterns |
| Parsers.Parser.ParseNode | crates/gemgraph-cypher/src/parser.rs:200-230 | agrees with the grammar function for node patterns |
| Parsers.Parser.ParseEdge | crates/gemgraph-cypher/src/parser.rs:232-288 | agrees with the grammar function for edge patterns in the three directions |
| Parsers.Parser.ParsePropertyMap | crates/gemgraph-cypher/src/parser.rs:290-311 | agrees with the grammar function for property maps, a repeated key keeping its last value |
| Parsers.Parser.ParseOrExpr | crates/gemgraph-cypher/src/parser.rs:319-327 | the loop that rebuilds the left operand agrees with the grammar function for OR |
| Parsers.Parser.ParseAndExpr | crates/gemgraph-cypher/src/parser.rs:329-337 | the loop that rebuilds the left operand agrees with the grammar function for AND |
| Parsers.Parser.ParseNotExpr | crates/gemgraph-cypher/src/parser.rs:339-347 | agrees with the grammar function for NOT |
| Parsers.Parser.ParseComparisonExpr | crates/gemgraph-cypher/src/parser.rs:349-367 | agrees with the grammar function for one comparison |
| Parsers.Parser.ParseAtomExpr | crates/gemgraph-cypher/src/parser.rs:369-419 | agrees with the grammar function for literals, variables, properties and parentheses |
| Derivations.ExprExact | crates/gemgraph-cypher/src/parser.rs:315-419 | before a token that continues no expression, the parser returns an expression and stops there if and only if the consumed tokens derive it under precedence, left association and parentheses anywhere; so it rejects the rest |
| Derivations.ExprDerived | crates/gemgraph-cypher/src/parser.rs:315-419 | whatever follows, the tokens the parser consumed derive the expression it returns |
| Derivations.DerivedParses | crates/gemgraph-cypher/src/parser.rs:315-419 | tokens that derive an expression at any precedence level parse to it, and the parser goes on with the operators that follow |
| Derivations.Unambiguous | crates/gemgraph-cypher/src/parser.rs:315-419 | no tokens derive two expressions |
| Sentences.NodeExact | crates/gemgraph-cypher/src/parser.rs:200-230 | the parser returns a node pattern and stops at a token if and only if the consumed tokens form that pattern, with or without empty braces, a repeated key taking its last value |
| Sentences.EdgeExact | crates/gemgraph-cypher/src/parser.rs:232-288 | the same for an edge in front of a node, in three directions, with or without brackets, an undirected one with or without its closing dash |
| Sentences.PathExact | crates/gemgraph-cypher/src/parser.rs:176-198 | the parser returns a path and stops at a token if and only if that token starts no edge and the consumed tokens form the path, nodes and edges in turn |
| Sentences.StatementExact | crates/gemgraph-cypher/src/parser.rs:17-172 | the parser returns a statement if and only if the tokens up to the end, or up to an Eof, form it; so it rejects all other token lists |
| Sentences.OneStatement | crates/gemgraph-cypher/src/parser.rs:17-172 | tokens form at most one statement |
| Printer.PrintDerives | crates/gemgraph-cypher/src/parser.rs:315-419 | the printed form derives the expression |
| Printer.PrintParses | crates/gemgraph-cypher/src/parser.rs:315-419 | an expression printed for any precedence level with only the parentheses it needs, followed by anything that binds no tighter, parses at that level as if the expression had just been read |
| Printer.ExprRoundTrip | crates/gemgraph-cypher/src/parser.rs:315-419 | every expression tree printed that way parses to itself and consumes exactly its tokens when no operator follows |
| Queries.NodeRoundTrip | crates/gemgraph-cypher/src/parser.rs:200-230 | every printed node pattern parses to its meaning and consumes exactly its tokens |
| Queries.EdgeRoundTrip | crates/gemgraph-cypher/src/parser.rs:232-288 | every printed edge pattern parses to itself and consumes exactly its tokens |
| Queries.PathRoundTrip | crates/gemgraph-cypher/src/parser.rs:176-288 | every printed path pattern parses to its meaning and consumes exactly its tokens when no edge follows |
| Queries.ReturnRoundTrip | crates/gemgraph-cypher/src/parser.rs:112-160 | every printable RETURN clause parses to itself at the end of the input |
| Queries.StatementRoundTrip | crates/gemgraph-cypher/src/parser.rs:17-172 | every printable statement parses to its meaning and consumes everything |
| Queries.StatementTextOf | crates/gemgraph-cypher/src/parser.rs:17-172 | every statement the parser returns, from whatever tokens, is the meaning of some printable statement text, whose print parses to it again |
| Queries.PathTextOf | crates/gemgraph-cypher/src/parser.rs:176-198 | every path, with any property maps, has a text whose meaning it is |
| Queries.ParsedShape | crates/gemgraph-cypher/src/parser.rs:176-198 | a parsed pattern always alternates nodes and edges and starts and ends with a node |
| Lexers.Lexer.Tokenize | crates/gemgraph-cypher/src/lexer.rs:66-77 | the token loop gives the tokens of the text as the lexical functions define them, or an error; it terminates on every text |
| Lexers.Lexer.SkipWhitespace | crates/gemgraph-cypher/src/lexer.rs:89-97 | skips exactly the blanks at the front |
| Lexers.Lexer.Next | crates/gemgraph-cypher/src/lexer.rs:99-154 | gives the next token and moves past it |
| Lexers.Lexer.ReadString | crates/gemgraph-cypher/src/lexer.rs:156-190 | reads up to the closing quote of the kind given, with escapes resolved; an open string is an error |
| Lexers.Lexer.ReadNumber | crates/gemgraph-cypher/src/lexer.rs:192-218 | takes the longest number and fails when its value is out of range |
| Lexers.Lexer.ReadIdentOrKeyword | crates/gemgraph-cypher/src/lexer.rs:220-250 | takes the longest word and gives a keyword in any case, or an identifier |
| Readings.TokenExact | crates/gemgraph-cypher/src/lexer.rs:99-250 | at a non-blank character the lexer gives a token and goes on behind it if and only if one of that token's texts stands there (keywords in any case, strings in either quote with any characters escaped, digits, digits with a point) and what follows may follow it |
| Readings.KeywordReads | crates/gemgraph-cypher/src/lexer.rs:230-247 | a word whose upper-case form is a keyword is read as that keyword, in whatever case it is written |
| Readings.LexExact | crates/gemgraph-cypher/src/lexer.rs:66-250 | a text is read as a list of tokens if and only if it consists of texts of those tokens with blanks anywhere between them, or none where the next may follow directly; every other text is refused |
| Readings.AsciiIsSane | crates/gemgraph-cypher/src/lexer.rs:89-250 | the assumptions on character classes hold of ASCII |
| Spelling.StringLexes | crates/gemgraph-cypher/src/lexer.rs:156-172 | a string with quotes and backslashes escaped reads back to itself |
| Spelling.NumberLexes | crates/gemgraph-cypher/src/lexer.rs:192-218 | the decimal text of every integer in 0..2^63 reads back to it |
| Spelling.TokenLexes | crates/gemgraph-cypher/src/lexer.rs:99-250 | the one-blank text of every token, followed by a blank or the end, reads back to that token |
| Spelling.LexRoundTrip | crates/gemgraph-cypher/src/lexer.rs:66-250 | the space-separated text of any list of tokens without floats gives the tokens back, for identifiers that are not keywords and integers in 0..2^63 |
| Cypher.ParseQuery | crates/gemgraph-cypher/src/executor.rs:63-68 | lexing then parsing a query gives the statement it means, or an error exactly when it has none |
| Cypher.QueryExact | crates/gemgraph-cypher/src/executor.rs:63-68 | a query text means a statement if and only if it is a text of tokens that form the statement; so every other text is refused |
| Cypher.QueryRoundTrip | crates/gemgraph-cypher/src/executor.rs:63-68 | the text of every printable, spellable statement means that statement |
| Cypher.ParsedPatternsArePaths | crates/gemgraph-cypher/src/parser.rs:62-100 | the pattern of every parsed MATCH or CREATE is a path |
| Matchers.NodeMatches | crates/gemgraph-cypher/src/executor.rs:435-456 | true exactly when the label, if given, is the node's and every given property is a literal whose value the node's property has: the same integer, string, truth value or null, or numbers that compare equal as floats |
| Matchers.ExpandPattern | crates/gemgraph-cypher/src/executor.rs:147-184 | for a path starting with a labelled node, gives exactly one binding per walk of node and edge records that matches the pattern, labels and types by hash, none missing and none repeated, in order of first node and then of the first step that differs, without the internal last-node entry; an unlabelled start is an error |
| Matchers.ExpandFirst | crates/gemgraph-cypher/src/executor.rs:186-244 | starts one walk at each node the label scan finds that has the properties, each once |
| Matchers.ExpandEdge | crates/gemgraph-cypher/src/executor.rs:246-288 | extends the list of all walks of one length to the list of all walks one step longer, with their bindings |
| Matchers.ExpandEnv | crates/gemgraph-cypher/src/executor.rs:256-288 | one binding's steps over the directions of the edge pattern: all of them, each once, forwards first and each direction in index order |
| Matchers.ExpandDirection | crates/gemgraph-cypher/src/executor.rs:262-285 | one binding's steps in one direction are exactly the neighbours whose node matches, each once |
| Matchers.StepLeads | crates/gemgraph-cypher/src/executor.rs:257-285 | a step under a pattern that points right goes from an edge's source to its target, under one that points left from its target to its source, under an undirected one either way, along edges of the type's hash to nodes that match, and along all of those |
| Matchers.FrontOk | crates/gemgraph-cypher/src/executor.rs:147-184 | a walk matches a pattern exactly when its front matches the shorter pattern and its last step the last edge and node |
| Matchers.LastNodeId | crates/gemgraph-cypher/src/executor.rs:1016-1021 | gives the node bound last, or an error |
| Bindings.NameBound | crates/gemgraph-cypher/src/executor.rs:186-288 | after expansion each name is bound to what its last occurrence in the pattern matched, and to nothing if it does not occur |
| Bindings.FaithfulExactly | crates/gemgraph-cypher/src/executor.rs:186-288 | the binding of a walk gives back every named node and edge exactly when places with one name hold the same thing in it and the reserved name is not used |
| Bindings.FaithfulAlways | crates/gemgraph-cypher/src/executor.rs:186-288 | the bindings of all walks give back every named node and edge exactly when the pattern's names are distinct and none is the reserved one |
| Bindings.RepeatedNameOverwrites | crates/gemgraph-cypher/src/executor.rs:186-288 | a graph and a pattern with a repeated name: a walk matches it, and its binding drops the walk's first node |
| NamedWalks.FirstExact | crates/gemgraph-cypher/src/executor.rs:211-233 | first nodes are found exactly by label and properties if and only if the pattern has properties or no other label in use shares the label's hash |
| NamedWalks.StepExact | crates/gemgraph-cypher/src/executor.rs:246-288 | steps are taken exactly along edges of the right type that lead, in the pattern's direction, from this node to a matching one if and only if no edge that could otherwise be stepped along has another type of the same hash |
| NamedWalks.ApartSuffices | crates/gemgraph-cypher/src/executor.rs:246-288 | that holds in particular when no other type in use shares the hash |
| NamedWalks.WalkExact | crates/gemgraph-cypher/src/executor.rs:147-288 | without such collisions a walk matches by hash exactly when it matches by labels, types, directions and properties |
| NamedWalks.ExpandedByName | crates/gemgraph-cypher/src/executor.rs:147-288 | for a labelled first node, distinct names and no collisions, expansion lists exactly one binding per walk that matches by labels, types, directions and properties, and each binding holds just the walk's nodes and edges under their names |
| NamedWalks.SameBinding | crates/gemgraph-cypher/src/executor.rs:246-288 | when every place is named, two such walks with one binding differ only in the direction they take along self-loops of undirected edge patterns |
| NamedWalks.SteppedTwice | crates/gemgraph-cypher/src/executor.rs:257-261 | the same edge is stepped along twice exactly when it is a self-loop and the pattern undirected |
| NamedWalks.LabelCollision | crates/gemgraph-cypher/src/executor.rs:211-233 | whenever two labels share a hash, a graph with a node of the one is matched by a pattern that asks for the other |
| NamedWalks.TypeCollision | crates/gemgraph-cypher/src/executor.rs:246-288 | whenever two edge types share a hash, a graph with an edge of the one is matched by a pattern that asks for the other |
| NamedWalks.HashedNamesCollide | crates/gemgraph-cypher/src/executor.rs:211-233 | with the code's hash, a node labelled `liquid` is matched by a pattern that asks for `costarring` |
| NameHashes.HashStr | crates/gemgraph-graph/src/keys.rs:4-11 | the loop over a name's bytes, exclusive or and wrapping multiplication, gives the hash function |
| NameHashes.NamesCollide | crates/gemgraph-graph/src/keys.rs:4-11 | the names `costarring` and `liquid` have the same hash |

## Left out

- Rollback on abort, isolation of readers from uncommitted writes, and crash atomicity of data pages: the trees are
  written in place and page writes are not logged, so the code does not provide them. `abort` does nothing and is not modelled.
- File I/O, fsync, I/O errors and `UnsafeCell`: the data file is a sequence of pages and the log a sequence of bytes.
- CRC32C and bincode: function parameters. Deserialization errors of records cannot occur
  for records this code wrote and are not modelled.
- Crashes.RunRestores: writes reach the disk in the order they are made, so a complete slot has its whole chain before it.
  The code syncs once, after both (crates/gemgraph-pager/src/pager.rs:209-232); a disk that reorders them is not modelled.
- Orders of hash maps: property maps and environments are maps, and a cache is a map with its LRU order beside it.
- Floats: a float is its bit pattern; comparing one with anything is a parameter of the matcher, and the lexer keeps a
  float literal's text as a parameter's result.
- WHERE evaluation, projection, LIMIT and `count`, and execution of CREATE, DELETE and MERGE: mostly one branch per case,
  and in part with an unusual meaning (crates/gemgraph-cypher/src/executor.rs:86-103, 886, 1023-1042).
- The second copy of the matcher for write transactions (crates/gemgraph-cypher/src/executor.rs:294-429) and the read
  methods of the graph write transaction (crates/gemgraph-graph/src/write_txn.rs:196-270): the same code again.
- The branch of `expand_node_read` for a node after the first of a path: parsed patterns alternate
  (`Queries.ParsedShape`), and then `expand_edge_read` consumes those nodes.
- Appending to a log that ends in a torn record: `WalWriter::open` does not trim, so what is appended after it is not found.
- Malformed pages not written by this code: `FromPage` gives an error where the code would go past the buffer and stop.
- std's binary search is the lower bound of a sorted list, which is what it returns for distinct keys.
- CLI, benchmarks, error texts, and display of values.
- BTrees.BTree.Insert: requires `InsertFits`, since otherwise the code writes past the page buffer (see
  `TreeLaws.InsertFitsExact` for the exact meaning); and page numbers below 2^32, where the code's counter overflows.
- Txns.WriteTxn.Insert: requires that the insertion fits and that page numbers stay below 2^32; likewise the other
  operations that allocate.
- Txns.WriteTxn.CreateTree: requires that the largest tree id has a successor below 2^32.
- Txns.WriteTxn.Commit: requires that transaction id and log offset stay below 2^64; likewise `Reopen` and
  `CommitAndReopen`.
- GraphTxns.GraphWriteTxn.CreateNode: requires that the record, whose size the caller chooses, fits the node tree; the
  index entries and counters always fit. Likewise `CreateEdge` and `SetNodeProperty`.
- Txns.Database.Open: replayed pages are not the meta slots, and the restored free list names distinct pages that were
  handed out, which a list damaged by a full page may not; page and transaction numbers stay in range when there is
  something to replay; a saved free list is read from pages that hold one.
- Pagers.Pager.ReadPage: says nothing about what is read from pages 0 and 1, which are written past the cache.
- Pagers.Pager.WritePage: requires a page other than 0 and 1, which only `commit_meta` writes.
- Wals.Recover: on a frame that is whole but does not decode, the reader does not move on; recovery stops there with the error.
- Wals.WalIter.Next: the loop that fills the read buffer is one bounded read.
- Matchers.ExpandPattern: the walks it lists are a ghost result, and it matches labels and types by hash, as the code
  does; `NamedWalks.ExpandedByName` is the statement by name.
