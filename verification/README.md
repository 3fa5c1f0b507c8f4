# A verified model of the aulsmfs store

aulsmfs keeps its metadata in log-structured merge trees: two memory trees over three trees on disk.
This project models the store and its four layers in Dafny and proves that each layer does what the
one above it needs. `dafny verify dfyconfig.toml` checks everything.

- **Checksum** (`Crc64.dfy`): the generator of the eight tables, slicing by 8 and the bytewise form,
  all equal to the bit-serial shift register; which damage a checksum always shows.
- **Red-black tree** (`RbShape.dfy`, `RbRules.dfy`, `RbErase.dfy`, `RbTree.dfy`): nodes on the heap with
  left, right and parent links, rewritten in place. `RbShape` ties the links to an abstract shape and a
  path to the root, `RbRules` and `RbErase` hold what each step of the fix-up loops keeps.
- **Memory tree** (`MTree.dfy`): a sorted map in a red-black tree, and its cursor.
- **Disk tree**: bytes of pointers and nodes (`Codec.dfy`), the node buffer (`DiskNode.dfy`), a tree as a
  value with its flat sequence of pairs (`BTree.dfy`), the bottom-up builder (`Shelf.dfy`, `Builder.dfy`)
  and the cursor with its stack of nodes and positions (`Cursor.dfy`), over pages that can be read,
  written and reserved, each of which may fail (`Io.dfy`).
- **Store** (`Merged.dfy`, `LsmIter.dfy`, `Store.dfy`, `Lsm.dfy`): the five-way cursor as one cursor over the
  sorted union, merging one component into the next, and what a reader sees over whole runs.

## How it is modelled

A comparison function is given by ranks of keys between 0 and 1 (`Pairs.dfy`): byte strings are countable,
so every total preorder of them is one of such ranks. The place behind the last key has rank 1. The
predicate `deleted` of a merge policy is any function of a pair. Every function that mutates a struct in
the source is a method of a class with those fields, and every loop of the source is a loop, except that
where the source writes out the two memory trees and loops over the disk trees, the model loops over all
five, and where a function of `util/rbtree.c` has two mirrored halves that differ only in left and right,
`EraseFix` has one that is told the side. Buffers and arrays that the source reallocates are sequences in
fields. The colour bit packed into a parent link is a field of its own. A key and the value copied
together with it are one item. Nodes of `util/rbtree.c` and of `lib/mtree.c` are one class; its ghost
field `pos` is the rank of the key.

Ghost state ties the heap to values: `RbTree.shape`, `CtreeIter.subs` (the subtrees on the path) and
`CtreeBuilder.kids` (the subtrees already written at each level). A disk is a function from page numbers
to pages. `Stored` says that a tree is on it: each pointer leads to a node whose checksum, header and
entries are in order and whose pairs point to the subtrees. A cursor keeps working while a builder writes,
because the allocator only gives away pages that nobody holds. `Lsm.log` and `Lsm.past` record the calls on a
store and its components in between, which ties what a lookup finds to the run that led there.

Any read or write may fail, and any reservation may be refused, but nothing else may go wrong: `Io.failures`
counts failed reads and writes, and `Alloc.refusals` refusals. A cursor or a lookup reports -EIO exactly if a
read failed meanwhile (`Io.Earned`), and a build or a merge fails exactly if the device or the allocator
did (`Io.Blameless`).

## Where the code and its purpose part

The model follows the code. What that means is proved:

- `ctree_builder_finish` (lib/ctree.c:516-520) yields an empty tree when only the leaf level exists.
  `Builder.CtreeBuilder.Finish` states that the result holds the appended pairs exactly if there are none
  or one leaf could not take them all; `OneLeaf` is that condition on the pairs, one `can_append` at a
  time, and `Builder.OneLeafExact` gives it in closed form. `Store.SmallMergeLoses` is a whole family of
  stores that lose everything on their first merge, `Store.Safe` the condition under which merges keep the
  view, `Store.MergedContents` says what a merge leaves in each component, safe or not, and
  `Store.MergeViewExact` exactly when it shows.
- `ctree_ensure_entries` (lib/ctree.c:233-234, 250-251) grows to the smaller of double and need.
  `DiskNode.CtreeNode.EnsureEntries` states when that is enough. The builder therefore asks that the leaf can
  take the pair (`CtreeBuilder.Ample`), and that an entry with its key and a pointer fits into a new buffer.
  Every pair that fits into a new buffer meets the first condition in every state (`Builder.Fits`); a merge
  asks that of the pairs that it appends (`Lsm.Takes`), and adding a pair to the store asks nothing.
- `lsm_set_the_smallest` and `lsm_set_prev` (lib/lsm.c:273-297) tell a missing item by a null pointer into
  a buffer that is allocated only when an item has a byte. An item with an empty key and an empty value is
  lost while there is no buffer; `Merged.Copied` is that condition, and the contracts of `Begin`, `LowerBound`,
  `Lookup` and `Prev` of `LsmIter.LsmIter` and of `Lsm.Lsm.Find` say with it exactly when a pair is shown or found. A
  merge whose union starts with such a pair reads an empty union and clears both components:
  `Store.Legible` is the condition, and `Store.BlankLosesAll` a family of stores that lose everything so.
- `lsm_end` (lib/lsm.c:381-400) leaves the current key in place. `LsmIter.LsmIter.End` gives the end of the union
  only to a cursor that shows no item; going back afterwards goes back from the key that is still shown.
- `lsm_merge` (lib/lsm.c:171-172) changes trees with the one above the first disk tree when it is called
  for the second memory tree and the first disk tree is empty. `Store.CanMerge` leaves that call out, and
  calls for the memory tree while the second one is not empty, which the source asserts.
- `mtree_upper_bound` (lib/mtree.c:179-181) finds the last key that is not above its argument, and
  `ctree_upper_bound` (lib/ctree.c:912) reports -ENOENT when its argument is the last key of the tree, although
  it leaves the cursor at the end as it should. `MTree.MtreeIter.UpperBound` and `Cursor.CtreeIter.UpperBound` say so.
- `mtree.bytes` also grows when a pair is replaced (lib/mtree.c:134); `MTree.MTree.Add` says so.

## Model

| member | source | states |
|---|---|---|
| Crc64.ShiftsLinear | gen_crc64_table.py:7-8 | for any polynomial, the bit step of the generator, repeated, is linear over GF(2) |
| Crc64.ShiftsInjective | gen_crc64_table.py:8-32 | for any polynomial with its top bit set, repeating the bit step maps only zero to zero |
| Crc64.ShiftInjectiveExact | gen_crc64_table.py:7-8 | the bit step maps only zero to zero exactly if the polynomial has its top bit set |
| Crc64.Absorb | gen_crc64_table.py:5-9 | shifting up to 64 bits in one at a time equals adding them all at once and shifting on |
| Crc64.GenTable | gen_crc64_table.py:3-15 | for any polynomial, the loops build eight tables of 256 rows, entry `b` of table `i` being byte `b` shifted `8 * (i + 1)` times |
| Crc64.GenEntry | gen_crc64_table.py:6-9 | the inner loop shifts a byte eight times |
| Crc64.GenRow | gen_crc64_table.py:11-14 | a table from the one before: eight more steps for each entry |
| Crc64.SliceIsShifts | util/crc64.c:30-39 | the eight lookups of a word, added, are that word shifted 64 times |
| Crc64.ByteLookup | util/crc64.c:47-49 | one step of the bytewise table form is the shift register fed with that byte |
| Crc64.ChecksumWord | util/crc64.c:29-39 | eight bytes through the register equal one 64-fold shift of the little-endian word added to the state |
| Crc64.Crc64 | util/crc64.c:24-53 | with the tables of any polynomial, slicing by 8 gives the bit-serial checksum, for every initial value and every byte sequence |
| Crc64.Crc64Bytewise | util/crc64.c:6-20 | the bytewise table form in the comment gives the same checksum |
| Crc64.ChecksumConcat | inc/crc64.h:25-27 | a checksum continued over a second piece is the checksum of both |
| Crc64.Context.Update | inc/crc64.h:25-27 | an update continues the checksum in the context |
| Crc64.Stream | inc/crc64.h:19-30 | feeding a message in any pieces gives the checksum of the whole |
| Crc64.BurstDetected | gen_crc64_table.py:8-32 | for any polynomial with its top bit set, two bit messages that may differ only within 64 neighbouring bits have equal registers exactly if they are equal |
| Crc64.WindowDetected | util/crc64.c:24-53 | for any such polynomial, two messages that may differ only within 8 neighbouring bytes, at any alignment, have equal checksums exactly if they are equal |
| Crc64.CheckValue | gen_crc64_table.py:31-32 | with the polynomial of the generator, the digits 1 to 9 have the checksum 0xe9c6d914c4b8d9ca |
| RbTree.RbTree.RelinkLeft | util/rbtree.c:52-71 | exactly which links a left rotation rewrites |
| RbTree.RbTree.RelinkRight | util/rbtree.c:73-92 | exactly which links a right rotation rewrites |
| RbTree.RbTree.RotateLeft | util/rbtree.c:52-71 | in the heap, the subtree is rotated left in its place; parent links stay consistent |
| RbTree.RbTree.RotateRight | util/rbtree.c:73-92 | the same to the right |
| RbRules.RotLOrder | util/rbtree.c:52-71 | a left rotation keeps the in-order sequence |
| RbRules.RotROrder | util/rbtree.c:73-92 | a right rotation keeps it |
| RbRules.FlipKeeps | util/rbtree.c:167-177 | with a red uncle, the colour flip moves the red-red conflict two levels up and keeps the order |
| RbRules.TurnRestores | util/rbtree.c:179-186 | with a black uncle, one or two rotations and the recolouring end the conflict and keep the order |
| RbTree.RbTree.Insert | util/rbtree.c:160-210 | from a red node at a leaf position the loop restores every red-black rule, keeps the in-order sequence and terminates |
| RbTree.RbTree.Link | inc/rbtree.h:16-22 | the new red node hangs at its place, everything else as before |
| RbTree.RbTree.Add | util/rbtree.c:160-210 | link and insert put the node at its place of the order; the result is a red-black tree |
| RbRules.RbIsShallow | util/rbtree.c:160-210 | a red-black tree of `n` nodes and height `h` has `2^(ceil(h/2)) <= n + 1` |
| RbRules.BlackSibKeeps | util/rbtree.c:219-224 | a red sibling is turned into a black one; the deficit of one black stays where it is |
| RbRules.RedSibKeeps | util/rbtree.c:226-229 | reddening a sibling with black children moves the deficit to the parent |
| RbRules.FarSibKeeps | util/rbtree.c:231-236 | a rotation at the sibling makes its far child red |
| RbRules.RepairRestores | util/rbtree.c:237-243 | the last rotation makes up the deficit: a red-black tree |
| RbTree.RbTree.EraseFix | util/rbtree.c:212-279 | from one missing black at a possibly null child the loop restores every rule, keeps the in-order sequence and terminates |
| RbErase.SpliceRb | util/rbtree.c:307-324 | after taking out a node with at most one child: still red-black if it was red, else one black is missing at the child |
| RbErase.ReplaceRb | util/rbtree.c:286-306 | after the successor took the place of a node with two children: still red-black if the successor was red, else one black is missing where it was |
| RbErase.ReplaceOrder | util/rbtree.c:286-306 | the order loses exactly the erased node when its successor takes its place |
| RbErase.ReplaceAt | util/rbtree.c:286-322 | the rewritten links of that replacement form the expected tree, whether or not the successor is the right child |
| RbTree.RbTree.Erase | util/rbtree.c:281-326 | exactly the given node leaves the in-order sequence and the node set; the result is a red-black tree with consistent links |
| RbTree.RbTree.SwapNodes | util/rbtree.c:30-50 | the new node stands where the old one stood; the rest of the order and all rules are kept |
| RbErase.SwapAt | util/rbtree.c:30-50 | shape and colours are the same but for the exchanged node |
| RbTree.RbTree.Next | util/rbtree.c:124-140 | the next node of the order, or null after the last |
| RbTree.RbTree.Prev | util/rbtree.c:142-158 | the previous node of the order, or null before the first |
| RbTree.RbTree.Leftmost | util/rbtree.c:119-122 | the first node of the order |
| RbTree.RbTree.Rightmost | util/rbtree.c:114-117 | the last node of the order |
| MTree.MTree.Insert | lib/mtree.c:99-123 | the descent finds the node's place; the contents become the sorted map with the pair put in, in place of an equal key's pair |
| MTree.MTree.Add | lib/mtree.c:125-136 | the same for a key and a value; `bytes` grows by their sizes even on replacement |
| MTree.MTree.Search | lib/mtree.c:151-168 | the descent ends at the first key not below the argument, or nowhere if there is none |
| MTree.MTree.SearchUp | lib/mtree.c:170-187 | the other descent ends at the last key not above the argument, or nowhere if there is none |
| MTree.MTree.Reset | lib/mtree.c:77-84 | the tree is empty afterwards |
| MTree.MTree.IsEmpty | lib/mtree.c:86-89 | whether there is no pair |
| MTree.MTree.Swap | lib/mtree.c:91-97 | the contents change places |
| MTree.MTree.ContentsSorted | lib/mtree.c:99-123 | the contents are strictly sorted by key |
| MTree.MtreeIter.LowerBound | lib/mtree.c:151-168 | the cursor stands on the first key not below the argument, or at the end |
| MTree.MtreeIter.UpperBound | lib/mtree.c:170-187 | the cursor stands on the last key not above the argument, or at the end if there is none |
| MTree.MtreeIter.Lookup | lib/mtree.c:199-205 | 1 exactly if the map has the key, with the cursor on it, else at the end |
| MTree.MtreeIter.Next | lib/mtree.c:207-214 | one place on; at the end it stays and reports -ENOENT |
| MTree.MtreeIter.Prev | lib/mtree.c:216-226 | one place back; on the first place or in an empty tree it stays and reports -ENOENT |
| MTree.MtreeIter.Begin | lib/mtree.c:189-192 | the first place |
| MTree.MtreeIter.End | lib/mtree.c:194-197 | the place behind the last pair |
| MTree.MtreeIter.Item | lib/mtree.c:228-248 | the pair under the cursor, or none at the end |
| Pairs.PutSorted | lib/mtree.c:99-123 | putting a pair in keeps a sequence sorted |
| Pairs.GetPut | lib/mtree.c:99-136 | the put pair is found at its key and every other key as before |
| Pairs.UbIs | lib/ctree.c:892-913 | the place behind the last key not above the argument is the only one with such keys before it and none after it |
| Codec.ToByteIs | inc/aulsmfs.h:20-25 | a number below 256 is written as the byte of that value |
| Codec.FromByteIs | inc/aulsmfs.h:20-25 | a byte is read as its value |
| Codec.LeAt | inc/aulsmfs.h:20-25 | byte `i` of a stored number `x` is the digit `(x / 256^i) % 256` |
| Codec.StoreAt | inc/aulsmfs.h:20-25 | byte `i` of a stored word is the word shifted down by `8 * i`, lowest eight bits |
| Codec.EncodePtr | inc/aulsmfs.h:29-33 | the offset comes first, then the size, then the checksum, eight little-endian bytes each |
| Codec.EntryLayout | lib/ctree.c:269-285 | an entry is two bytes of key size, two bytes of value size, the key and the value |
| Codec.LeRoundTrip | inc/aulsmfs.h:20-25 | a number below `256^n` comes back from its `n` little-endian bytes; what comes back is always below `256^n` |
| Codec.PtrRoundTrip | inc/aulsmfs.h:29-33 | a pointer comes back from its 24 bytes |
| Codec.EntryRoundTrip | lib/ctree.c:269-285 | an encoded pair is read back from its place in the buffer if both sizes fit into 16 bits |
| Codec.NodeRoundTrip | lib/ctree.c:122-164 | the parsed entries are the encoded pairs exactly if every size fits into its 16 bits |
| Codec.ParsedIsShort | lib/ctree.c:132-136 | no parsed entry has a size beyond 16 bits |
| DiskNode.CtreeNode.EnsureEntries | lib/ctree.c:224-264 | each capacity that is too small becomes the smaller of its double and what is needed, so it is enough exactly if that is at most twice the old one; the contents stay |
| DiskNode.CtreeNode.Append | lib/ctree.c:266-298 | within that limit the pair is added behind the others: the buffer grows by its encoded entry, byte for byte, and buffer and entries spell the same pairs |
| DiskNode.CtreeNode.Reset | lib/ctree.c:62-72 | an empty node with the same capacities |
| DiskNode.CtreeNode.Setup | lib/ctree.c:74-84 | an empty node of one aligned 4096-byte buffer and 100 entries |
| DiskNode.CtreeNode.Write | lib/ctree.c:300-319 | the pages hold size, level and the encoded pairs at their offsets and zeros behind them, and the pointer their place, number and checksum; it leads to the node's own pairs exactly if every size fits into 16 bits; no other page is touched; an error means a failed write |
| DiskNode.WrittenNode | lib/ctree.c:300-319 | pages with a header, the encoded pairs and a matching checksum are read back as those pairs exactly if every size fits into 16 bits |
| DiskNode.HeaderRoundTrip | lib/ctree.c:303-307 | size and level are read back from the header |
| DiskNode.CtreeNode.Parse | lib/ctree.c:109-165 | succeeds exactly if the size is within the pages, the level is the expected one and the entries fit; then the entries spell the parsed pairs |
| DiskNode.CtreeNode.Read | lib/ctree.c:167-193 | a success gives the pairs that the pointer leads to, and it comes exactly if no read failed and the node is in order |
| DiskNode.DamageNoticed | lib/ctree.c:184-185 | a stored node that is damaged only within 8 neighbouring bytes is never accepted |
| DiskNode.CtreeNode.LowerBound | lib/ctree.c:662-676 | the first pair whose key is not below the argument |
| DiskNode.CtreeNode.UpperBound | lib/ctree.c:678-692 | the first pair whose key is above the argument |
| DiskNode.CtreeNode.Child | lib/ctree.c:694-704 | the decoded pointer, or -ENOBUFS exactly if the value has another size |
| DiskNode.CtreeNode.Key | lib/ctree.c:195-200 | the key of an entry is the key of the pair it spells |
| DiskNode.CtreeNode.Val | lib/ctree.c:202-207 | the value of an entry is the value of the pair it spells |
| Io.Io.Write | inc/io.h:33-40 | a successful write is read back; success or not, no page outside the range changes; every failure is counted |
| Io.Io.Read | inc/io.h:26-31 | a successful read gives the bytes of the pages; every failure is counted |
| Io.Alloc.Reserve | inc/alloc.h:33-37 | pages that nobody holds are held afterwards, or nothing changes |
| Io.Alloc.Cancel | inc/alloc.h:39-43 | exactly the pages of the range are free afterwards |
| BTree.StoredSame | lib/ctree.c:706-726 | a tree stays readable when only pages outside it change |
| BTree.FlatFirst | lib/ctree.c:416-423 | the first key below a node is the node's own first key |
| BTree.Span | lib/ctree.c:728-764 | what a path of positions leads to is the stretch of the flat sequence that the positions add up to |
| BTree.NextPlace | lib/ctree.c:766-819 | where the first level that can go on leads: just past the last pair of the leaf, or the end of the sequence if there is none |
| BTree.PrevPlace | lib/ctree.c:822-868 | where the first level that can go back leads: just before the first pair of the leaf, or nowhere if the leaf is the first |
| BTree.LbDown | lib/ctree.c:742-761 | the place of a key below a node is its place below the last child whose key is not above it, or below the first child |
| BTree.FullCount | lib/ctree.c:209-222 | a tree with at least 100 entries in every node has at least `100^(level + 1)` pairs |
| BTree.HeightBound | lib/ctree.c:503-540 | with all nodes but the last of a level that full and two entries in the root there are at least `100^level + 1` pairs |
| Builder.CtreeBuilder.Reserve | lib/ctree.c:339-377 | the ranges cover exactly the reserved pages, each counted once, whether the new range is joined to the last or added |
| Builder.CtreeBuilder.Cancel | lib/ctree.c:542-551 | every page the builder reserved is free again, and no other |
| Builder.CtreeBuilder.EnsureLevel | lib/ctree.c:431-463 | the level is there afterwards; a new one is empty, with a buffer of one aligned 4096 bytes |
| Builder.Store | lib/ctree.c:266-298 | a node with room takes the pair without outgrowing its buffer if header, pairs and the new entry are at most twice the buffer |
| Builder.OneLeafExact | lib/ctree.c:209-222 | one leaf takes all pairs exactly if there are at most a hundred, or if those after the hundredth add no page |
| Builder.CtreeBuilder.AlwaysAmple | lib/ctree.c:224-264 | a pair that fits into a new buffer can be taken at any level in any state |
| Builder.BoundedAppend | lib/ctree.c:209-222 | an append within `can_append` keeps the size bound of a node |
| Builder.BoundedBytes | lib/ctree.c:209-222 | a bounded node's size and page count fit into 64 bits: entries past the hundredth add no page |
| Builder.CtreeBuilder.AppendAt | lib/ctree.c:475-495 | the pair and the subtree it points to come last at their level; what stands at and above the level gains exactly their pairs, all nodes stay readable, and the recursion terminates |
| Builder.CtreeBuilder.Flush | lib/ctree.c:397-429 | a level is written and emptied, while what stands at and above it stays the same sequence, on exactly the pages held |
| Builder.CtreeBuilder.Append | lib/ctree.c:497-501 | the appended sequence grows by the pair; a second level exists exactly if one leaf could not take all pairs; a failure leaves other pages alone and all reserved pages accounted for |
| Builder.CtreeBuilder.FlushAll | lib/ctree.c:505-514 | the loop writes all levels but the last and terminates, adding at most one level |
| Builder.CtreeBuilder.Finish | lib/ctree.c:503-540 | the leaves of the result, left to right, are the appended pairs exactly if nothing was appended or a leaf was flushed; all leaves have one depth, inner keys are the first keys of their children, the pages held are those of the tree, the root has two entries |
| Builder.FinishedHeight | lib/ctree.c:503-540 | a built tree of height `h` has more than `100^(h - 1)` pairs |
| Builder.BetweenSmall | lib/ctree.c:516-520 | as long as one leaf is enough no page is held, and the leaf holds every appended pair |
| Shelf.TakeDirect | lib/ctree.c:485-494 | a level with room takes an item: the sequence from that level up gains the item's pairs |
| Shelf.TakenAfter | lib/ctree.c:485-494 | a level without room takes an item after it was flushed, with the same effect |
| Shelf.FlushDone | lib/ctree.c:416-427 | emptying a level whose node was handed up changes neither the sequence nor the pages held |
| Shelf.FinishStep | lib/ctree.c:509-514 | a round of the finish loop keeps its invariant, and a level is added in at most one round |
| Shelf.WrittenTree | lib/ctree.c:412-423 | a written node with the subtrees below it is a tree, and its first key with the encoded pointer an item for the level above |
| Cursor.CtreeIter.GetNode | lib/ctree.c:706-726 | the node of the level is the one the pointer leads to, read or kept |
| Cursor.CtreeIter.Descend | lib/ctree.c:728-764 | the stack leads to the leaf and the place of the key in the flat sequence |
| Cursor.CtreeIter.LowerBound | lib/ctree.c:872-890 | the first pair whose key is not below the argument, stepping into the next leaf if need be, or the end; -EIO exactly if a read failed |
| Cursor.CtreeIter.UpperBound | lib/ctree.c:892-913 | the first pair whose key is above the argument, or the end; -ENOENT exactly if the last key of the tree equals the argument |
| Cursor.CtreeIter.Lookup | lib/ctree.c:915-936 | 1 exactly if the tree has the key |
| Cursor.CtreeIter.Next | lib/ctree.c:766-820 | index `i` becomes `min(i + 1, N)`, and -ENOENT is returned exactly if `i + 1 >= N`; the stack spells the new leaf position |
| Cursor.CtreeIter.Prev | lib/ctree.c:822-870 | index `i` becomes `i - 1`, or stays 0 with -ENOENT |
| Cursor.CtreeIter.Begin | lib/ctree.c:938-966 | index 0 |
| Cursor.CtreeIter.MoveToEnd | lib/ctree.c:968-999 | index `N` |
| Cursor.CtreeIter.Item | lib/ctree.c:1001-1021 | the pair of the flat sequence at the index, or none at the end |
| Cursor.Ctree.Reset | lib/ctree.c:566-579 | the tree is the one of the pointer, or empty |
| Cursor.Ctree.IsEmpty | lib/ctree.c:581-584 | no height means no pair, and the other way round |
| Cursor.Ctree.Swap | lib/ctree.c:586-592 | the two trees change places |
| Merged.MergeGet | lib/lsm.c:247-271 | the sorted union holds for each key the pair of the first component that has it |
| Merged.FirstCurrent | lib/lsm.c:360-379 | components at the place of a bound and the smallest item chosen: the cursor is at that place of the union |
| Merged.NextCurrent | lib/lsm.c:402-469 | components moved past the key and the smallest item chosen: the cursor is one place on in the union, and again every component is at its place of the new key or just before it |
| Merged.PrevCurrent | lib/lsm.c:471-547 | components moved back before the key and the largest item chosen: one place back, with the same invariant |
| LsmIter.LsmIter.PickSmallest | lib/lsm.c:257-271 | the smallest of the items of the range, the newest of equals |
| LsmIter.LsmIter.PickPrev | lib/lsm.c:311-331 | the largest item below the last key, the newest of equals |
| LsmIter.LsmIter.SetItem | lib/lsm.c:273-297 | the copy is shown and fits the buffer, except that one without a byte is lost exactly if the buffer was never needed |
| LsmIter.LsmIter.SetTheSmallest | lib/lsm.c:247-298 | both together |
| LsmIter.LsmIter.AdvanceAt | lib/lsm.c:414-459 | a component ends just past the current key, its item noted |
| LsmIter.LsmIter.RetreatAt | lib/lsm.c:477-542 | from any place, a component ends just before the current key, where it was if that is further back, or at its start; `moved` says whether it has a pair before the key |
| LsmIter.LsmIter.Begin | lib/lsm.c:360-379 | shows the first pair of the union, unless it has no byte and there is no buffer yet; with an item shown, or an empty union, the invariant holds at index 0 |
| LsmIter.LsmIter.End | lib/lsm.c:381-400 | all components are at their ends and the shown item stays; the invariant holds, at index `N` of the union, exactly if no item is shown |
| LsmIter.LsmIter.Next | lib/lsm.c:402-469 | the invariant is kept; index `i` becomes `min(i + 1, N)`, and -ENOENT is returned exactly if `i + 1 >= N`; a cursor that shows no item stays as it is |
| LsmIter.LsmIter.Prev | lib/lsm.c:471-547 | from any places, the components go back and the largest item before the shown key is chosen; a cursor that is not further back already goes from index `i` to `i - 1`, also straight after moving the other way, and shows that pair unless it has no byte and there is no buffer yet; -ENOENT exactly at index 0 |
| LsmIter.LsmIter.StandingBack | lib/lsm.c:471-547 | a cursor that was moved either way, or placed, may go back |
| LsmIter.LsmIter.LowerBound | lib/lsm.c:554-581 | shows the first pair of the union whose key is not below the argument, with the same exception; otherwise the invariant holds at its index |
| LsmIter.LsmIter.Lookup | lib/lsm.c:612-625 | 1 exactly if some component has the key and its newest pair has a byte or there is a buffer; hit or miss, all components stand at the key's place, the first pair of the union that is not below the key is shown, with the same exception, and the invariant holds at its index, so the cursor can go on either way; -EIO exactly if a read failed |
| LsmIter.LsmIter.StillReady | lib/lsm.c:104-126 | a cursor stays usable while a builder writes to pages of its own |
| Store.RebuildKeepsView | lib/lsm.c:50-73 | a rebuild that has nothing to append, or reads its union and fills more than one leaf, leaves the view of every key as it is, deletions dropped or not |
| Store.MergeKeepsView | lib/lsm.c:149-177 | the same for a whole merge, by rebuilding or by changing places |
| Store.AllOrNothing | lib/lsm.c:50-147 | a rebuild keeps everything that it was to append, exactly if it is safe, or nothing |
| Store.RebuildViewExact | lib/lsm.c:50-147 | a rebuild leaves the view of every key as it is exactly if it is safe, or every pair that it was to append is hidden by a newer one or looks like what is deeper |
| Store.MergeViewExact | lib/lsm.c:149-177 | the same for a whole merge of any tree, in every branch |
| Store.FlushViewExact | lib/lsm.c:154-167 | with nothing deeper than the first disk tree, a merge of the memory tree leaves the view as it is exactly if it is safe |
| Store.FreezeKeepsView | lib/lsm.c:154-167 | a merge of the memory tree that fails later leaves the view as it is |
| Store.AddView | lib/lsm.c:44-48 | an added pair shows at its key and nowhere else |
| Store.SmallMergeLoses | lib/ctree.c:516-520 | merging a store of 1 to 100 pairs, none of them deleted, for the first time loses all of them |
| Store.BlankLosesAll | lib/lsm.c:247-298 | merging a store of any size for the first time loses all of it if its first pair has neither a byte of key nor of value |
| Store.FewInOneLeaf | lib/ctree.c:209-222 | a hundred pairs always go into one leaf |
| Store.RunView | lib/lsm.c:44-177 | after any run of additions, merges and failed merges that builds safely, the view of a key is the last pair added with it, unless that is a deletion |
| Store.RunLookup | lib/lsm.c:44-177 | with the default policy: a key is found exactly if it was added, with the last value added |
| Store.WantedView | lib/lsm.c:91-102 | dropping deletions when every deeper tree is empty does not show in the view |
| Store.RebuiltContents | lib/lsm.c:50-147 | a rebuild empties its source, keeps the other components, and leaves in the target nothing if it is unsafe, else at each key what the two components gave: no deleted pair if nothing is deeper, every pair otherwise |
| Store.MergedContents | lib/lsm.c:149-177 | what a whole merge does to every component, in both branches, and that changing places is always safe |
| Lsm.BuildDefault | lib/lsm.c:50-73 | the builder gets exactly the pairs of the union in order, without the deleted ones if they are to be dropped, or nothing if the cursor shows no item |
| Lsm.CallBuild | lib/lsm.c:75-89 | begin, build and finish together: the built tree holds them, unless they fit into one leaf or the first pair of the union has no byte |
| Lsm.Lsm.DropDeleted | lib/lsm.c:91-102 | whether every component from the second after `tree` on is empty |
| Lsm.Lsm.MergeInto | lib/lsm.c:104-147 | the components after a success, which are both empty if the first pair of the union has no byte; a failure frees every reserved page and changes no component and no page count, and comes exactly if the device or the allocator failed; a success holds exactly the pages of the new tree besides the old ones, and the tree counts them |
| Lsm.Lsm.Merge | lib/lsm.c:149-177 | after a success the source component is empty and the others but the target stay; an empty target of a disk tree takes its pairs and its page count; else the target holds at each key what both gave if the merge is safe, without the deletions exactly if nothing is deeper, and nothing otherwise; page counts and pages held after every branch; a failure only puts the memory tree aside and comes exactly if the device or the allocator failed; a run on record goes on if the merge is safe or fails |
| Lsm.Lsm.Add | lib/lsm.c:44-48 | any pair is put into the memory tree, and a run on record goes on |
| Lsm.Lsm.Find | lib/lsm.c:612-625 | a new cursor over all components finds the newest pair of a key exactly if that pair has a byte of key or value, and fails exactly if a read did; after any run on record that is the last pair added with the key, deletions aside |
| Lsm.AddAndMerge | lib/lsm.c:44-177 | a new store after one addition and one merge: the components on success and on failure |
| Lsm.RunFine | lib/lsm.c:44-177 | in a run that adds only pairs within the size limits every merge can be built |
| Lsm.TwoAdditions | lib/lsm.c:44-177 | a whole run from setup: after an addition, a merge and another addition the second pair is found, and the first one exactly if the merge failed; no lookup fails on a device that did not |
| Lsm.Lsm.Setup | lib/lsm.c:7-20 | an empty store of new components, with an empty record |

## Left out

- `lsm_upper_bound`: it chooses the smallest of the places that the two upper bounds above lead to, which lie
  on different sides of the key, so it is no bound of the union.
- Builder.CtreeBuilder.Append: asks that an entry with the key and a pointer fits into a new buffer; the source
  also takes a longer key whose node has grown by the time the key goes up, which depends on every later pair.
- Lsm.Lsm.MergeInto: asks that every appended pair fits into a new buffer; the source also takes a larger one
  that comes when the leaf has already grown to half its size (`CtreeBuilder.Ample` is the condition there).
- Running out of memory: every allocation succeeds. Reading, writing and reserving pages may fail at any call.
- Freeing nodes and buffers, so no statement about leaks or use after free.
- Byte offsets on a device: pages are addressed by number, and `off * page_size` does not wrap around.
- Page sizes above 4 GiB: with them the bound on the size of a node would not fit into 64 bits. `io_align` is
  modelled by rounding up, which its bit mask computes for powers of two only.
- Nodes read through a pointer whose pages do not cover a node header: the source reads beyond its buffer.
- A `build` callback other than `lsm_build_default`, and a `deleted` callback that depends on more than the pair.
- The cursor of a memory tree while that tree is changed.
- Committing reservations, freeing the pages of replaced trees, crashes and concurrency.
- `lsm_dump`, `lsm_parse`, `ctree_dump`, `ctree_parse`: field by field conversions beyond those that nodes need.
- Big-endian hosts for the checksum (util/crc64.c:23 leaves them out too).
- `lib/log.c`: there is no reader of a log to prove a round trip against.
- `fuse/main.c`, `mkfs/main.c` and `lib/file_wrappers.c`: callbacks, options and system calls.
