# pop exercise solutions, modelled in Dafny

This project models the sequential core of guijan/pop, a set of C solutions to the exercises of "The Practice of Programming". Each C source file is one Dafny module, and the code keeps its C form:
- code that updates state step by step becomes classes, arrays and methods with loop invariants;
- those methods are proved against specification functions, and the properties the code promises are proved as lemmas about those functions.

| module | source | what it is |
|---|---|---|
| `Common` (common.dfy) | — | the optional result that stands for a nullable pointer, bytes, C string length |
| `Chains` (chains.dfy) | — | bucket arrays of collision chains, shared by the two hash-table files |
| `NameValueTable` (nvtable.dfy) | 2-15_16_17.c | the growable chained name/value hash table: tail insertion, doubling, re-insertion through `nvlookup` |
| `Markov` (markov.dfy) | 3-2_3.c | the string-interning table and the Markov prefix→state table, the random pickers, and the prefix window of `body_work` |
| `BinTree` (btree.dfy) | 2-11_12_13.c | the generic comparator-ordered binary tree and its in-order visitor |
| `ValTree` (valtree.dfy) | 6-4.c | the byte-value frequency tree with its path-collapsing lookup |
| `LinkedList` (list.dfy) | 2-7.c, 2-7.h | the generic singly-linked list |
| `Stack` (stack.dfy) | 2-1.c | the generic stack of byte buffers, `memswap` and `ncmp` |
| `Quicksort` (quicksort.dfy) | quicksort.c | the random-pivot in-place quicksort |
| `BadSort` (badsort.dfy) | 2-4.c | `badsort` and its byte-wise `memswap` |
| `NvArray` (nvarray.dfy) | 2-6.c | the growable name/value array with reusable deleted slots |
| `Pack` (pack.dfy) | 9-1.c | the format-driven big-endian packer `packbe` |
| `Csv` (csv.dfy) | 4-1_2_3_4/csvlib.c | the in-place CSV field splitter |
| `RemoveCr` (removecr.dfy) | 8-2/removecr.c | in-place removal of carriage returns |
| `Vis` (vis.dfy) | 5-3.c | the escaping and folding filter `visbuf` |
| `MyString` (my_string.dfy) | 6-7/my_string.c | byte-loop `memcpy`, `memmove`, `memset`, `memchr` |
| `MyMemset` (my_memset.dfy) | 6-6/my_memset.c | the down-counting `memset` |
| `Timespec` (timespec.dfy) | 2-3.c | `uint32cmp` and the timespec subtraction `ts_sub` |
| `Exercises` (exercises.dfy) | 6-1.c | the factorial loop and the two string-copy loops |

Common conventions:
- A NULL pointer is `None`, or a `null` reference. A datum the caller stored, even a NULL one, comes back as `Some(..)`, so `None` always means a miss or a NULL node.
- A buffer is an `array<byte>` or the sequence of its contents.
- Allocation success, the random draws (`arc4random`) and the comparators are parameters of the operations that use them.
- Every string hash in the repository starts from 0 and only multiplies its accumulator, so it always gives bucket 0. This is proved for each hash. The hash tables themselves are proved for an arbitrary bucket function, so their chain and growth logic does not rest on the degenerate hash.

Behaviour of the code that its comments do not state, proved here as written:
- `factorial` returns n·n! rather than n!.
- `badsort` only permutes its input.
- `delname` cannot reach live entries at or above `nval`.
- `mrkv_sufrand` never picks the last suffix of a list with two or more.
- `valtree_lookup` relinks every ancestor on the search path, `valmeta_lookup` never sets the root, and `valtree_apply` always returns -1.
- `listpopmemb` can never pop the last node.
- `my_memchr` ignores its length and never matches a negative `c`.
- A quoted CSV field followed by a separator yields an extra empty field.
- `csv_setopt` returns -1 for every command.
- `fflagnl` writes the fold newline before the item whose width reaches `fflag` and restarts the width at 0, so that item's width is not counted and a line can run to nearly twice `fflag`.

`nvlookup` appends a new entry at the tail of its chain (2-15_16_17.c:84), unlike the two Markov tables, which push at the head.

## Model

| member | source | states |
|---|---|---|
| Timespec.Uint32Cmp | 2-3.c:113-124 | the result is 0, -1 or 1 exactly when a == b, a < b or a > b |
| Timespec.Uint32CmpIsOrder | 2-3.c:113-124 | uint32cmp is antisymmetric (cmp(a,b) == -cmp(b,a)) and transitive, as qsort() needs |
| Timespec.TsSub | 2-3.c:128-141 | the result denotes exactly a - b in nanoseconds; one second is borrowed iff a.nsec < b.nsec; normalized inputs give a normalized result |
| Timespec.NormalizedUnique | 2-3.c:128-141 | two normalized timespecs denoting the same instant are equal |
| Timespec.TsSubIsTheDifference | 2-3.c:128-141 | every normalized timespec denoting a - b equals ts_sub(a, b), so ts_sub computes the normalized difference |
| Exercises.Factorial | 6-1.c:6-12 | for n <= 1 the result is n itself; for n >= 2 it is n * n!, which differs from n! (the accumulator starts at n) |
| Exercises.FactStep | 6-1.c:9-10 | one loop step multiplies the accumulator by m, trading m! for (m-1)! and staying below the final product |
| Exercises.StrcpyExercise | 6-1.c:29-35 | dst receives src up to and including its NUL; no later byte of dst is written |
| Exercises.CopyLen | 6-1.c:41-45 | the number of bytes strncpy_exercise copies: at most n, none of them NUL, 0 when n <= 0, and it stops early only at a NUL |
| Exercises.StrncpyExercise | 6-1.c:38-47 | t[0..k) receives s[0..k) with k = CopyLen(s, n), t[k] becomes NUL, nothing else of t changes |
| MyMemset.MyMemset | 6-6/my_memset.c:5-11 | b[0..len) all hold (unsigned char)c, bytes from len on are unchanged, b is returned |
| MyString.MyMemcpy | 6-7/my_string.c:7-16 | dst[0..len) becomes the old src[0..len), the rest of dst is unchanged, dst is returned |
| MyString.MyMemmove | 6-7/my_string.c:19-29 | dst[0..len) becomes the ORIGINAL src[0..len) even when the ranges overlap; the rest of dst is unchanged |
| MyString.MyMemset | 6-7/my_string.c:45-54 | b[0..len) all hold c modulo 256, later bytes are unchanged, b is returned |
| MyString.MyMemchr | 6-7/my_string.c:57-65 | len is ignored: the result is the first position before the string's NUL whose byte equals c, else NULL; a negative c never matches |
| MyString.TestMemchrFindsS | 6-7/test_my_string.c:223-225 | searching "test string" for 's' finds index 2 |
| MyString.TestMemchrNegativeChar | 6-7/test_my_string.c:233-235 | searching for '\xFF' as a negative int returns NULL, not the 0xFF byte the test expects |
| RemoveCr.StripCrLength | 8-2/removecr.c:68-70 | the CR-free text holds exactly the non-CR bytes: its length is their count |
| RemoveCr.StripCrHasNoCr | 8-2/removecr.c:68-70 | no carriage return survives |
| RemoveCr.StripCrIdentity | 8-2/removecr.c:80-85 | input without a carriage return is unchanged |
| RemoveCr.StripCrIdempotent | 8-2/removecr.c:68-70 | removing carriage returns a second time changes nothing |
| RemoveCr.ShiftLeft | 8-2/removecr.c:82 | the memmove shifts buf[i+1..i+1+n) down by one and leaves the rest of buf alone |
| RemoveCr.RemoveCrBuf | 8-2/removecr.c:72-87 | buf[0..r) is the old buf[0..buflen) with every CR removed in order, r is the count of non-CR bytes, r <= buflen, nothing from buflen on is written |
| RemoveCr.DropCr | 8-2/removecr.c:81-82 | deleting the CR at i keeps buf[0..i), keeps everything from the shortened length on, and does not change the CR-free text of the rest |
| RemoveCr.KeepByte | 8-2/removecr.c:83-84 | stepping past a non-CR byte moves it into the finished CR-free prefix |
| Quicksort.Swap | quicksort.c:23-30 | v[i] and v[j] are interchanged, every other element is unchanged, the contents are a permutation of the old ones |
| Quicksort.Partition | quicksort.c:12-17 | the element drawn as pivot ends at v[last]; everything before it in the range is smaller, everything after it is not smaller; the range is a permutation of its old contents and nothing outside it changes |
| Quicksort.PartitionLoop | quicksort.c:13-16 | after the loop v[1..last] are all below v[0] and v[last+1..n) all at least v[0], v[0] unchanged, a permutation within the range |
| Quicksort.RestorePivot | quicksort.c:17 | swapping v[0] with v[last] places the pivot between the smaller and the not-smaller parts |
| Quicksort.Quicksort | quicksort.c:5-20 | v[0..n) ends sorted and a permutation of its old contents, for every pivot index arc4random_uniform(n) may return; the rest of the array is untouched; n <= 1 changes nothing |
| Quicksort.SortedAfterRecursion | quicksort.c:17-19 | sorting both sides of a partitioned range sorts the range and keeps it a permutation |
| Quicksort.LeftPartBelow | quicksort.c:18 | after the recursive calls the left part is sorted and still below the pivot, which stays in place |
| Quicksort.RightPartAtLeast | quicksort.c:19 | after the recursive calls the right part is still not smaller than the pivot |
| Quicksort.PermutationKeepsBounds | quicksort.c:18-19 | a bound on every element survives any permutation |
| Quicksort.SortedAroundPivot | quicksort.c:17-19 | a sorted smaller part, the pivot and a sorted not-smaller part concatenate to a sorted sequence |
| BadSort.MemSwap | 2-4.c:35-49 | the size-byte blocks of elements a and b are exchanged and every other byte is unchanged; a == b changes nothing |
| BadSort.SwapBytes | 2-4.c:42-48 | the byte loop exchanges two equal-length non-overlapping ranges (or leaves one range alone) |
| BadSort.SwappedBlocks | 2-4.c:24 | after memswap the sequence of elements is the old one with elements a and b exchanged, so the multiset of elements is unchanged |
| BadSort.SwappedTail | 2-4.c:24 | memswap on two of the nmemb elements does not touch any byte past them |
| BadSort.BlocksDisjoint | 2-4.c:37-38 | blocks of distinct element indices do not overlap |
| BadSort.FindSmallest | 2-4.c:19-23 | the inner loop, which scans every offset from 0, returns an offset below nmemb that no later offset beats; under a strict order no offset beats it |
| BadSort.BadSort | 2-4.c:10-26 | the elements end as a permutation of the elements the buffer started with, bytes past them are never written, and with fewer than two elements nothing changes |
| Stack.Frame.constructor | 2-1.c:13-16 | a frame links to the previous top and owns the given buffer bytes |
| Stack.GStack.constructor | 2-1.c:106-107 | a stack for buffers of size bytes with top == NULL and no contents |
| Stack.StackNew | 2-1.c:99-110 | NULL when malloc fails, otherwise an empty valid stack with bufsize == size |
| Stack.GStack.Push | 2-1.c:116-134 | on success returns 0 and the contents become a copy of base[0..bufsize) on top of the old contents; when either malloc fails returns -1 and the stack is unchanged |
| Stack.StackPop | 2-1.c:137-151 | NULL for a NULL or empty stack; otherwise the old top buffer is returned and the contents lose their first element |
| Stack.StackDel | 2-1.c:154-167 | every frame is unlinked, leaving no contents |
| Stack.PushThenPop | 2-1.c:116-151 | a pop right after a successful push returns bytes equal to the pushed ones and restores the old contents (LIFO) |
| Stack.LinkedPush | 2-1.c:128-130 | a frame whose prev is the old top heads the chain of the old frames |
| Stack.LinkedTail | 2-1.c:145-146 | below the top frame lies the chain of the remaining frames |
| Stack.MemSwap | 2-1.c:60-75 | within one buffer elements a and b are exchanged (a == b changes nothing); across two buffers each receives the other's element and nothing else changes |
| Stack.SwapAcross | 2-1.c:68-73 | the byte loop across two distinct buffers splices each element into the other buffer |
| Stack.SplicedBlock | 2-1.c:63-64 | after a swap across buffers element a of the first holds the old element b of the second |
| Stack.Ncmp | 2-1.c:86-93 | cmp applied to the size-byte elements at a * size of abase and b * size of bbase; what a memswap does to it is stated by NcmpAfterSwap and NcmpAfterSwapAcross |
| Stack.NcmpAfterSwap | 2-1.c:86-93 | after memswap within one buffer, ncmp of a against b equals the old ncmp of b against a |
| Stack.NcmpAfterSwapAcross | 2-1.c:86-93 | after memswap across two buffers, ncmp of the two elements equals the old comparison taken the other way round |
| LinkedList.Node.constructor | 2-7.h:5-9 | a node holds the data and a NULL next |
| LinkedList.ListNew | 2-7.c:22-32 | the given node is reused, or a fresh node when malloc succeeds (NULL when it fails); the node holds datap with a NULL next |
| LinkedList.GetNext | 2-7.c:35-39 | the next node, or NULL for a NULL node |
| LinkedList.SetNext | 2-7.c:46-56 | links src after dst and returns the old next, leaving the data alone; a NULL dst returns NULL |
| LinkedList.GetData | 2-7.c:94-98 | the node's data as `Some(..)`, or None (not NULL) for a NULL node |
| LinkedList.SetData | 2-7.c:101-111 | stores datap and returns the old data as `Some(..)`; a NULL node returns None (not NULL) and changes nothing |
| LinkedList.WalkToLast | 2-7.c:64-66 | the walk from any node of a NULL-terminated chain ends at its last node |
| LinkedList.Append | 2-7.c:59-69 | src's chain is linked after dst's last node and the last node of the combined chain is returned; data are unchanged; a NULL dst links nothing and returns NULL |
| LinkedList.MergeAt | 2-7.c:75-91 | the whole src chain is spliced after the node at index min(pos, len-1), that index is returned, and every other node keeps its order and data |
| LinkedList.WalkAtMost | 2-7.c:80-84 | the walk takes min(pos, len-1) steps, stopping early at the last node |
| LinkedList.MergedChain | 2-7.c:85-89 | the links left by the splice form the chain dst[..i+1] + src + dst[i+1..] |
| LinkedList.FindData | 2-7.c:117-127 | the data of the first node that cmp finds equal to datap; None (not NULL) exactly when no node matches |
| LinkedList.Len | 2-7.c:130-139 | the number of nodes of the chain |
| LinkedList.Reverse | 2-7.c:142-154 | the old last node is returned, every link is reversed over the same nodes, and the data stay in their nodes |
| LinkedList.ReversedChain | 2-7.c:142-154 | after listreverse the nodes form the chain of the reversed sequence, headed by the returned node |
| LinkedList.PopMemb | 2-7.c:162-185 | for 0 < pos < len it returns the data of 1-indexed node pos and that entry leaves the data sequence; pos == 0, or a node without successor, returns None (not NULL) and changes nothing, so the last node can never be popped |
| LinkedList.WalkPair | 2-7.c:171-176 | the walk stops with node pos and its predecessor, or NULL when the chain is shorter |
| LinkedList.PoppedChain | 2-7.c:182 | copying node pos over node pos - 1 leaves the chain without node pos |
| LinkedList.PoppedDatas | 2-7.c:177-182 | the data after the copy are the old data without entry pos - 1 |
| BinTree.BtNode.constructor | 2-11_12_13.c:44-50 | a fresh node holding datap with both children NULL |
| BinTree.New | 2-11_12_13.c:36-51 | a node holding datap with both children NULL; a NULL treep gets a fresh node, or NULL when allocation fails; a non-NULL treep is reused |
| BinTree.GetData | 2-11_12_13.c:70-75 | the node's datum as `Some(..)`, None (not NULL) for a NULL node |
| BinTree.SetData | 2-11_12_13.c:77-87 | returns the old datum as `Some(..)` and stores datap; a NULL node returns None (not NULL) and nothing changes |
| BinTree.Add | 2-11_12_13.c:53-68 | btadd(NULL, src) returns src, otherwise dst stays the root; the new tree is Graft of the old tree and src's tree under the same cmp |
| BinTree.LinkLeft | 2-11_12_13.c:62-63 | when cmp(dst, src) < 0, src is added to the left subtree and the result is the graft |
| BinTree.LinkRight | 2-11_12_13.c:64-65 | when cmp(dst, src) > 0, src is added to the right subtree and the result is the graft |
| BinTree.GraftContents | 2-11_12_13.c:59-67 | btadd adds all of src's data exactly when btlookup misses src's root datum, otherwise nothing: a tie drops src |
| BinTree.GraftOrdered | 2-11_12_13.c:61-65 | adding one node keeps the invariant: left data d have cmp(node, d) < 0, right data cmp(node, d) > 0 |
| BinTree.GraftMembers | 2-11_12_13.c:59-67 | every datum after btadd was in the tree or in the added subtree |
| BinTree.Lookup | 2-11_12_13.c:89-110 | NULL exactly when the search on the tree value misses; otherwise a node of the tree whose datum is the one found |
| BinTree.FindSound | 2-11_12_13.c:101-105 | the search returns only a datum of the tree that compares 0 to datap |
| BinTree.FindComplete | 2-11_12_13.c:94-110 | on an ordered tree with a comparator under which ties are interchangeable, the search misses iff no datum compares 0 to datap |
| BinTree.FindAfterGraft | 2-11_12_13.c:55-110 | a datum just added is found by the search: the new node, or the tie that dropped it |
| BinTree.Apply | 2-11_12_13.c:112-133 | the result and the visitor's state are those of visiting the in-order data (left, node, right) and stopping at the first nonzero result |
| BinTree.ScanConcat | 2-11_12_13.c:125-130 | visiting a concatenation visits the second part only when the first returned 0 |
| BinTree.ScanResult | 2-11_12_13.c:118-132 | the result of btapply is 0 or the value returned by some visitor call |
| BinTree.FreeAll | 2-11_12_13.c:135-142 | btapply with btfree returns 0 and frees every datum, in in-order |
| ValTree.MemCmpZero | 6-4.c:127 | memcmp over vallen bytes is 0 exactly when the first vallen bytes agree |
| ValTree.NewVal | 6-4.c:154-156 | the val array of a new node is VALSIZE bytes whose first vallen are the value's |
| ValTree.Find | 6-4.c:127-137 | the node where a memcmp search would stop holds a value comparing 0 and is in the tree |
| ValTree.LookIsFound | 6-4.c:110-138 | the node returned is the search's node with its count incremented, else a new node with count 1 when create is set and allocation works, else NULL |
| ValTree.LookMatches | 6-4.c:110-116 | a returned node holds the value looked up in its first vallen bytes |
| ValTree.AfterVals | 6-4.c:129-136 | the subtree the lookup ran on afterwards holds no value that was not in it or newly created |
| ValTree.LookVals | 6-4.c:122-137 | the subtree returned holds no value that was not in the tree or newly created |
| ValTree.CollapseDropsMiddle | 6-4.c:129-130 | looking up the deepest of three values on one path drops the middle value from the tree, contrary to the doc comment |
| ValTree.MissCutsSubtree | 6-4.c:122-125 | a miss without create still stores NULL into the link it went down through, cutting that subtree off |
| ValTree.ApplyAlwaysFails | 6-4.c:167-183 | valtree_apply returns -1 on every tree and never runs the visitor |
| ValTree.ValNode.constructor | 6-4.c:150-159 | a new node holds the given val with count 1 and both links NULL |
| ValTree.NewNode | 6-4.c:150-159 | NULL when calloc fails; otherwise a fresh node holding the first vallen bytes of the value, count 1, both links NULL |
| ValTree.Lookup | 6-4.c:117-138 | returns the subtree Look describes, and the node it ran on becomes After of its old subtree: each ancestor on the path is relinked to the result |
| ValTree.LookPrev | 6-4.c:128-130 | when memcmp < 0, prev takes the recursive result and that result is returned |
| ValTree.LookNext | 6-4.c:134-136 | when memcmp > 0, next takes the recursive result and that result is returned |
| ValTree.Apply | 6-4.c:167-183 | the result and the visitor's state are those of the value-level apply, so always -1 with the state untouched |
| ValTree.ValMeta.constructor | 6-4.c:144-146 | vallen is set and root is NULL |
| ValTree.MetaNew | 6-4.c:140-148 | NULL when calloc fails; otherwise vallen == typesize and root NULL |
| ValTree.MetaLookup | 6-4.c:104-108 | root is never updated; from an empty root each lookup returns a fresh detached node with count 1 holding the value, or NULL |
| ValTree.MetaApply | 6-4.c:161-165 | returns -1 without running the visitor |
| NvArray.LiveCount | 2-6.c:11-12 | the number of named slots never exceeds the number of slots written |
| NvArray.LiveCountUpdate | 2-6.c:44-66 | overwriting one slot changes the number of named slots by what the old and new slot contribute |
| NvArray.LiveCountAppend | 2-6.c:51 | writing the slot at the end adds one named slot exactly when the new entry is named |
| NvArray.StoredSlots | 2-6.c:44-52 | storing the entry at the scan's slot leaves the written slots as addname's specification says, with nval + 1 of them named |
| NvArray.FirstFree | 2-6.c:44-51 | the lowest index below nval whose name is NULL, or nval when every slot below it is named |
| NvArray.FindBelow | 2-6.c:61-63 | the lowest index below nval holding a live entry with that name, or nval when there is none |
| NvArray.AddedCount | 2-6.c:44-52 | storing the new entry where addname does raises the number of named slots from nval to nval + 1, keeping the count invariant |
| NvArray.ClearedCount | 2-6.c:64-65 | clearing a live entry's name lowers the number of named slots by one, as nval-- does |
| NvArray.LiveOnlyBelow | 2-6.c:44-51 | when every slot below nval is named and nval slots are named, no slot from nval on is named |
| NvArray.AddedIsFound | 2-6.c:44-63 | right after addname the new name is found by delname's search below the new nval |
| NvArray.DeleteMissesLiveEntry | 2-6.c:61 | after deleting the first of three entries nval is 2, so delname's search no longer reaches the live entry in slot 2 |
| NvArray.NvTab.constructor | 2-6.c:10-14 | the zero-initialised global: no array, nval == max == 0 |
| NvArray.NvTab.AddName | 2-6.c:21-53 | allocates NVINIT slots the first time and multiplies the capacity by NVGROW when nval >= max; stores the entry in the lowest NULL-named slot below nval, else at nval; returns the old nval and increments it, with nval <= max after; on allocation failure returns -1 and changes nothing |
| NvArray.NvTab.Reserve | 2-6.c:28-42 | makes room for one more entry (first allocation or growth), or reports the failed allocation and changes nothing |
| NvArray.NvTab.FindFree | 2-6.c:44-49 | the scan returns the lowest slot below nval whose name is NULL, or nval |
| NvArray.NvTab.Store | 2-6.c:44-52 | with room available the entry is stored where addname stores it, the old nval is returned and nval grows by one |
| NvArray.NvTab.DelName | 2-6.c:55-69 | clears the name of the first live entry below nval with an equal name, decrements nval and returns 1; returns 0 and changes nothing when there is none |
| NvArray.Realloc | 2-6.c:36-37 | a fresh array of the requested size that starts with the old contents |
| Pack.Operator | 9-1.c:88-111 | the operators table: the nine operator characters map to their operation indices, a digit maps to the repeat operation and only a digit does, every other character is invalid |
| Pack.BigEndianAt | 9-1.c:40-42 | byte k of a j-byte group is `(conv >> 8*(j-1-k)) & 0xff`, the byte the shift loop stores at that position |
| Pack.BigEndianRoundTrip | 9-1.c:40-42 | reading a j-byte group back as a big-endian number gives conv modulo 256^j |
| Pack.ConvRoundTrip | 9-1.c:32-42 | an integer conversion to the operator's unsigned type, written as a group of its size, reads back as the argument modulo 256^size |
| Pack.CString | 9-1.c:218-220 | the bytes op_string copies end with a NUL and hold no earlier NUL |
| Pack.DigitsEnd | 9-1.c:239 | strtol's end pointer: every character from pos up to it is a digit, and the character at it is not |
| Pack.IntStep | 9-1.c:35-48 | an integer operation that succeeds resets the spec to PS_INITIALIZER and steps past its operator |
| Pack.Step | 9-1.c:176-177 | every operation that succeeds moves the format pointer forward, so packbe's loop ends |
| Pack.IntGroupsSpec | 9-1.c:35-43 | an integer operation with repeat count r succeeds exactly when the next r arguments are integers, and then writes r groups of its size |
| Pack.InvalidOperatorFrom | 9-1.c:175-178 | a character that maps to op_invalid, met before the terminating NUL, makes the rest of the loop fail |
| Pack.InvalidOperatorFails | 9-1.c:186-195 | a format holding an invalid operator before its NUL makes packbe return NULL |
| Pack.Unpack | 9-1.c:40-42 | reading a format of type characters back consumes each character's group and gives one value per character |
| Pack.Encode | 9-1.c:35-43 | the groups for a format of type characters total the sum of the characters' widths |
| Pack.PackFromTypes | 9-1.c:175-180 | from any position of a format of type characters, the loop appends the encoding of the remaining characters |
| Pack.UnpackEncode | 9-1.c:40-42 | reading back the encoding of integer values gives each value modulo 256^width |
| Pack.PackRoundTrip | 9-1.c:164-184 | packbe of integers under a format of type characters succeeds, writes the sum of their widths, and each group reads back as its argument modulo 256^width |
| Pack.ZeroCountFails | 9-1.c:240-241 | a repeat count of 0 is rejected, so "0c" makes packbe return NULL |
| Pack.RepeatedShorts | 9-1.c:35-43 | "3s" consumes three arguments and writes three two-byte big-endian groups: 1, 258 and -1 become 00 01 01 02 ff ff |
| Pack.StringStopsAtNul | 9-1.c:211-226 | "S" copies the string up to and including its NUL and nothing after it |
| Pack.StoreBigEndian | 9-1.c:40-42 | the shift loop appends exactly the big-endian group of conv of the given width |
| Pack.IntOp | 9-1.c:26-49 | op_char to op_llong return 0 exactly when the step succeeds and then produce its state; otherwise -1 |
| Pack.StringOp | 9-1.c:211-226 | op_string succeeds exactly when the next argument is a string, appends its bytes through the NUL, resets the spec and steps past the operator |
| Pack.RepeatOp | 9-1.c:229-247 | op_repeat succeeds exactly when the digit run's value is in 1..LONG_MAX, and then sets the repeat count and moves to the end of the digits |
| Pack.Operation | 9-1.c:124-137 | dispatching through the operations table returns 0 exactly when the step succeeds, and then produces its state |
| Pack.PackBe | 9-1.c:164-184 | packbe returns the bytes written exactly as the loop specification Pack gives them, or NULL (None) when an operation fails |
| Vis.HexDigit | 5-3.c:147 | every hex digit is a visible character |
| Vis.ToHex | 5-3.c:144-148 | tohex writes exactly two visible characters |
| Vis.ToHexRoundTrip | 5-3.c:144-148 | the two lowercase hex digits read back give the byte |
| Vis.FflagNl | 5-3.c:153-165 | with fflag 0 nothing changes and no newline is written; otherwise a newline is written exactly when the running width reaches fflag, and then the width restarts at 0 |
| Vis.NoFoldIsUnfolded | 5-3.c:124-139 | without folding the output is each byte's text in turn, with no inserted newline |
| Vis.FoldOnlyInserts | 5-3.c:124-165 | folding only inserts newlines: removing them gives the output of the unfolded filter |
| Vis.OutputIsVisible | 5-3.c:124-139 | every character the filter emits is printable or white space |
| Vis.Filtered | 5-3.c:125 | the bytes kept with dflag are all printable or white space |
| Vis.DflagKeepsShown | 5-3.c:124-139 | with dflag and no folding the output is exactly the printable and white-space bytes, in order |
| Vis.EscapeIsAmbiguous | 5-3.c:120-137 | the escape is not reversible: the byte 0 and the four bytes `\X00` give the same output |
| Vis.VisBuf | 5-3.c:113-141 | the loop over n bytes writes exactly the rendered output the specification Pieces gives, starting from width 0 |
| Vis.VisByte | 5-3.c:125-138 | one iteration appends the text of one byte, with the fold newline before it when fflagnl writes one, and updates the running width |
| Csv.Strcspn | 4-1_2_3_4/csvlib.c:207 | strcspn never runs past the line's NUL |
| Csv.StrcspnStops | 4-1_2_3_4/csvlib.c:190 | strcspn's count is a run of characters that are neither NUL nor a separator, ended by a NUL or a separator |
| Csv.StrcspnOfRun | 4-1_2_3_4/csvlib.c:207 | conversely, such a run ended by a NUL or a separator is exactly what strcspn counts |
| Csv.Moved | 4-1_2_3_4/csvlib.c:191 | memmove keeps the buffer's length |
| Csv.MovedAt | 4-1_2_3_4/csvlib.c:191 | after memmove(s + dst, s + src, k), position x holds the source character for x in the destination range and is unchanged elsewhere |
| Csv.QuoteStep | 4-1_2_3_4/csvlib.c:187-197 | one pass of advquoted's loop keeps the line's NUL, moves j forward, and keeps the write index i at or behind j unless the field closed |
| Csv.Unquoted | 4-1_2_3_4/csvlib.c:184-200 | advquoted's result keeps the line's NUL and a field length within the line |
| Csv.UnquotedAdvances | 4-1_2_3_4/csvlib.c:187-198 | one pass of advquoted's loop keeps the result the loop is heading for |
| Csv.UnquotedEnds | 4-1_2_3_4/csvlib.c:198-199 | the field advquoted returns is at least as long as what was copied before, and is NUL-terminated at its returned length |
| Csv.FieldStep | 4-1_2_3_4/csvlib.c:171-176 | one pass of csv_splitstr's loop records a field start at or after p, whose length stays within the line |
| Csv.SplitFrom | 4-1_2_3_4/csvlib.c:170-177 | the rest of csv_splitstr's loop keeps the line's NUL in place |
| Csv.SplitFromShape | 4-1_2_3_4/csvlib.c:170-177 | the recorded offsets keep those already recorded, and each new offset is larger than the one before and inside the line |
| Csv.SplitAdvances | 4-1_2_3_4/csvlib.c:170-177 | one pass of csv_splitstr's loop records one more field and keeps the result the loop is heading for |
| Csv.SplitPlainStep | 4-1_2_3_4/csvlib.c:174-176 | over an unquoted field, csv_splitstr cuts it with a NUL, records its start and resumes one past the cut |
| Csv.SplitJoin | 4-1_2_3_4/csvlib.c:165-210 | splitting plain fields joined by a separator gives back exactly those fields, one pointer each, each pointing at its NUL-terminated text; the last field must be non-empty, since a trailing empty field is not recorded |
| Csv.SplitFieldsBound | 4-1_2_3_4/csvlib.c:170-176 | a line of length linelen never splits into more than linelen + 1 fields |
| Csv.Escape | 4-1_2_3_4/csvlib.c:188 | a quoted field's escaped text is at least as long as its text |
| Csv.QuotedFieldRoundTrip | 4-1_2_3_4/csvlib.c:184-200 | advquoted undoes the escaping: a text with its quotes doubled, then a closing quote and a separator or the line's end, comes back as the text, NUL-terminated, with its length returned |
| Csv.UnquotedAtNul | 4-1_2_3_4/csvlib.c:187-198 | at the line's NUL an unterminated quoted field ends where it is |
| Csv.UnquotedAtClose | 4-1_2_3_4/csvlib.c:188-193 | a closing quote directly followed by a separator or the NUL ends the field with nothing moved |
| Csv.QuotedFieldExtraEmpty | 4-1_2_3_4/csvlib.c:171-176 | scanning resumes one past the unescaped length, not past the consumed text, so `"ab",c` splits into "ab", an empty field and "c" |
| Csv.MoveDown | 4-1_2_3_4/csvlib.c:191 | the copy loop leaves the array as memmove does |
| Csv.CloseQuoted | 4-1_2_3_4/csvlib.c:188-193 | at a closing quote, advquoted moves the run up to the next separator or NUL down to the write index and returns its length |
| Csv.CopyQuoted | 4-1_2_3_4/csvlib.c:188-196 | at any other character, advquoted copies it, skipping the first of a doubled quote |
| Csv.QuotedStep | 4-1_2_3_4/csvlib.c:187-197 | one pass of advquoted's loop on the array does what QuoteStep says |
| Csv.AdvUnquoted | 4-1_2_3_4/csvlib.c:203-210 | advunquoted cuts the field at its first separator or NUL and returns strcspn's count, changing only that one character |
| Csv.AdvQuoted | 4-1_2_3_4/csvlib.c:183-200 | advquoted's loop leaves the array and returns the length Unquoted gives |
| Csv.NextField | 4-1_2_3_4/csvlib.c:171-175 | one pass of csv_splitstr's loop on the array does what FieldStep says |
| Csv.SplitInto | 4-1_2_3_4/csvlib.c:165-178 | csv_splitstr's loop leaves the line and the field offsets as Split gives them |
| Csv.CsvState.constructor | 4-1_2_3_4/csvlib.c:21-25 | CSV_INITIALIZER's settings once a line has been read: sline holds it, the separator is ",", field[] has 32 slots and no field is recorded |
| Csv.CsvState.SplitStr | 4-1_2_3_4/csvlib.c:164-178 | the line is cut in place and field[] holds the offsets Split gives |
| Csv.CsvState.NField | 4-1_2_3_4/csvlib.c:103-109 | splits the line on first use only, and returns the number of fields |
| Csv.CsvState.GetField | 4-1_2_3_4/csvlib.c:112-118 | returns field n's offset, or NULL (None) when n is not below the number of fields |
| Csv.CsvState.SetOpt | 4-1_2_3_4/csvlib.c:69-91 | CSV_SEP replaces the separator and records whether it was allocated; any other command changes nothing; because CSV_SEP falls into default, the result is -1 in both cases |
| NameValueTable.HashStep | 2-15_16_17.c:170 | one step of namehash stays below 2^32, as unsigned int arithmetic does |
| NameValueTable.StrHash | 2-15_16_17.c:169-170 | the unreduced hash is an unsigned int value |
| NameValueTable.StrHashZero | 2-15_16_17.c:169-170 | the accumulator starts at 0 and is only ever multiplied, so every name hashes to 0 |
| NameValueTable.NameHash | 2-15_16_17.c:165-172 | namehash returns a bucket below nmemb, the hash reduced modulo nmemb, and that bucket is always 0 |
| NameValueTable.LiteralHashSingleChain | 2-15_16_17.c:169-171 | with namehash as written every entry of the table lies in bucket 0, and every other chain is empty |
| NameValueTable.NvNew | 2-15_16_17.c:43-54 | nvnew yields an entry holding name and value exactly when a buffer is given or malloc succeeds, else NULL (None) |
| NameValueTable.NvAppend | 2-15_16_17.c:175-183 | nvappend returns dst followed by src; an empty dst gives src |
| NameValueTable.Collect | 2-15_16_17.c:128-130 | growtable's first loop gathers the chains in bucket order into one list |
| NameValueTable.FindIn | 2-15_16_17.c:72-74 | the search returns an entry of the chain with that name, and returns nothing exactly when no entry of the chain has the name |
| NameValueTable.FindUnique | 2-15_16_17.c:72-74 | in a chain without repeated names, the search for an entry's name finds that very entry |
| NameValueTable.FlattenUnique | 2-15_16_17.c:129-136 | a placed table whose chains hold no repeated names holds no repeated name at all, so growtable re-inserts every entry as new |
| NameValueTable.GrowthBound | 2-15_16_17.c:79-82 | once g reaches 2e + 2, 2^g is at least e(g + 1): the nested growths triggered during re-insertion are bounded |
| NameValueTable.NvTable.constructor | 2-15_16_17.c:95-107 | nvtnew: DEFSIZE empty buckets, lists == 0, no entries |
| NameValueTable.NvTable.FindIffPresent | 2-15_16_17.c:71-74 | a name's search in its bucket comes up empty exactly when no entry of the whole table carries that name |
| NameValueTable.NvTable.LookupFinds | 2-15_16_17.c:71-74 | every entry of the table is what a later lookup of its name returns |
| NameValueTable.NvTable.Lookup | 2-15_16_17.c:61-90 | a hit returns the entry and changes nothing, whatever create is; a miss without create returns NULL (None) unchanged; a miss with create returns nvnew's result and adds it; without growth the entry goes at the tail of its chain, and lists counts the chain only if it was empty; the table grows exactly when a new chain pushes lists over nmemb >> 1 and realloc succeeds |
| NameValueTable.NvTable.Insert | 2-15_16_17.c:76-85 | the new entry goes at the tail of its chain, or becomes the chain when the chain was empty, and then lists grows by one; the table stays placed and keeps names unique per chain |
| NameValueTable.NvTable.Clear | 2-15_16_17.c:121-132 | the doubling and memset: twice the buckets, all empty; every former entry is pending re-insertion |
| NameValueTable.NvTable.Grow | 2-15_16_17.c:116-139 | growtable succeeds exactly when realloc does; on failure nothing changes; on success the bucket count at least doubles and the table holds exactly the same entries |
| NameValueTable.NvTable.Reinsert | 2-15_16_17.c:133-137 | growtable's second loop puts every collected entry back: the table's entries grow by exactly the list's entries |
| NameValueTable.NvTable.ReinsertOne | 2-15_16_17.c:134-136 | one re-insertion through nvlookup with create set adds exactly that entry |
| NameValueTable.NvtNew | 2-15_16_17.c:95-111 | nvtnew(NULL) returns NULL exactly when malloc fails, and otherwise a fresh empty table of DEFSIZE buckets |
| NameValueTable.NvLookup | 2-15_16_17.c:61-98 | a NULL table is first replaced by a fresh one; when that allocation fails the result is NULL and no table exists; on an existing table a hit returns the entry with the table unchanged, a miss without create returns NULL with the table unchanged, and a miss with create returns the new entry (NULL if nvnew fails) and adds it to the table's entries; a fresh table then holds at most the new entry |
| Markov.HashStep | 3-2_3.c:441 | one step of the string hash stays below 2^64, as size_t arithmetic does |
| Markov.HashFromZero | 3-2_3.c:440-441 | the accumulator starts at 0 and is only ever multiplied, so every string hashes to 0 |
| Markov.PrefHashZero | 3-2_3.c:555-558 | the same holds for a whole prefix: every prefix hashes to 0 |
| Markov.StrtHashStr | 3-2_3.c:436-443 | strt_hashstr returns the string's hash reduced modulo bufnmemb, a bucket below bufnmemb, and that bucket is always 0 |
| Markov.MrkvHashState | 3-2_3.c:550-560 | mrkv_hashstate hashes the first npref strings in order, returns that hash modulo bufnmemb, and always returns bucket 0 |
| Markov.FindText | 3-2_3.c:333-335 | the strcmp search returns a node of the chain with that text, and returns nothing exactly when no node has the text |
| Markov.TextsUniquePrepend | 3-2_3.c:336-341 | pushing a string whose text its chain lacks keeps the texts of every chain distinct |
| Markov.StrlNew | 3-2_3.c:409-418 | strl_new yields a node holding str exactly when a buffer is given or malloc succeeds, else NULL (None) |
| Markov.StrTable.constructor | 3-2_3.c:379-383 | a new table has no strings, and its STRTABLEBUFNMEMB chains are all empty |
| Markov.StrTable.FindIffPresent | 3-2_3.c:331-335 | a text's search in its bucket comes up empty exactly when no string stored anywhere in the table has that text |
| Markov.StrTable.Interned | 3-2_3.c:34-36 | interning: two stored strings with equal text are the same pointer |
| Markov.StrTable.Lookup | 3-2_3.c:326-345 | a hit returns the stored node and changes nothing; a miss without create, or when malloc fails, returns NULL (None) unchanged; otherwise the caller's string is pushed at the head of its chain and nmemb grows by one |
| Markov.StrTable.Push | 3-2_3.c:339-341 | the head insertion puts the node first in its chain, counts it in nmemb, and keeps the table placed with distinct texts per chain |
| Markov.StrTable.AddStr | 3-2_3.c:353-367 | strt_addstr returns -1 exactly when the text is new and malloc fails, changing nothing; on success the caller's pointer becomes the table's pointer for that text, the caller's buffer is freed exactly when the two differ, and a new text is stored under the caller's pointer |
| Markov.StrtNew | 3-2_3.c:372-389 | strt_new(NULL) returns NULL exactly when an allocation fails, else a fresh empty table |
| Markov.MrkvState.constructor | 3-2_3.c:528-530 | a new state copies the prefix and has no suffixes |
| Markov.MrkvStateNew | 3-2_3.c:522-532 | mrkv_statenew returns NULL exactly when malloc fails, else a fresh state holding the first NPREF words and no suffixes |
| Markov.MrkvSufAdd | 3-2_3.c:480-505 | on success the word is prepended to the suffix list, with no deduplication, and 0 is returned; when malloc fails it returns -1 and the list is unchanged |
| Markov.Reservoir | 3-2_3.c:261-263 | the reservoir loop keeps the first node or one that has a successor, so a list of two or more nodes never yields its last node |
| Markov.MrkvSufRand | 3-2_3.c:254-265 | mrkv_sufrand returns a word of the suffix list, the one the reservoir loop keeps |
| Markov.FindPref | 3-2_3.c:576-578 | the prefix search returns a state of the chain with that prefix, and returns NULL exactly when no state of the chain has it |
| Markov.PrefsUniquePrepend | 3-2_3.c:580-585 | pushing a state whose prefix its chain lacks keeps the prefixes of every chain distinct |
| Markov.DistInjective | 3-2_3.c:245-246 | distinct buckets lie at distinct cyclic distances from the starting bucket |
| Markov.DistStep | 3-2_3.c:245-246 | stepping to the next bucket, wrapping at the bucket count, is one step further from the start |
| Markov.FirstChain | 3-2_3.c:245-246 | the scan from the random bucket stops at a non-empty chain, and every bucket it passed, cyclically, is empty |
| Markov.MrkvTable.constructor | 3-2_3.c:452-455 | a new Markov table has MRKVTABLEBUFNMEMB empty chains |
| Markov.MrkvTableNew | 3-2_3.c:446-462 | mrkv_tablenew returns NULL exactly when an allocation fails, else a fresh empty table |
| Markov.MrkvTable.PrefCmp | 3-2_3.c:592-602 | mrkv_prefcmp returns 0 or 1, and 0 exactly when the first npref strings of both prefixes are equal |
| Markov.MrkvTable.FindIffPresent | 3-2_3.c:574-578 | a prefix's search in its bucket comes up empty exactly when no stored state has that prefix |
| Markov.MrkvTable.Lookup | 3-2_3.c:568-589 | a hit returns the stored state and changes nothing; a miss without create, or when malloc fails, returns NULL; otherwise a fresh state with the copied prefix and no suffixes is pushed at the head of its chain; nmemb is never updated |
| Markov.MrkvTable.Push | 3-2_3.c:583-584 | the head insertion puts the state first in its chain and leaves nmemb alone |
| Markov.MrkvTable.LookupFinds | 3-2_3.c:574-578 | every stored state is what a later lookup of its prefix returns |
| Markov.FindFirst | 3-2_3.c:576-578 | in a chain of distinct prefixes, the search for a member's prefix finds that member |
| Markov.MrkvTable.PrefixRand | 3-2_3.c:238-252 | the copied prefix is that of the returned state, a state stored in the table: the one the reservoir loop keeps in the first non-empty chain at or after the random bucket, cyclically |
| Markov.WindowHoldsLastWords | 3-2_3.c:203-204 | after reading any words, the prefix window holds the last npref words of the initial window followed by them |
| Markov.ShiftWindow | 3-2_3.c:203-204 | the memmove and the store drop the oldest word and put the new word last |

## Left out

- Stream, OS and command-line plumbing is not modelled. This covers `main`, `cook_args`, `do_work`, the file loop of `body_work` apart from its prefix-window shift, `generate`, and `readword`/`skipspace` in 3-2_3.c.
- Also left out: `freq`/`printcounts` in 6-4.c; `csv_readline`, `csv_getline`, `csv_init` and `csv_destroy`; 4-1_2_3_4/csvcreate.c; 5-2.c; the removecr/addcr drivers; 8-2/misc.c; 8-2/testcr.c. They are I/O, allocation or process control.
- Csv.CsvState.constructor stands for the state `csv_init` and `csv_readline` leave after reading a line, with the allocations not modelled.
- Benchmarks and timing are not modelled: the qsort benchmark of 2-3.c, 7-2.c, 7-6.c and 1-10.c. They are clock() loops and float constants.
- `btsort` (2-11_12_13.c:155-180) is not modelled. The root's datum aliases `base[0]`, which the in-order write-back overwrites mid-traversal, and `btfree` then frees the caller's array. Only the tree operations it calls are modelled.
- `rqsort` and `iqsort` in 2-1.c are not modelled. `rqsort` recurses on `nmemb - last` without terminating when `last == 0`, and `iqsort` is compiled out.
- 2-1.c lacks the closing brace of `memswap` at line 75. This is taken as a typo.
- `unpackbe` and the `de_*` deserializers of 9-1.c are not modelled: most are never defined, and `de_char` advances no cursor, so the loop never ends.
- `nvseqaccess` (2-15_16_17.c:146-162) is not modelled. It skips bucket 0 and reads `tab[nmemb]` before its bound check.
- `nvgetval` is not modelled; it only reads a field.
- `addcrbuf` (8-2/addcr.c) is not modelled. Its memmove length can underflow and it never writes a CR, so it has no coherent behaviour to state.
- `my_memcmp` is not modelled. It returns the pointer difference `a - b` whatever the contents, which needs pointer identities rather than buffers.
- 7-1.c is not modelled; it does not compile.
- The printing helpers of 6-1.c (`putstr`, `numcmp`, `classtest`) are not modelled.
- Freeing is not modelled: `strt_free`, `strl_free`, `mrkv_tablefree`, `mrkv_statefree`, `mrkv_suffixfree`, the frees in `stackdel`, `csv_destroy`, and the old separator freed by `csv_setopt`. Dafny has no deallocation. `btfree` is modelled only as a visitor that records the datum it frees.
- Chain nodes of the two hash-table files are modelled as sequence elements, not heap nodes. Node identity, the `next` links themselves and a caller-supplied node buffer aliasing other data are not modelled.
- `Markov.Str` pairs a string's address with its text, standing for a `const char *`.
- Allocation outcomes are boolean parameters, or a size-to-bool oracle for `growtable`'s realloc; one parameter covers the allocations of one call.
- The random draws of `mrkv_prefixrand` and `mrkv_sufrand` come from an oracle. Their statistical distribution is not modelled; the pickers are not uniform.
- Markov.MrkvTable.PrefixRand requires a non-empty table; on an empty table the source loops forever.
- Markov.MrkvSufRand requires a non-empty suffix list; the source dereferences NULL on an empty one.
- MAXWORDLEN (3-2_3.c:12) is only used by `readword`, which is not modelled.
- DEFSIZE is BUFSIZ, taken as 1024.
- NameValueTable.NvTable.Grow: the size_t overflow of `nmemb << GROWBY` is not modelled; bucket counts are unbounded.
- Pack.IntOp: the conversion width is `sizes[operators[ch]]`. Line 40 of 9-1.c indexes the 8-entry `sizes` table by the raw format character, which is out of range for every operator character.
- Pack.Operator: the `operators` table has UCHAR_MAX (255) entries, so character 255 lies past its end; the model treats it as invalid.
- Pack.Operator: plain char is taken to be signed.
- Pack.IntOp: the C `int` loop counter against a `size_t` repeat count is not modelled. That matters only for counts above INT_MAX.
- Pack.PackBe: the caller's buffer is unbounded, as packbe checks no length.
- Vis.ToHex: gives the two hex digits only. The NUL that sprintf writes past the end of `hex[4]` (5-3.c:121-122, 147) is not modelled.
- Vis.VisBuf: write errors of putc/fwrite (the -1 returns) are not modelled; the output stream is an unbounded sequence.
- `tohex`, `isprint` and `isspace` follow the C locale.
- VALSIZE is taken as 8, the LP64 value of `MAX(sizeof(size_t), sizeof(void *))`.
- ValTree: the operations require `vallen <= VALSIZE` (the `typesize` given to `valmeta_new`). The source never checks it, and a larger `typesize` overflows `val[VALSIZE]` at 6-4.c:17 and 6-4.c:156.
- ValTree: the `size_t` wrap-around of `cnt` is not modelled; counts are unbounded.
- Csv.CsvState.SplitStr requires the fields to fit in `field[]`. The source never checks `nfield` against `maxfield` and would write past the array.
- Exercises.Factorial requires the result to fit in an `int`; the overflow itself is not modelled.
- Pack.IntOp: `va_arg` past the last argument, or of the wrong type, is undefined in C, and 9-1.c:24 says the integer operations never fail; the model fails the step there instead, so `packbe` returns NULL.
- Pack.StringOp: likewise, a missing or non-string argument fails the step instead of being undefined.
- MyString.MyMemcpy requires the two ranges to be disjoint, as memcpy's contract does; the byte loop itself is defined on overlapping ranges (copying downwards it behaves like memmove), and that case is not modelled.
- MyString.MyMemmove always obtains its temporary buffer; the `abort()` on a failed malloc (6-7/my_string.c:22-23) is not modelled.
- NvArray.NvTab.AddName: the `int` overflow of `nval` and of `max *= NVGROW` (2-6.c:11-12, 40) is not modelled; counts are unbounded.
- BinTree.Apply: the visitor receives the datum, not the node, and cannot change the tree. That `btapply` reads `leftp` and `rightp` before calling `fn` (2-11_12_13.c:124-130), which is what lets `btfree` free the node it visits, is not modelled.
- LinkedList.GetData, LinkedList.SetData, LinkedList.FindData, LinkedList.PopMemb, BinTree.GetData, BinTree.SetData: a NULL datum comes back as `Some(..)`, while the C returns a bare NULL that a caller cannot tell from a miss or a NULL node (2-7.c:97, 2-7.c:123-126).
- Timespec: `time_t` and `long` are unbounded integers; the overflow of `sec` is not modelled.
