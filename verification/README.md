# Verified model of the Pike runtime's algorithmic core

This project models seven parts of the Pike interpreter and proves what they are for. Each is a loop
over real state (linked nodes with hand-kept reference counts, free lists inside pages, in-place
tables and string builders), held against a short mathematical statement.

| files | part |
|---|---|
| LcsSpec, DiffLinks, DiffLongest, DiffDyn, Diff | `diff()`: the stack algorithm with marks and index skipping over reference-counted links, the two-row dynamic program, and the parts built from the result |
| OrderedSequence, Permute | `longest_ordered_sequence` and `permute` |
| BaLayout, BlockPage, BlockWalk, BlockAllocator | the block allocator: layouts in 32-bit words, pages with implicit list tails, allocating, freeing, sorting and walking |
| Strings, ReplaceMany, ReplaceMeaning, RepeatedKeys | `replace()` with many keys: the prefix forest, the search that jumps along it, and what repeated keys do to it |
| Codegen, Unroll, CodeBuffer | short-circuit conditions, the copying of loop bodies at branches, for a small stack machine |
| Values, Switch, SwitchCompiler, SwitchNumbers | `switch` with ranges: checks, jump table, lookup |
| MergeArrays, MergeOrder, PikeArray, ArraySums | arrays as windows into blocks, concatenation, set operations that keep the order |
| CombinePath, PtrHash, Utf8, Utf8Codec, Utf8Validate | `combine_path_unix`, the hash tables keyed by addresses, UTF-8 |
| Basics | a few shared definitions |

Code that changes state step by step is modelled by classes, arrays and loops; each method is proved
against a function or predicate of its inputs, and the properties are lemmas about those.

## What does not hold

Each of these properties fails for the code as it is. For each there is a lemma or method with a concrete
input that shows it, and a theorem that says for all inputs when the property does hold.

- `diff()` looks for matches by identity, as `==` compares, but the run test of diff_build compares arrays, mappings
  and multisets by contents. The parts spell out a and b, and a longest common sequence with nothing in common
  elsewhere, if and only if that test never meets two elements that are alike but not the same
  (`Diff.DiffBuild`, `Diff.DiffArrays`); no such elements in a and b is enough (`Diff.NoMistakes`). Otherwise
  the first result is a by contents only (`Diff.ReadsLikeA`), and elements that match stay unmatched
  (`Diff.MistakenExample`, `Diff.MistakenDiff`).
- Allocating from a page writes behind it if and only if `BA_ONE` is on the last block of its list, with the
  allocation that takes the last free block (`BlockPage.EscapesExactly`). A cleared page is in that state
  exactly when it has a single block, and then the first allocation does it (`BlockPage.ClearedPage`).
- `ba_sort_free_list` puts `BA_ONE` on the last block exactly when that block is free and its neighbour is
  not, or the page has two blocks (`BlockWalk.SortFreeList`); a walk leaves a page safe exactly when
  `StaysSafe` says so (`BlockAllocator.Allocator.Walk`). Four blocks, of which the second and the last are
  given back, get there (`BlockAllocator.CornerReached`).
- The overflow test for large pages notices an overflow exactly when what wrapping leaves is less than the
  first page takes (`BaLayout.RejectsExactly`); an overflow it misses is `BaLayout.OverflowMissed`.
- Repeated keys make `replace()` miss longer or shorter matches. Among different strings one may be repeated
  any number of times if and only if it begins no other string and is begun by none
  (`RepeatedKeys.RepeatingIsSafeExactly`); from about as many copies as there are strings on some text goes wrong
  (`RepeatedKeys.ManyCopiesHarm`). Two mechanisms are behind it: copies without a flag
  (`RepeatedKeys.StopsTooEarlyExample`) and copies without a parent (`RepeatedKeys.LosesParentExample`).
- The lookup in switch and set tables takes floats, or arrays, to be after everything when the table holds
  smaller types and arrays, or types, but nothing else from there on: the mask for that test has a hole
  (`Values.SkipsWrongly`). An accepted switch is right on every value if and only if its ranges are the right way
  round, no two are open at the same end, and the types of its cases do not mislead the lookup
  (`Switch.RightExactlyWhenTame`); inputs are `Switch.InvertedRangeExample`, `Switch.TwoOpenEndsExample` and
  `Switch.MisledExample`.
- With the extension, `validate_utf8` rejects some strings that `utf8_to_string` accepts and that its
  documentation allows: exactly those with a plain character after a lone high surrogate
  (`Utf8Validate.ValidateUtf8`, `Utf8Validate.StrayExample`).
- Combining paths goes wrong for a relative path exactly when it stumbles: where its names have led back
  to the start, an empty component or a second `.` in a row comes before another separator, as in `././a`
  or `a/..//b`. The separator is then copied into an empty builder and the result is absolute
  (`CombinePath.AppendPath`, `CombinePath.CombinePath`, `CombinePath.StumblingPath`).

## Model

| member | source | states |
|---|---|---|
| LcsSpec.DownIsCommon | src/builtin_functions.c:7758-7955 | a sequence is common to the rows of a compare table exactly when it can be read off them backwards, which is how the stack search keeps its candidates |
| LcsSpec.UpIsCommon | src/builtin_functions.c:7971-8120 | the same for forward reading, which is how the two-row program keeps its candidates |
| LcsSpec.LongestFromDown | src/builtin_functions.c:7758-7955 | a backward-read sequence that no other exceeds in length is, reversed, a longest common sequence |
| LcsSpec.TableMeaning | src/builtin_functions.c:7534-7618 | common over the compare table of a and b means common to a and b themselves |
| DiffLinks.LinkStore.New | src/builtin_functions.c:7638-7668 | a new node comes from the free list when there is one; it is claimed by nobody and no live node changes |
| DiffLinks.LinkStore.Delete | src/builtin_functions.c:7682-7697 | freeing a node nobody claims frees exactly the chain of nodes that only it kept alive; every slot keeps its path |
| DiffLinks.LinkStore.Push | src/builtin_functions.c:7854-7881 | an empty slot gets a new path: the new element in front of the path of the slot before; all other paths stay |
| DiffLinks.LinkStore.Replace | src/builtin_functions.c:7892-7920 | a slot is overwritten with a new node, the old one released afterwards; all other paths stay |
| DiffLinks.LinkStore.Renew | src/builtin_functions.c:8030-8056 | the same with the old node released first |
| DiffLinks.LinkStore.Rewrite | src/builtin_functions.c:7882-7891 | the in-place rewrite of x when the node has one reference and already hangs on the slot before: only this slot's path changes, no chain held elsewhere does |
| DiffLinks.LinkStore.Copy | src/builtin_functions.c:8009-8029 | a slot shares another slot's node: its path becomes that one's, with exact counts |
| DiffLinks.LinkStore.LiveIsReachable | src/builtin_functions.c:7638-7697 | a live node is reachable from some slot (no leak) |
| DiffLinks.LinkStore.ReclamationIsExact | src/builtin_functions.c:7638-7697 | in every valid state the nodes reachable from the slots are exactly the live ones; each has refs equal to the number of slots and prev fields pointing at it, and none is on the free list |
| DiffLongest.PonderStack | src/builtin_functions.c:7699-7716 | the binary search returns the slot led by x, or else the first one led by more |
| DiffLongest.PonderArray | src/builtin_functions.c:7718-7734 | the binary search of a row returns the entry x, or else the first larger one among the first top |
| DiffLongest.FindPos | src/builtin_functions.c:7808-7819 | the place of an unmarked x, with the mark of the value it will displace removed: afterwards marks are set exactly for the values leading a stack slot |
| DiffLongest.SkipAhead | src/builtin_functions.c:7825-7839 | the entry inserted instead of j0 is an earlier one that belongs at the same place, and all entries in between do too |
| DiffLongest.InsertStep | src/builtin_functions.c:7794-7853 | inserting entry i settles the entries i..j at once, so that the index skipping loses no candidate |
| DiffLongest.SkipStep | src/builtin_functions.c:7794-7808 | an entry that is marked already leads a path and changes nothing |
| DiffLongest.CoversNewest | src/builtin_functions.c:7825-7833 | no sequence ending in a skipped entry ends sooner or gets longer than one ending in the inserted entry |
| DiffLongest.Put | src/builtin_functions.c:7852-7920 | new node on top, rewrite in place when unshared, otherwise a fresh node: in each case only the slot at pos changes its path |
| DiffLongest.OneRow | src/builtin_functions.c:7794-7926 | after a row the stack holds, for every length, the best ending over one more row |
| DiffLongest.ReadChain | src/builtin_functions.c:7940-7950 | the result array is the path of the top slot, reversed |
| DiffLongest.DiffLongestSequence | src/builtin_functions.c:7758-7955 | the result is strictly increasing, embeds in the compare table in order, and none longer does |
| DiffDyn.EqualCell | src/builtin_functions.c:8030-8056 | a position that occurs in the row goes in front of the best that follows both |
| DiffDyn.DifferCell | src/builtin_functions.c:8009-8029 | a position that does not occur takes over the better neighbour, which is then best |
| DiffDyn.Equal | src/builtin_functions.c:8030-8056 | the new node is filed in front of the chain below right, the other cells keep theirs |
| DiffDyn.Differ | src/builtin_functions.c:8009-8029 | the cell shares the better neighbour's chain |
| DiffDyn.OneRow | src/builtin_functions.c:7989-8083 | swapping the two rolling rows and filling one, or skipping an empty row, leaves both rows best for one more row |
| DiffDyn.DiffDynLongestSequence | src/builtin_functions.c:7971-8120 | the result of the two-row program is a longest common sequence too |
| Diff.DiffCompareTable | src/builtin_functions.c:7534-7618 | row i lists exactly the positions in b of a[i], ascending; the second result counts the different elements of b |
| Diff.PartsAreCommon | src/builtin_functions.c:8122-8189 | the equal parts of any aligned parts spell out a common sequence |
| Diff.EmbedsRest | src/builtin_functions.c:8122-8189 | the first match taken by the search leaves the rest of the sequence embedded behind it, so the next search succeeds |
| Diff.NextPlace | src/builtin_functions.c:8138-8154 | the match is taken right behind the one before when the elements are alike, else at the first that is the same; there is one, and the rest of the sequence still embeds behind it |
| Diff.PlacesFit | src/builtin_functions.c:8138-8165 | so no search of diff_build fails, whatever was mistaken before; the places ascend, and hold the elements of the sequence or ones alike |
| Diff.ReadsLikeA | src/builtin_functions.c:8138-8154 | a, with the elements at those places coming from b, is a by contents; it is a itself exactly when none of them is mistaken |
| Diff.NoMistakes | src/builtin_functions.c:8144-8144 | when elements of a and b that are alike are the same, none is mistaken |
| Diff.MistakenExample | src/builtin_functions.c:8144-8144 | two arrays p, q with the same contents: for p, c, q against q, c the longest common sequence is q alone, it is taken at p, and the first result reads q, c, q, although by contents both p and c match |
| Diff.MarkedIsCommon | src/builtin_functions.c:8122-8189 | the matching parts account for the elements that the parts share |
| Diff.SharedExtends | src/builtin_functions.c:8122-8189 | an element on both sides of a gap would make a longer common sequence |
| Diff.BuiltAlong | src/builtin_functions.c:8122-8189 | along a longest common sequence the equal parts are exactly the matching ones |
| Diff.DiffBuild | src/builtin_functions.c:8122-8189 | both results have equally many parts; the second joins to b and the first, by contents, to a; the first joins to a itself, and for a longest common sequence the equal parts spell out exactly that sequence and take turns with parts that have no element in common, if and only if the run test never takes an element for one that is alike but not the same |
| Diff.PartsBound | src/builtin_functions.c:8122-8189 | no aligned parts of the two arrays share more elements than a longest common sequence has |
| Diff.WholeParts | src/builtin_functions.c:8259-8275 | equal, or one-sided empty arrays are parts as they are |
| Diff.DiffArrays | src/builtin_functions.c:8248-8308 | diff() on every branch returns parts of a, by contents, and b, cut along a longest common sequence; they are parts of a itself that share as many elements as any can, with nothing shared elsewhere, if and only if no element is so mistaken; and none is when arrays are the same, one is empty, or alike elements of both are the same |
| Diff.MistakenDiff | src/builtin_functions.c:8248-8308 | for p, p, c, q, q against q, q, c, with p and q different arrays of the same contents, diff() does not return the best parts, whichever algorithm it uses |
| Diff.LongestEitherWay | src/builtin_functions.c:7971-8120 | on the same table both sequence algorithms return longest common sequences, of the same length |
| OrderedSequence.FindGt | src/builtin_functions.c:7418-7438 | the first place of the stack with an element greater than the new one, or top |
| OrderedSequence.StaysBest | src/builtin_functions.c:7440-7499 | putting the element there keeps, for every length, the smallest end any ordered sequence of that length has |
| OrderedSequence.OneElement | src/builtin_functions.c:7466-7481 | one round keeps the stack best, the links sound, and the chain from ltop exactly top long |
| OrderedSequence.ReadBack | src/builtin_functions.c:7483-7490 | the links lead through exactly top elements and spell out an ordered sequence |
| OrderedSequence.LongestOrderedSequence | src/builtin_functions.c:7440-7499 | the indices of a non-decreasing subsequence than which none is longer |
| Permute.PermuteInPlace | src/builtin_functions.c:8201-8233 | the in-place swaps make the permutation that the mixed-radix digits of the number describe, as the next three rows say |
| Permute.SwapAt | src/builtin_functions.c:8223-8229 | the two elements change places and all others keep theirs |
| Permute.PermutedBySwap | src/builtin_functions.c:8217-8231 | of permutation n, the remainder by the size tells which element changes places with the first; the quotient numbers what is done with the rest |
| Permute.SmallNumberSwaps | src/builtin_functions.c:8217-8231 | permutation n below the size is the array with the first element and the one at n exchanged |
| Permute.IsPermutation | src/builtin_functions.c:8201-8233 | the result has the same elements, each as often |
| Permute.NumberWrapsAround | src/builtin_functions.c:8201-8233 | only the number modulo the factorial of the size matters |
| Permute.DifferentNumbersDiffer | src/builtin_functions.c:8201-8233 | different numbers below the factorial give different permutations of distinct elements |
| Permute.EveryPermutationHasANumber | src/builtin_functions.c:8201-8233 | every permutation, of repeated elements too, is the one of some number below the factorial |
| BaLayout.PowerTest | src/block_allocator.c:207-207 | n & (n-1) is zero exactly for powers of two |
| BaLayout.InitBlocksRound | src/block_allocator.c:207-210 | the first page gets the least power of two that is not below the number of blocks asked for; beyond 2^31 just that number |
| BaLayout.InitExactly | src/block_allocator.c:201-216 | the layout ba_low_init makes has the offset of the last block and the inverse right if and only if the last block starts within 32 bits |
| BaLayout.IncExact | src/block_allocator.c:75-83 | while a page's bytes fit in 32 bits, the layout reached by stepping has offset block_size*(blocks-1) and is accepted |
| BaLayout.DecUndoesInc | src/block_allocator.c:65-83 | stepping back undoes stepping forward, while nothing overflows |
| BaLayout.RejectsExactly | src/block_allocator.c:134-179 | once a page's bytes need more than 32 bits, the overflow test notices exactly when what wrapping leaves of them is less than the first page takes |
| BaLayout.OverflowMissed | src/block_allocator.c:134-179 | 24-byte blocks, 64 on the first page: page 22 needs 6 GB, wraps to 2 GB and passes the test, and none of its blocks is where the layout has the last one |
| BaLayout.BlockNumberExact | src/block_allocator.c:53-62 | the multiply-and-shift gives k for the start of block k exactly when the scaled rounding error stays within one block |
| BaLayout.BlockNumberInRange | src/block_allocator.c:53-62 | in particular for every block that ends within 2^32 bytes |
| BlockPage.DenotesOne | src/block_allocator.c:354-379 | the words of a page denote at most one free list, implicit tail included |
| BlockPage.EscapesExactly | src/block_allocator.c:354-379 | of the next n allocations from a page one writes behind it if and only if `BA_ONE` is on the last block and all free blocks are taken |
| BlockPage.ClearedPage | src/block_allocator.c:111-131 | a cleared page denotes all of its blocks; allocations stay within it if it has two blocks or more, and the first one does not if it has one |
| BlockPage.Page.Clear | src/block_allocator.c:111-131 | all blocks become free, in order, none counted as used; the page is safe exactly when it has two blocks or more |
| BlockPage.Page.Take | src/block_allocator.c:328-379 | the head of the list is handed out and counted; the implicit tail moves on by one when the head carried `BA_ONE`; words and head are those of the unguarded step |
| BlockPage.Page.Give | src/block_allocator.c:432-435 | the block goes to the front of the list and is no longer counted |
| BlockAllocator.Allocator.constructor | src/block_allocator.c:201-225 | ba_init: an allocator starts without pages, with the layout ba_low_init makes, and is safe exactly when two blocks or more are asked for a page |
| BlockAllocator.Allocator.AllocPage | src/block_allocator.c:134-179 | a page is added with all blocks free and memory of its own; none when the page table is full or the layout looks overflowed, and then nothing changes |
| BlockAllocator.Allocator.LowAlloc | src/block_allocator.c:291-316 | alloc becomes the last page that has room, or, only when every page is full, a new one; it fails exactly when every page is full and none can be added |
| BlockAllocator.Allocator.Alloc | src/block_allocator.c:318-379 | the block handed out is the first free one of the current page when that has room, else of the last page that has any, else of a new one; it was not live, and afterwards exactly it is live in addition; it fails exactly when every page is full and none can be added |
| BlockAllocator.Allocator.FreeEmptyPages | src/block_allocator.c:181-199 | trimming drops only pages at the end without live blocks and leaves alloc and last_free valid |
| BlockAllocator.Allocator.InPageExactly | src/block_allocator.c:19-24 | the unsigned address test is true of the page a block lies in and of no other |
| BlockAllocator.Allocator.BlocksApart | src/block_allocator.c:318-379 | different blocks of an allocator share no byte |
| BlockAllocator.HalfLayout | src/block_allocator.c:64-97 | one step back from the layout of a page is that of the page before |
| BlockAllocator.Allocator.FindPage | src/block_allocator.c:382-400 | the page found is the one the address lies in, by the cached page or by the scan with the layout stepped back from page to page |
| BlockAllocator.Allocator.Free | src/block_allocator.c:382-449 | exactly the block stops being live, on all paths; when it was the last live block of the last page, that page and all empty ones before it are released, up to one with a live block; otherwise no page is |
| BlockAllocator.LiveAfterTake | src/block_allocator.c:328-379 | taking the head of a list makes just that block live |
| BlockAllocator.LiveAfterGive | src/block_allocator.c:432-435 | giving a block back makes just that block free |
| BlockAllocator.LiveAfterDrop | src/block_allocator.c:181-199 | dropping pages without live blocks changes no block's state |
| BlockAllocator.LiveAfterClear | src/block_allocator.c:435-441 | clearing a page that lists all of its blocks changes no block's state |
| BlockWalk.Ctz | src/block_allocator.c:587-617 | the first marked index from n on, below the length, found word by word although bits are set beyond the length |
| BlockWalk.MarkList | src/block_allocator.c:648-675 | the marks record exactly the listed blocks; the length cuts off what an implicit tail covers |
| BlockWalk.TrimTail | src/block_allocator.c:679-687 | cutting consecutive free blocks at the end loses none of them |
| BlockWalk.Rechain | src/block_allocator.c:691-722 | the links now lead through the marked blocks in ascending order |
| BlockWalk.SortFreeList | src/block_allocator.c:629-724 | the same blocks stay free, now ascending; BA_ONE ends up on the last block of the page exactly when that one is free and, unless the page has two blocks, its neighbour is not |
| BlockWalk.EnsureSorted | src/block_allocator.c:756-759 | a page flagged as sorted is ascending already; otherwise it is sorted now |
| BlockWalk.WalkPage | src/block_allocator.c:763-807 | the calls of a page cover every block that is handed out exactly once, ascending, and no free one; neighbouring blocks come in one call |
| BlockWalk.SeenExactly | src/block_allocator.c:763-807 | the blocks seen are those from the start to the end of each call |
| BlockAllocator.Allocator.Walk | src/block_allocator.c:743-819 | per page the callback sees exactly the live blocks, ascending; no block changes state; the last page left has a live block, and pages are released only if the last one had none; afterwards a page has `BA_ONE` off its last block exactly when that was so before, or, if the walk sorted it, when the last block is not a free one on its own |
| BlockAllocator.CornerReached | src/block_allocator.c:629-819 | a four-block page, filled, two blocks given back, then walked: handing out both free blocks writes behind the page |
| Strings.FindBinaryPrefix | src/stralloc.c:1633-1675 | 0 for equal strings, ~p when the first is smaller at p, p+1 when it is greater at p or longer |
| Strings.PrefixBetween | src/builtin_functions.c:4508-4582 | a prefix of u that is not above m begins m too, when m is not above u |
| ReplaceMany.ParentCovers | src/builtin_functions.c:4508-4582 | every key that begins key c is c, its parent, or begins the parent: the forest loses no candidate |
| ReplaceMany.AncestorIsLongest | src/builtin_functions.c:4541-4553 | going up from a key leads to its longest ancestor within the bounds asked for |
| ReplaceMany.DescendKeeps | src/builtin_functions.c:4558-4569 | moving the upper end down passes only keys above the text, and stops at an ancestor that begins it |
| ReplaceMany.JumpStep | src/builtin_functions.c:4558-4569 | a jump target is a prefix of every longer match, so that no longer match is lost below it |
| ReplaceMany.StepKeeps | src/builtin_functions.c:4521-4580 | a round of the search loses no longer match, and stops only at the longest |
| ReplaceMany.SearchIsLongest | src/builtin_functions.c:4508-4582 | with sorted keys, right links and right flags the search ends with the longest key of the range that begins the text, or -1 |
| ReplaceMany.SearchBegins | src/builtin_functions.c:4508-4582 | whatever the keys are, a hit begins the text |
| ReplaceMany.FindLongestPrefix | src/builtin_functions.c:4508-4582 | the loop computes that search, whatever the keys and links are; it terminates, and with right links finds the longest key in lo..hi that begins the text |
| ReplaceMany.ParentRight | src/builtin_functions.c:4686-4717 | each key of a sorted vector, in which no repeated key begins another or is begun by one, is linked to its longest proper prefix among the keys |
| ReplaceMany.LinksSound | src/builtin_functions.c:4686-4717 | whatever the keys are, links lead to proper prefixes |
| ReplaceMany.CompileReplaceMany | src/builtin_functions.c:4610-4721 | the compiled context for any keys: sorted, with first-character ranges, links and flags; the links are right when no repeated key begins another or is begun by one |
| ReplaceMany.LookupIsLongest | src/builtin_functions.c:4723-4760 | the hit for a text is then the longest key that begins it; looking only at keys with the same first character loses nothing |
| ReplaceMany.HitIsBest | src/builtin_functions.c:4723-4816 | a hit of the search is the string the reference picks, a miss is a miss |
| ReplaceMany.RewrittenIsReplaced | src/builtin_functions.c:4723-4816 | replacing hit by hit is leftmost-longest replacement, with the replacement for the empty key put between characters |
| ReplaceMany.ExecuteReplaceMany | src/builtin_functions.c:4723-4816 | the output is what replacing hit by hit gives, for any compiled context |
| ReplaceMany.ReplaceManyStrings | src/builtin_functions.c:4818-4856 | compile and execute together are leftmost-longest replacement, unless a repeated key begins another or is begun by one |
| ReplaceMeaning.EmptyReplIs | src/builtin_functions.c:4633-4640 | the replacement used for the empty key is the last non-empty one given for it |
| ReplaceMeaning.ReplacedIsLeftmostLongest | src/builtin_functions.c:4723-4816 | what this replacement is: the text is cut from left to right into longest keys, which are replaced, and single characters where no key begins, which stay, and the replacement for the empty key is put between each two pieces |
| ReplaceMeaning.NothingFound | src/builtin_functions.c:4787-4797 | whatever the keys are: in a text where no other key occurs, the replacement for the empty key comes between each two characters and nowhere else; without one the text stays as it is |
| RepeatedKeys.LinkIsLastCopy | src/builtin_functions.c:4686-4717 | only the last copy of a key is ever linked to, so only that one is flagged |
| RepeatedKeys.StopsTooEarly | src/builtin_functions.c:4571-4577 | probing a copy that is not the last one, the search stops there although longer keys match |
| RepeatedKeys.LosesParent | src/builtin_functions.c:4536-4554 | probing a copy that is not the first one, below the text, the search forgets the keys that begin it |
| RepeatedKeys.StopsTooEarlyExample | src/builtin_functions.c:4571-4577 | keys ab four times and abc: in abc the search finds ab |
| RepeatedKeys.LosesParentExample | src/builtin_functions.c:4536-4554 | keys a and ab three times: in ac the search finds nothing |
| RepeatedKeys.RepeatingIsSafe | src/builtin_functions.c:4610-4721 | a repeated string that neither begins another one nor is begun by one does no harm |
| RepeatedKeys.DistinctKeysReplace | src/builtin_functions.c:4610-4816 | with pairwise different keys the outcome is leftmost-longest replacement, for every text |
| RepeatedKeys.ManyCopiesHarm | src/builtin_functions.c:4610-4721 | with enough copies, a string that the repeated one begins, or that begins it, is missed in some text |
| RepeatedKeys.RepeatingIsSafeExactly | src/builtin_functions.c:4610-4721 | a string among different ones may be repeated any number of times if and only if no other begins it or is begun by it |
| Codegen.CondJumpRuns | src/docode.c:408-467 | the jump is taken exactly when the truth of the tree equals iftrue; the leaves are evaluated as in the source; with DO_POP the value is consumed, without it stays when the jump is taken |
| Codegen.SkipRuns | src/docode.c:425-433 | the case with a label behind the right operand |
| Codegen.SameRuns | src/docode.c:434-437 | the case where both operands jump to the same label |
| Codegen.ValueRuns | src/docode.c:1737-1751 | a tree compiled as a value pushes its value and evaluates its leaves as the source does |
| Codegen.BlockRuns | src/docode.c:1737-1751 | a tree compiled for effects evaluates its leaves as the source does and leaves the stack as it was |
| Codegen.SmallConditions | src/docode.c:408-467 | the instructions for a leaf, its negation, and two leaves joined by an and or an or, written out |
| Codegen.CondJumpLabels | src/docode.c:408-467 | every label placed by a condition is a fresh one, placed once |
| Unroll.StepMatches | src/docode.c:207-237 | one step of the program with the copied loop body is one step of the plain one and some label or branch steps |
| Unroll.Forward | src/docode.c:207-237 | whatever the copying program reaches, the plain one reaches at the matching place |
| Unroll.Backward | src/docode.c:207-237 | and whatever the plain program reaches, from there only labels and branches lead to a place that the copying one reaches; behind the branch, it is that very place |
| Unroll.UnrollKeepsMeaning | src/docode.c:207-237 | copying the code between a recent label and a branch back to it keeps the meaning, whatever code follows |
| Unroll.UnrollTracks | src/docode.c:207-237 | whatever state the plain program reaches, the copying one reaches one with the same stack and trace from which it shows the same; behind the branch, at the same distance from the end |
| Unroll.UnrolledUnique | src/docode.c:207-237 | copying brings no label twice |
| CodeBuffer.ExpandsKeepsMeaning | src/docode.c:207-237 | any number of such copies together keep the meaning |
| CodeBuffer.EmittedCondJump | src/docode.c:408-467 | the condition as emitted into the buffer, copies included, leaves stack and trace as the truth of the tree says; it goes to what is emitted next, or to the label when that comes later; for a label further back, to a place that shows the same as the label does without copies |
| CodeBuffer.EmittedValue | src/docode.c:1737-1751 | the same for a tree emitted for its value |
| CodeBuffer.EmittedBlock | src/docode.c:1737-1751 | the same for a tree emitted for its effects |
| CodeBuffer.EmittedOperators | src/docode.c:1737-1751 | `x && y` as emitted pushes x and stops there if x is zero, else it pushes y; an or of the two does so the other way round; `!x` pushes 1 or 0 |
| CodeBuffer.Compiler.DoBranch | src/docode.c:207-237 | the buffer grows by the branch, or by the copied instructions and the branch when the label cache is still right about the label |
| CodeBuffer.Compiler.DoCondJump | src/docode.c:408-467 | what is appended is the plain code of the condition, up to copies |
| CodeBuffer.Compiler.DoValue | src/docode.c:1737-1751 | the same for values |
| CodeBuffer.Compiler.DoCodeBlock | src/docode.c:1737-1751 | the same for effects |
| Values.OrderIsOrder | src/array.c:938-981 | the order used for tables is the stable sorting permutation |
| Values.LowLookup | src/array.c:1425-1447 | the index of a value in an ascending array, or the inverted place where it belongs |
| Values.TypedLookup | src/array.c:1425-1515 | the short cut of the second mask answers that the value is after everything; otherwise the result is its index or its place; with an exact type field the result is right if and only if the masks do not misplace the type |
| Values.SkipsWrongly | src/array.c:1507-1514 | with an exact type field the second mask is wrong exactly for floats when arrays, and for arrays when types, are all there is from there on, and a smaller type occurs |
| Switch.Dispatch | src/interpret_functions.h:1648-1658 | the pointer taken is the one for the equal case, or for the gap the value falls into, or the last one when the masks skip the search |
| Switch.RangeEnds | src/docode.c:2437-2460 | in an accepted switch the ends of a closed range are neighbours, unless its low end is the greatest value of all |
| Switch.MappingAgrees | src/docode.c:2496-2503 | the mapping form selects the label the search would have selected |
| Switch.TameSwitchIsRight | src/docode.c:2388-2522 | every value goes to the label of the case or range that contains it, else to the default, when ranges have low < high, at most one is open at each end, and the types of the cases do not mislead the lookup |
| Switch.InvertedRangeGoesWrong | src/docode.c:2437-2460 | a range with low > high that passes the checks sends its low value to its own statements, although it contains nothing |
| Switch.TwoOpenEndsGoWrong | src/docode.c:2578-2592 | with two ranges open at the same end the outermost case value satisfies only one of them |
| Switch.MisledGoesWrong | src/array.c:1481-1518 | when the types mislead the lookup, every value of that type lands above all cases, where it does not belong |
| Switch.RightExactlyWhenTame | src/docode.c:2388-2522 | an accepted switch is right on every value if and only if its ranges have low < high, at most one is open at each end, and neither floats nor arrays are misled |
| Switch.AcceptedExactlyWhenDisjoint | src/docode.c:2437-2460 | for such ranges the checks accept if and only if no value belongs to two case labels |
| Switch.InvertedRangeExample | src/docode.c:2437-2460 | case 10..5 alone is accepted |
| Switch.TwoOpenEndsExample | src/docode.c:2437-2460 | case ..9 followed by case ..5 is accepted, and 7 goes to the default |
| Switch.MisledExample | src/array.c:1507-1514 | case 0 and case A.. for an array A: every float goes to A.. instead of the default |
| SwitchCompiler.CountCases | src/docode.c:472-501 | the cases counted beforehand are the values that will be pushed, so that the table is just large enough |
| SwitchCompiler.SwitchData.PushValue | src/docode.c:2563-2574 | a value equal to an earlier one is reported |
| SwitchCompiler.SwitchData.AddCase | src/docode.c:2535-2598 | the table entries, outer labels and values after a case label are those of the labels so far |
| SwitchCompiler.SwitchData.CheckRanges | src/docode.c:2437-2460 | the loop, which skips the partner of each range start, computes the two conditions over all neighbours |
| SwitchCompiler.SwitchData.CloseTable | src/docode.c:2467-2495 | the finished table, with the outer labels set and defaults filled in; a table without ranges leads to the default from every gap |
| SwitchCompiler.SwitchData.Finish | src/docode.c:2429-2511 | accepted exactly when values are distinct and the checks hold, and then compiled |
| SwitchCompiler.CompileSwitch | src/docode.c:2388-2522 | a whole switch: accepted or not, and when accepted, right on every value if and only if its ranges and types are as above |
| SwitchNumbers.HoldsExactly | src/docode.c:2437-2495 | over numbers, a label contains those equal to it, from low to high, up to, or from the number given |
| SwitchNumbers.TypesInOrder | src/svalue.h:65-80 | integers come before floats, these before arrays, mappings, multisets, programs, strings and types |
| SwitchNumbers.TameExactly | src/docode.c:2437-2495 | over numbers, the ranges are the right way round exactly when low < high |
| SwitchNumbers.DisjointExactly | src/docode.c:2437-2495 | and no value is in two ranges exactly when no number is |
| SwitchNumbers.SwitchOnNumber | src/docode.c:2388-2522 | a switch over integers or floats, compiled and run: with ranges low < high and at most one open at each end it compiles exactly when no number is in two of them, and then each number goes to the label whose range it is in, else to the default |
| MergeArrays.Merge | src/array.c:1675-1739 | the zipper names exactly the elements the operation keeps, each once, also on the short cuts for arrays without a common type |
| MergeArrays.ZipA | src/array.c:1712-1733 | an element of a stays as the operation's rule on earlier equals and on equals in b says |
| MergeArrays.ZipB | src/array.c:1712-1733 | the same for elements of b |
| MergeOrder.SortedTally | src/array.c:1994-2011 | in the stably sorted copy as many equal elements come before an element as in the original |
| MergeOrder.SortedZipperSpells | src/array.c:2036-2040 | the zipper sorted by original position spells out the kept elements of a in order, then those of b |
| MergeOrder.MergeArrayWithOrder | src/array.c:1986-2046 | the result is the kept part of a followed by the kept part of b, each in its original order; which copies are kept is said, operation by operation, in the rows below |
| MergeOrder.MultiplicityLaw | src/array.h:75-86 | copies of each value: AND and AND_LEFT min, OR and OR_LEFT max, XOR the difference, ADD the sum, SUB all or none |
| MergeOrder.OrLeftOrder | src/array.h:75-86 | OR_LEFT: all of a, then in order the elements of b with at least as many equal ones before them in b as there are in a |
| MergeOrder.OrOrder | src/array.h:75-86 | OR: such elements of a in order, then all of b |
| MergeOrder.AndLeftOrder | src/array.h:75-86 | AND_LEFT: in order, of each value the first copies in a, as many as b has at most |
| MergeOrder.AndOrder | src/array.h:75-86 | AND: the same with the arrays exchanged |
| MergeOrder.XorOrder | src/array.h:75-86 | XOR: what a has more copies of, then what b has more copies of, each in order |
| MergeOrder.SubOrder | src/array.h:75-86 | SUB: the elements of a that are not in b, in order |
| MergeOrder.NothingInCommon | src/array.h:75-86 | ADD, and the unions of arrays with nothing in common, are concatenation |
| MergeOrder.SubIsWithout | src/array.c:2161-2186 | subtraction by merging is plain removal of the values of b |
| ArraySums.SubtractArrayValue | src/array.c:2059-2153 | removal of one value, in place or into a new array; a shared array is left alone and the type field stays right |
| ArraySums.SubtractArrays | src/array.c:2161-2186 | the single-value route, the disjoint-types route and the merge all remove exactly the values of b |
| PikeArray.Array.RoomInPlace | src/array.c:446-456 | moving the part below or above makes room for one element at the index, the window staying inside the block |
| PikeArray.Insert | src/array.c:436-487 | the result is the old elements with the value put in at the index: in place exactly when the array is unshared and its block has room, else in a new block; a shared array is left alone |
| PikeArray.Shrink | src/array.c:592-637 | the elements up to the new size; a smaller block exactly when less than a quarter would be used |
| PikeArray.Resize | src/array.c:642-677 | the elements cut off, or followed by zeros; in place exactly when the block has room behind them, or shrinking leaves it used enough |
| PikeArray.Remove | src/array.c:689-728 | the elements without the one at the index; in place exactly when the block stays used enough, else in a smaller one |
| PikeArray.Slice | src/array.c:786-823 | the elements start..end; the window is narrowed exactly when the array is unshared and enough of its block stays used, else they are copied and the array keeps its elements |
| ArraySums.FindRoom | src/array.c:1786-1833 | the first unshared operand with room on both sides, else the longest one whose block is large enough, else none |
| ArraySums.JoinInPlace | src/array.c:1793-1860 | filling around an operand in its own block gives the concatenation |
| ArraySums.AddArrays | src/array.c:1772-1892 | concatenation on every route: in the block of an operand whenever there is an unshared one large enough, else behind the resized first operand, or in a new array; shared operands keep their elements |
| CombinePath.ResolveJoin | src/combine_path.h:101-293 | a path followed by a separator and another path is resolved one after the other |
| CombinePath.ComponentLaws | src/combine_path.h:101-293 | a name leads one directory down; an empty component and "." change nothing; a name and ".." cancel |
| CombinePath.StartLaws | src/combine_path.h:221-268 | ".." stays at the root; at the start of a relative path, and behind others there, it is kept |
| CombinePath.WrittenLaws | src/combine_path.h:275-293 | how lists of names are written: each name followed by a separator, "/" for the root, "." or "./" for no names |
| CombinePath.CanonicalExample | src/testsuite.in:13086-13086 | `/./foo/bar//gazonk/../` gives `/foo/bar/` |
| CombinePath.ResolveIsClean | src/builtin_functions.c:1620-1628 | no name of a resolved path is empty or "."; ".." is left only at the front of a relative one |
| CombinePath.ResolveRender | src/combine_path.h:275-293 | reading a written path back gives its names, and it is absolute, and ends in a separator, as asked |
| CombinePath.CanonicalIdempotent | src/combine_path.h:101-293 | canonical paths are fixed points, and a path and its canonical form name the same directory |
| CombinePath.CanonicalStep | src/combine_path.h:295-375 | it makes no difference, to the result and to whether the path stumbles, whether the front part is canonical already |
| CombinePath.PlainNeverStumbles | src/combine_path.h:160-274 | a relative path whose components before the last are neither empty nor "." never stumbles |
| CombinePath.CanonicalNeverStumbles | src/combine_path.h:160-274 | nor does a canonical one, so combining a relative result again leaves it unchanged |
| CombinePath.StumblingPath | src/combine_path.h:190-193 | `././a` stumbles, and should have given `a` |
| CombinePath.Tidy | src/combine_path.h:183-203 | ending separators are reduced to one and no name is lost; a lone "./" disappears |
| CombinePath.ParentEnd | src/combine_path.h:221-243 | the length to which ".." cuts the builder is that of the parent directory, never past the root; the test for keeping ".." holds exactly after another ".." |
| CombinePath.DotStep | src/combine_path.h:205-268 | a "." or ".." at the start of a component is resolved; what is left to be copied is no "." or "..", unless nothing can be removed |
| CombinePath.PushSep | src/combine_path.h:272-273 | copying a separator completes a name; into an empty builder it makes a relative path absolute, and then the path stumbles |
| CombinePath.EditedIs | src/combine_path.h:275-293 | when everything is read, and the builder did not become absolute, it holds the resolved names and the path did not stumble |
| CombinePath.AppendPath | src/combine_path.h:101-293 | in-place editing equals splitting at the separators, dropping empty and "." components and letting ".." remove the name before, with a trailing separator exactly when the input ends in one or the result is the root: always for absolute paths and onto absolute builders, and for relative ones if and only if the path does not stumble; otherwise the result is absolute |
| CombinePath.HoldsStep | src/combine_path.h:359-372 | one more path: the builder stays right as long as no path stumbled, and stays absolute after one did |
| CombinePath.CombinePath | src/combine_path.h:295-375 | the paths from the last absolute one on, joined by separators, in canonical form if and only if none of them stumbles on those before |
| CombinePath.JoinedTwo | src/combine_path.h:295-375 | two paths are joined by a separator, unless the first is empty |
| PtrHash.HashSizeRoundsUp | src/block_alloc.h:58-71 | the table size is the least power of two that is not below the size asked for |
| PtrHash.HashSizeWraps | src/block_alloc.h:58-71 | a size above 2^63 wraps to zero |
| PtrHash.PtrHash.Find | src/block_alloc.h:107-137 | the node of the address in the map the table stands for, or null |
| PtrHash.PtrHash.Grow | src/block_alloc.h:276-310 | the table is doubled; without memory for the new one the size is set back, and table, chains and links are as before |
| PtrHash.PtrHash.Make | src/block_alloc.h:312-341 | the map grows by the new node; the table is doubled exactly when it would get too full and memory can be had; a quarter of the number of nodes then stays below its size |
| PtrHash.PtrHash.Get | src/block_alloc.h:148-156 | the node of the address, made when there is none |
| PtrHash.PtrHash.Relocate | src/block_alloc.h:171-192 | the node moves from its old address to the new one in the map |
| PtrHash.PtrHash.Remove | src/block_alloc.h:194-217 | exactly the node of the address leaves the map; the result tells whether there was one |
| PtrHash.Detach | src/block_alloc.h:176-186 | unlinking a node through the pointer to it leaves every other node in its chain |
| PtrHash.Rehash | src/block_alloc.h:276-310 | every node ends up in the chain its address selects in a table twice the size; the map is the same |
| Utf8.CharIsSequence | src/builtin_functions.c:2359-2421 | the bytes of a character are a well-formed sequence (section 4 of RFC 3629) with its value |
| Utf8.SequenceIsChar | src/builtin_functions.c:2482-2672 | a well-formed sequence is the encoding of its value, which is a legal character |
| Utf8.RoundTrip | src/builtin_functions.c:2308-2421 | decoding the encoding of a legal string gives it back, in both modes |
| Utf8.InverseRoundTrip | src/builtin_functions.c:2482-2769 | encoding what a well-formed byte string decodes to gives it back |
| Utf8.WellFormedExactly | src/builtin_functions.c:2482-2769 | the well-formed byte strings are exactly the encodings of legal strings |
| Utf8.RfcExamples | src/builtin_functions.c:2359-2421 | the examples of section 7 of RFC 3629 |
| Utf8.LongSequences | src/builtin_functions.c:2380-2421 | the sequences of five, six and seven bytes of the extension |
| Utf8.NotWellFormed | src/builtin_functions.c:2482-2672 | overlong forms, surrogates, too large values, and stray or missing continuation bytes are rejected |
| Utf8Codec.MeasureString | src/builtin_functions.c:2308-2353 | failure exactly for a character outside the range; otherwise the length of the encoding |
| Utf8Codec.StringToUtf8 | src/builtin_functions.c:2299-2434 | the encoding; the bytes written are exactly as many as were measured |
| Utf8Codec.ScanChar | src/builtin_functions.c:2482-2668 | the nested tests accept exactly a well-formed sequence of the grammar |
| Utf8Codec.CheckUtf8 | src/builtin_functions.c:2482-2675 | accepts exactly the well-formed byte strings, with the number of characters and the least width that holds them |
| Utf8Codec.ReadChar | src/builtin_functions.c:2682-2757 | the reading loops for each width give the value of the sequence |
| Utf8Codec.Utf8ToString | src/builtin_functions.c:2482-2769 | decodes, and fails exactly on byte strings that are not well-formed |
| Utf8Validate.GoodExactly | src/builtin_functions.c:2898-2931 | with its continuation bytes there, the tests on the masked value accept exactly the well-formed sequences |
| Utf8Validate.Collect | src/builtin_functions.c:2880-2898 | the loop collects the announced continuation bytes, with the masks for that many |
| Utf8Validate.ValidateUtf8 | src/builtin_functions.c:2816-2940 | without the extension exactly the well-formed byte strings; with it, a well-formed one is accepted exactly when no plain character follows a high surrogate that has had no low surrogate yet |
| Utf8Validate.StrayExample | src/builtin_functions.c:2865-2868 | ED A0 80 41 is well-formed with the extension and decodes, but holds such a character |
| Utf8Validate.PairedExample | src/builtin_functions.c:2865-2868 | after a surrogate pair such a character is no reason to reject |

## Left out

- Sorting itself (fsort_template.h): an insertion sort stands in its place wherever a sorted permutation is needed.
- Objects, functions and destructed objects as values, which may overload the comparisons; floating-point NaN; equality of arrays by contents in the duplicate check of switch. In diff(), the comparison by contents is any reflexive relation.
- Strings are ordered by their characters where the set operations order them by address; no result depends on which order it is.
- Out-of-memory paths, except a failed rehash; errors for sizes beyond the integer width, except where the layouts wrap.
- Reference counts of values, garbage collection, threads, and the memory-debugging hooks.
- `BlockAllocator.Allocator.Alloc`: when every page is full, is stated only if the next page fits in 32 bits or is rejected; a page whose overflow is missed has no last block to stop at. It is stated while no page has `BA_ONE` on its last block, since otherwise memory behind the page may be written. The address of a new page is a parameter.
- `BlockAllocator.Allocator.AllocPage`: the same restriction.
- `BlockAllocator.Allocator.constructor`: is stated if the last block of the first page starts within 32 bits; otherwise the layout is wrong from the start (`BaLayout.InitExactly`).
- `BlockAllocator.Allocator.LowAlloc`: the same restriction.
- `BlockAllocator.Allocator.Free`: is stated for pointers that were handed out; the code looks for others only in debug builds.
- `BlockAllocator.Allocator.Walk`: the callback is passive; allocating or freeing from within the walk, for which the code counts one block too many meanwhile, is not part of this model.
- The bits of the vectors in ba_sort_free_list are a sequence of booleans.
- The pools of diff links: one free list stands for that of the newest pool. The others are always empty, since a pool is added only when there is nothing free. The counter of nodes in use is omitted.
- `ReplaceMany.LookupIsLongest`: for one given vector of keys the condition is sufficient; with few copies of a related key the bisection may happen not to probe the wrong ones. It is exact over all numbers of copies (`RepeatedKeys.RepeatingIsSafeExactly`).
- `ReplaceMany.ReplaceManyStrings`: the single-key case of replace() and replacing in arrays and mappings are not part of this model. Which replacement is taken for a string that is given with several is open.
- Code generation for other expressions: a leaf stands for any of them. A constant whose truth is known stands for what is thrown away at compile time. Stack depth bookkeeping and the arguments of copied switch instructions are omitted.
- In Unroll a copied instruction is one of the machine's; the peephole optimiser is not part of this model.
- Statements between the labels of a switch, type checks of its cases, and `F_SWITCH_ON_INDEX`.
- The empty array shared by all is a new empty array here.
- `PikeArray.Insert`: reference counts of the elements and the weak flag are not modelled.
- `CombinePath.AppendPath`: states what comes out for paths without null characters, added to a builder that is empty or canonical; the NT and Amiga variants are not part of this model.
- `PtrHash.Slot`: masking the hash with size - 1 is written as the remainder, which is the same for a power of two.
- `PtrHash.PtrHash.Make`: the new node comes from the language's allocation; the block allocator beneath is modelled on its own.
- `PtrHash.HashSizeRoundsUp`: is about 64-bit words, while tables in the class have a power of two as their size from the start.
- UTF-8 with the surrogate option (2 and 3), and UTF-16.
- `Utf8Codec.StringToUtf8`: masks and shifts are written as divisions and remainders by powers of two.
- Glob matching, reverse_array with a start, bignum macros, crypt, dynamic loading and I/O.
