# Verified model of vanitygen-plusplus

A Dafny model of the parts of vanitygen-plusplus where a mistake would be hard to see: the index of address ranges, the
arithmetic that turns a prefix into ranges, the protocols between its threads, the address codecs, and the key
arithmetic of the split Taproot search. `dafny verify dfyconfig.toml` checks everything.

| modules | part of the program |
|---|---|
| AvlModel, AvlRotations, AvlTree, AvlRemoval | the parent-linked AVL tree of avl.h, with its pointers in the heap |
| PrefixIndex, PrefixRings, PatternStore, CaseVariants | the index of disjoint ranges in pattern.c, the rings that tie the ranges of one pattern together, adding, finding, removing and clearing patterns, and the spellings of a pattern in any case |
| Radix, Base58, PrefixRanges, PrefixCompleteness | `get_prefix_ranges` of pattern.c against "the Base58 text of the number starts with the prefix" |
| ThreadLock | the lock of pattern.c: readers, and upgrades to exclusive use, for any number of threads |
| OclHandshake | the two host threads of oclengine.c |
| Base58Check, Bech32Checksum, Bech32, Regroup, SegwitAddr | the codecs of util.c, bech32.c (BIP 173, section "Bech32", and BIP 350, section "Bech32m") and segwit_addr.c |
| TaprootKeys | scalar and point of the mining loop, and the combination of a split key, in optimized/taproot_optimized_vanitygen.c (BIP 341, section "Constructing and spending Taproot outputs") |
| GroestlContext | buffering and padding of Groestl-384 and Groestl-512 in groestl.c |
| TrxSuffix | the two tests for suffixes of Tron addresses in pattern.c |
| Arithmetic, Options, Characters | shared by the others |

How the parts are modelled:

- Code that changes objects in place is a class with methods, or methods on arrays. For the tree, a `Shape` is the tree
  without its pointers, a `Context` a tree with a hole, and `Wiring` the content every pointer field must have; each
  operation is proved to leave exactly the pointers of the new shape.
- The thread protocols are step systems. A step is what a thread does between two points where another can get in, and
  a run is any sequence of steps; the asserts of the code turn a flag `ok` false when they fail.
- A number of OpenSSL is a natural number. Check bytes, compression functions, the curve and the tagged hash are
  parameters about which no more is assumed than what the code needs.

What the proofs found about the code:

- `get_prefix_ranges` looks only at numbers with `b58pow` or `b58pow + 1` Base58 digits. What it returns is always
  right, but addresses can be missed. `PrefixCompleteness.CompleteExactly` says exactly for which versions and leading
  ones. Among those with up to three leading ones many are missed for versions 1 and 2 without ones and for version 0
  with three, and a single one, by a prefix as long as its whole text, for version 0 with one or two
  (`PrefixCompleteness.CompleteUnlessMisses`, `PrefixCompleteness.FloorOfOne`).
- When the loop of oclengine.c changes to a new key, or halts, the batch submitted last has been run but has not been
  checked (`OclHandshake.AllButTheLast`): the check that is made then has the offset of that batch but looks at the other
  slot (`OclHandshake.OffsetOfCheck`). The batch is checked later only when a later key submits exactly one batch, and
  then in place of that one (`OclHandshake.FateOfTheLast`, `OclHandshake.StaleCheck`).
- The difficulty of the stored patterns is the number of addresses they want less one for each range that is stored: the
  sum over a ring leaves out one end of each range (`PatternStore.Store.DifficultyCounts`).
- The checked Base58 encoder has a buffer of 2n + 4 bytes, which is too small for some payloads of fewer than 3 bytes
  (`Base58Check.BufferSuffices`); addresses and keys are longer.
- The Bech32 encoder accepts an empty human-readable part, whose text the decoder then rejects (`Bech32.DecodeEncode`).
- A Taproot worker whose scalar reaches the order continues with 1 instead of 0, while its point does not skip
  anything: from then on the scalar does not belong to the point, unless this has happened a multiple of the order
  times (`TaprootKeys.LoopHead`, `TaprootKeys.OutOfStep`). It first happens when the start plus the strides is a
  multiple of the order (`TaprootKeys.NoSkips`); before that everything printed is right (`TaprootKeys.LogIsRight`).
- The SegWit encoder lets a negative version through (`SegwitAddr.NegativeVersions`), which its header file rules out.

## Model

| member | source | states |
|---|---|---|
| `AvlModel.HeightIsSmall` | avl.h:24-28 | A tree that meets the balance condition, of height h, has at least Fib(h + 2) - 1 items: what the balance is for |
| `AvlRotations.RotateLL` | avl.h:75-97 | After turning an item under its left child: every child, up and root pointer that differs from before, and that every other pointer is unchanged |
| `AvlRotations.RotateRR` | avl.h:128-150 | The same for the right child |
| `AvlRotations.RotateLR` | avl.h:99-126 | The same for the double rotation left-right, with its two inner subtrees |
| `AvlRotations.RotateRL` | avl.h:152-179 | The same for the double rotation right-left |
| `AvlRotations.RewiredLL` | avl.h:75-97 | Link fields that were those of a tree in its surroundings are, once rewritten, exactly those of the turned tree in the same surroundings: child, up and balance fields agree everywhere |
| `AvlRotations.RewiredRR` | avl.h:128-150 | The same for the right child |
| `AvlRotations.RewiredLR` | avl.h:99-126 | The same for the double rotation left-right |
| `AvlRotations.RewiredRL` | avl.h:152-179 | The same for the double rotation right-left |
| `AvlRotations.TwiceLR` | avl.h:99-126 | The one-pass double rotation changes each item as a turn to the left below followed by a turn to the right would |
| `AvlRotations.TwiceRL` | avl.h:152-179 | The mirror image |
| `AvlRotations.FixLL` | avl.h:197-205 | The heap that held a tree holds the turned tree, with the two balances given, and the same items |
| `AvlRotations.FixRR` | avl.h:232-237 | The mirror image |
| `AvlRotations.FixLR` | avl.h:212-220 | The heap that held a tree holds the doubly turned tree, with the three balances that follow from the old balance of the grandchild |
| `AvlRotations.FixRL` | avl.h:244-253 | The mirror image |
| `AvlTree.OrderLL` | avl.h:75-97 | A turn keeps the in-order sequence |
| `AvlTree.OrderRR` | avl.h:128-150 | A turn keeps the in-order sequence |
| `AvlTree.OrderLR` | avl.h:99-126 | A double turn keeps the in-order sequence |
| `AvlTree.OrderRL` | avl.h:152-179 | A double turn keeps the in-order sequence |
| `AvlTree.GrowLL` | avl.h:280-288 | A left-left turn repairs a subtree that has grown too high and gives it its old height back, so the whole is an AVL tree again |
| `AvlTree.GrowLR` | avl.h:289-301 | The same for the double turn; the grown child is never balanced, as the code asserts |
| `AvlTree.GrowLeft` | avl.h:302-307 | Without a turn: a balanced parent passes the growth on, one that leant the other way absorbs it |
| `AvlTree.GrowRR` | avl.h:309-314 | Mirror image of GrowLL |
| `AvlTree.GrowRL` | avl.h:315-327 | Mirror image of GrowLR |
| `AvlTree.GrowRight` | avl.h:328-333 | Mirror image of GrowLeft |
| `AvlTree.InsertLeft` | avl.h:279-307 | One round of the loop, from the left: order and items stay, and either the whole is an AVL tree or the growth has moved one level up |
| `AvlTree.InsertRight` | avl.h:308-334 | The same from the right |
| `AvlTree.Climb` | avl.h:278-338 | The loop ends with an AVL tree in the heap with the order and the items from before |
| `AvlTree.InsertFix` | avl.h:269-339 | An item linked below an empty hole ends up in an AVL tree whose order is what was before the hole, the item, what was behind it |
| `AvlTree.ShrinkLL` | avl.h:197-205 | The turn makes the subtree an AVL tree that is one lower than before, to be passed up |
| `AvlTree.KeepLL` | avl.h:206-210 | The turn keeps the height, and the loop may stop |
| `AvlTree.ShrinkLR` | avl.h:211-222 | The double turn makes the subtree an AVL tree that is one lower than before |
| `AvlTree.ShrinkRight` | avl.h:223-228 | Without a turn: a balanced parent keeps its height, one that leant to the shrunk side passes the loss on |
| `AvlTree.ShrinkRR` | avl.h:232-237 | Mirror image of ShrinkLL |
| `AvlTree.KeepRR` | avl.h:238-242 | Mirror image of KeepLL |
| `AvlTree.ShrinkRL` | avl.h:243-255 | Mirror image of ShrinkLR |
| `AvlTree.ShrinkLeft` | avl.h:256-261 | Mirror image of ShrinkRight |
| `AvlTree.WhichSide` | avl.h:195 | Comparing the shrunk child pointer, possibly null, with the right child pointer tells the side, given that a parent without children has been dealt with |
| `AvlTree.DeleteLeaf` | avl.h:186-192 | A parent left without children becomes balanced, and the loss of height moves up to it |
| `AvlTree.DeleteRight` | avl.h:195-228 | One round of the loop, from the right: order and items stay, and either the whole is an AVL tree or the loss has moved one level up |
| `AvlTree.DeleteLeft` | avl.h:230-262 | The same from the left |
| `AvlTree.DeleteFix` | avl.h:181-267 | From a subtree one lower than its place expects to an AVL tree in the heap with the same order and items |
| `AvlRemoval.First` | avl.h:341-350 | The first item in order, or null for the empty tree |
| `AvlRemoval.Next` | avl.h:352-369 | The item that follows in order, or null behind the last one |
| `AvlRemoval.Splice` | avl.h:380-393 | The only subtree takes the place of the item; all pointers are those of the tree without it |
| `AvlRemoval.Replaced` | avl.h:380-393 | Rewritten so, the links are exactly those of the tree without the item, and its items are the old ones but that one |
| `AvlRemoval.RemoveDirect` | avl.h:380-398 | An item with at most one subtree: an AVL tree with the order and items from before without it |
| `AvlRemoval.TakePlace` | avl.h:409-419 | Which links change when the successor takes over the left subtree and the place below the parent |
| `AvlRemoval.LeavePlace` | avl.h:420-435 | Which links change when the successor leaves its right subtree behind, in the two cases near and far, and where the fix-up starts |
| `AvlRemoval.Moved` | avl.h:404-435 | Rewritten so, the links are exactly those of the tree in which the successor sits at the place of the item and its right subtree in the hole it left |
| `AvlRemoval.RelocatedOrder` | avl.h:404-435 | The order around that hole is the old order without the item |
| `AvlRemoval.RelocatedHeight` | avl.h:404-435 | All heights and balances are right but for the hole, which is one too low |
| `AvlRemoval.RelocatedItems` | avl.h:404-435 | The items are the old ones without the removed one, all distinct, and the root pointer is right |
| `AvlRemoval.Relocate` | avl.h:404-435 | The heap holds that tree, and the fix-up starts at the item above the hole |
| `AvlRemoval.RemoveIndirect` | avl.h:400-436 | An item with two subtrees: an AVL tree with the order and items from before without it |
| `AvlRemoval.Remove` | avl.h:371-437 | Removing any item of any well-formed tree leaves a well-formed tree (up links match child links, balances are the height differences, which are at most one) whose in-order sequence is the old one without exactly that item |
| `PrefixIndex.Search` | pattern.c:1122-1140 | Finds a stored range that contains the number, and returns null only when none does |
| `PrefixIndex.NarrowLeft` | pattern.c:1151-1152 | Going left loses no range that could meet the new one |
| `PrefixIndex.NarrowRight` | pattern.c:1154-1155 | Going right loses none either |
| `PrefixIndex.NarrowedOut` | pattern.c:1148-1159 | At an empty subtree no stored range meets the new one |
| `PrefixIndex.FindPlace` | pattern.c:1146-1159 | An overlapping range, or the one hole where the new range belongs |
| `PrefixIndex.Attach` | pattern.c:1160-1163 | The range written through the pointer and rebalanced sits in order at that hole |
| `PrefixIndex.SortedInsert` | pattern.c:1160-1164 | A range between those below and those above it keeps the ranges ascending and disjoint |
| `PrefixIndex.AddedAt` | pattern.c:1142-1165 | The new tree holds the old ranges and the new one, which meets none of them |
| `PrefixIndex.Insert` | pattern.c:1142-1165 | An overlapping range is returned and the tree left alone, or the range is added to the sorted, disjoint, balanced index and met none |
| `PrefixRings.Add` | pattern.c:1187-1210 | The range is added exactly when no stored range meets it |
| `PrefixRings.TakenBack` | pattern.c:1239-1244 | Taking the first range back restores items and total width, and the second was in conflict with old ranges, not with the first |
| `PrefixRings.AddBoth` | pattern.c:1234-1245 | Both ranges are added exactly when neither meets a stored one; otherwise items and total width are as before |
| `PrefixRings.LinkFirst` | pattern.c:1247-1250 | One or two first ranges form a ring |
| `PrefixRings.JoinedItems` | pattern.c:1251-1262 | Where every item of the ring is, and what follows it, after one or two were put in behind the master |
| `PrefixRings.LinkBehind` | pattern.c:1251-1262 | Ranges linked in behind the master leave one ring, whether the master was alone or not |
| `PrefixRings.AddRanges` | pattern.c:1228-1264 | All ranges of a spelling join the ring of the pattern and the index exactly when none of them meets a stored range; otherwise nothing changes |
| `PrefixRings.RingRotated` | pattern.c:1212-1226 | A ring is a ring from whichever member it is read |
| `PrefixRings.Delete` | pattern.c:1212-1226 | Deleting a member removes its whole ring from the index and nothing else; the loop ends |
| `PrefixRings.ShrunkOnce` | pattern.c:1217-1225 | Each removal in the loop takes exactly one more item and its width |
| `PrefixRings.RangeSum` | pattern.c:1266-1278 | The loop around the ring adds up the widths of all its ranges, each once |
| `PrefixRings.SumRotated` | pattern.c:1266-1278 | The sum does not depend on the member it starts at |
| `PrefixRings.SumCounts` | pattern.c:1266-1278 | For ranges that do not meet, the sum is the number of numbers in them less one for each range |
| `PrefixRings.GrownOnce` | pattern.c:1200-1207 | One more range adds its width to the total and meets none of the old ones |
| `CaseVariants.CaseIter.constructor` | pattern.c:1299-1326 | The buffer holds the spelling number 0, and the table maps bit i to the i-th character that can be written both ways |
| `CaseVariants.CaseIter.Next` | pattern.c:1328-1348 | Moves on to the next number and its spelling, unless all bits were set |
| `CaseVariants.SpelledSo` | pattern.c:1288-1297 | What the case map means: characters with one spelling, with a choice, and those only valid in the other case |
| `CaseVariants.SpellIsSpelling` | pattern.c:1299-1346 | Every number gives a spelling of the prefix in Base58 characters |
| `CaseVariants.SpellingsDiffer` | pattern.c:1335-1346 | Different numbers give different spellings |
| `CaseVariants.EverySpelling` | pattern.c:1335-1346 | Every way to write the prefix in Base58 characters has a number: the enumeration misses none |
| `PatternStore.ConflictMeans` | pattern.c:1142-1159 | Ranges are in conflict with the index exactly when some number is in both |
| `PatternStore.SpellingsApart` | pattern.c:1702-1724 | No number is wanted by two spellings of the same length |
| `PatternStore.ClashIsOld` | pattern.c:1713-1720 | A spelling can only clash with older patterns, never with earlier spellings of its own |
| `PatternStore.AddSpelling` | pattern.c:1703-1722 | Adds what a spelling wants to the ring being built, or tells which of the three reasons it was not added for |
| `PatternStore.GatherCases` | pattern.c:1702-1724 | The loop collects what all spellings want, or stops at one that is no Base58 text or clashes with an older pattern |
| `PatternStore.SomethingWanted` | pattern.c:1726-1727 | Nothing was collected exactly when no address is wanted by any spelling so far, and then one was counted as impossible |
| `PatternStore.TakeBack` | pattern.c:1729-1732 | After a failure the partly built ring is gone and the index is as before the pattern |
| `PatternStore.AddCases` | pattern.c:1684-1733 | A pattern in any case is taken, with return code 0, exactly when it is acceptable, and its ring then holds exactly the addresses it wants; -1 says that some spelling is no Base58 text or clashes, -2 that no address starts with some spelling |
| `PatternStore.AddOne` | pattern.c:1673-1682 | The same for a pattern in one spelling; -1 exactly when it is no Base58 text, 0 exactly when some address starts with it |
| `PatternStore.StoredIsWanted` | pattern.c:1989-1990 | A number is in the index exactly when some stored pattern wants it |
| `PatternStore.RefusalsAre` | pattern.c:1673-1742 | Refused spellings, seen from the patterns: acceptable means that all spellings are Base58, that some address starts with one, and that no stored pattern wants such an address |
| `PatternStore.CasesAreSpellings` | pattern.c:1686-1724 | Going through the numbers is going through all spellings |
| `PatternStore.PartitionGrows` | pattern.c:1713-1722 | New ranges join one ring, and every item still belongs to exactly one |
| `PatternStore.PartitionLoses` | pattern.c:2082 | Without a ring, the remaining rings partition the remaining items |
| `PatternStore.Store.constructor` | pattern.c:2182-2211 | No patterns, no ranges |
| `PatternStore.Store.AddPattern` | pattern.c:1673-1749 | A pattern is added to the stored ones exactly when it is acceptable and, if it is to be found in any case, not longer than the buffer for its spellings allows; difficulty and rings stay right |
| `PatternStore.Store.AddPatterns` | pattern.c:1463-1765 | Afterwards the stored patterns are the old ones and those of the list that could be taken in turn; the difficulty is the sum of high - low over all tree nodes and the pattern count the number of rings |
| `PatternStore.DeleteRing` | pattern.c:1212-1226 | Deleting any member of any ring leaves the other rings and their sums as they were |
| `PatternStore.Store.DifficultyCounts` | pattern.c:1743-1749 | The difficulty of the stored patterns is the number of numbers that some stored pattern wants, less one for each stored range |
| `PatternStore.Store.Discount` | pattern.c:2073-2080 | The difficulty goes down by the ring of the matched range |
| `PatternStore.Store.RemoveOnMatch` | pattern.c:2072-2083 | Exactly the matched pattern and its ranges are gone; difficulty and count are right again |
| `PatternStore.Store.ClearAllPatterns` | pattern.c:1401-1425 | Nothing is left, and the assert that as many rings as patterns were deleted holds |
| `PatternStore.FoundOnce` | pattern.c:1989-1990 | A range that is found belongs to the only stored pattern that wants the number, and carries its text |
| `PatternStore.Store.Find` | pattern.c:1989-1990 | Something is found exactly when a stored pattern wants the number, and it is a range of that pattern, the only one that does |
| `PatternStore.Store.Match` | pattern.c:1989-2083 | A search and the removal of what it finds: the only stored pattern that wants the number is gone, or nothing has changed |
| `PatternStore.Store.Test` | pattern.c:1989-2102 | A match counts only if a stored pattern still wants the number when the lock is held, whatever the other threads matched and removed while this one waited; then exactly that pattern goes, and the result says whether any are left |
| `Radix.ValueOfDigits` | util.c:159-166 | The digits taken by repeated division spell the number, without a leading zero |
| `Radix.DigitsOfValue` | util.c:264-275 | A string of digits without a leading zero is the digits of the number it spells |
| `Radix.CutInterval` | pattern.c:918-922 | The numbers that are t without their last k digits are those from t times 58^k to below t + 1 times 58^k |
| `Radix.StartsWith` | pattern.c:918-922 | The digits of n start with those of t exactly when n cut to as many digits is t |
| `Base58.AlphabetLetters` | util.c:46 | The digit letters are those of the alphabet string |
| `Base58.LetterMap` | util.c:46-65 | The reverse map undoes the alphabet |
| `Base58.MapLetter` | util.c:46-65 | The alphabet undoes the reverse map, which yields -1 or a digit below 58 |
| `PrefixRanges.Parse` | pattern.c:849-879 | Fails exactly at a character outside the alphabet; otherwise counts the leading ones, reads the number and finds its first digit |
| `PrefixRanges.SetFloorAndCeiling` | pattern.c:881-885 | The two bounds as powers of 256, and zero where the bit position is negative |
| `PrefixRanges.BytesBounds` | pattern.c:881-885 | A number lies between the bounds exactly when its 25 bytes start with that many zero bytes |
| `PrefixRanges.FindMagnitude` | pattern.c:896-907 | The power of 58 and the leading digit of the ceiling |
| `PrefixRanges.Magnitude` | pattern.c:896-907 | The ceiling lies between that digit times that power and the next |
| `PrefixRanges.Bounds` | pattern.c:918-933 | Sums and products of the code are the bounds of the numbers that start with the prefix, with b58pow and with one digit more |
| `PrefixRanges.StartsMeaning` | pattern.c:918-933 | Those are the numbers with b58pow or b58pow + 1 digits whose digits start with the prefix |
| `PrefixRanges.Layout` | pattern.c:924-965 | How the two intervals lie to floor and ceiling: the reason why the tests of the code are enough and its assert on the upper interval holds |
| `PrefixRanges.FloorIsNotHigh` | pattern.c:955 | A floor never equals an upper bound of more than one number, so that >= in the test loses nothing |
| `PrefixRanges.ClipZeros` | pattern.c:935-970 | After the clipping the ranges hold exactly what is in the two intervals and between floor and ceiling, but for a floor that is an interval by itself |
| `PrefixRanges.Block` | pattern.c:890-970 | The ranges hold exactly the numbers considered that start with the prefix and have its leading ones |
| `PrefixRanges.TextOfBytes` | util.c:154-170 | The text of a number is the text that the encoder writes for its 25 bytes |
| `PrefixRanges.PrefixMeaning` | pattern.c:881-975 | When a text starts with a prefix, in terms of zero bytes and digits |
| `PrefixRanges.TextBounds` | pattern.c:881-975 | The same as bounds on the number |
| `PrefixRanges.BlockWanted` | pattern.c:890-970 | What the block keeps are the addresses whose text starts with the prefix, of those considered |
| `PrefixRanges.OnesWanted` | pattern.c:972-975 | For a prefix of ones only: all addresses whose text starts with it, without exception |
| `PrefixRanges.TextRanges` | pattern.c:847-975 | What the prefix alone allows, for every prefix that is short enough |
| `PrefixRanges.ClipBelow` | pattern.c:977-1007 | Keeps exactly what is not below the bound, drops empty intervals, and fails exactly when nothing is left |
| `PrefixRanges.ClipAbove` | pattern.c:1009-1044 | The same above the bound |
| `PrefixRanges.VersionBounds` | pattern.c:977-1017 | A number has the version exactly when it lies between the shifted version and the next |
| `PrefixRanges.GetPrefixRanges` | pattern.c:847-1061 | Soundness and completeness at once: the ranges hold exactly the numbers considered that have the version and whose text starts with the prefix; low <= high < low2 <= high2; not possible exactly when there is none, invalid exactly for a bad character |
| `PrefixCompleteness.CompleteExactly` | pattern.c:896-933 | For every version and up to 24 leading ones: no address is missed, whatever the prefix, exactly when the first and the last address of the kind have b58pow or b58pow + 1 digits and the first is not the floor, or when there is none of the kind |
| `PrefixCompleteness.CompleteButForFloorExactly` | pattern.c:896-933 | The same when a full-length prefix of the floor is left aside: then the digit counts alone decide |
| `PrefixCompleteness.FloorDigits` | pattern.c:896-906 | The floor never has more than b58pow digits, so that only a prefix that gives all of them misses it |
| `PrefixCompleteness.FloorIsFirst` | pattern.c:881-885 | The floor is an address of the version only for version 0 with leading ones and version 1 without |
| `PrefixCompleteness.CompleteUnlessMisses` | pattern.c:896-933 | With up to three leading ones, only the floor can be missed but for versions 1 and 2 without ones and for version 0 with three; with version 0 and ones the floor is missed |
| `PrefixCompleteness.FloorIsMissed` | pattern.c:955-965 | When the least number with that many leading ones is an address of the version and has b58pow digits, a prefix that gives all of them misses it |
| `PrefixCompleteness.FloorOfOne` | pattern.c:955-965 | An instance: 256^23 has 32 digits, and with version 0 it is missed by the prefix of a one and these digits |
| `PrefixCompleteness.Witness` | pattern.c:849-879 | Every address with z leading ones starts with a prefix of z ones and one more digit: what is not considered is missed by some prefix |
| `ThreadLock.StartInv` | pattern.c:55-58 | No threads and no upgraders: the invariant holds at the start |
| `ThreadLock.YieldInv` | pattern.c:60-75 | A reader that yields keeps the invariant and leaves the readers |
| `ThreadLock.ReaderResumeInv` | pattern.c:64-74 | A reader that wakes up keeps the invariant, and while there is an upgrader the readers stay the same |
| `ThreadLock.FirstUpgradeInv` | pattern.c:103-125 | The first upgrader tells all readers to stop, and waits or gets the lock |
| `ThreadLock.LateUpgradeInv` | pattern.c:88-96 | A later upgrader was told to stop, as the code asserts, and waits for its turn |
| `ThreadLock.LeaderResumeInv` | pattern.c:98-125 | A woken upgrader: the asserts over all threads hold, and it gets the lock or waits on |
| `ThreadLock.LastDowngradeInv` | pattern.c:133-141 | The last holder gives the lock back and wakes all readers |
| `ThreadLock.DowngradeInv` | pattern.c:142-144 | Another holder hands the lock to a waiting upgrader, which there is |
| `ThreadLock.InitInv` | pattern.c:148-177 | A new thread keeps the invariant |
| `ThreadLock.SeeInv` | pattern.c:216-218 | A thread that saw its stop flag still holds the lock for reading when it takes the mutex |
| `ThreadLock.BusyDelInv` | pattern.c:187-199 | A thread that goes while there is an upgrader wakes the first of them |
| `ThreadLock.QuietDelInv` | pattern.c:187-199 | A thread that goes otherwise keeps the invariant |
| `ThreadLock.WakeInv` | pattern.c:64-71 | A wakeup without a signal, on the two condition variables waited for in loops, keeps the invariant |
| `ThreadLock.WriterNeedsSignal` | pattern.c:95-101 | On vg_thread_wrcond, waited for without a loop, such a wakeup could make the assert behind it fail: why it is assumed away there |
| `ThreadLock.NextInv` | pattern.c:60-224 | Every section of every thread, and every wakeup without a signal from a wait in a loop, keeps the invariant, and none of the asserts fails |
| `ThreadLock.PathInv` | pattern.c:60-224 | The invariant holds in every state of every run, with any number of threads coming and going |
| `ThreadLock.Safety` | pattern.c:60-224 | In every state of every run an exclusive holder is alone, vc_thread_excl is the number of upgraders waiting or holding, readers are told to stop while it is positive, and no assert has failed |
| `ThreadLock.AssertsHold` | pattern.c:67-127 | What it means that no assert has failed, assert by assert, for every section; by Safety none fails in any run |
| `ThreadLock.NobodySleeps` | pattern.c:136-141 | Without an upgrader every thread runs or has been woken |
| `ThreadLock.SomebodyProceeds` | pattern.c:92-123 | With an upgrader there is a holder, a woken upgrader, or a first upgrader that waits for a reader who was told to stop and runs |
| `ThreadLock.ReaderWakes` | pattern.c:65-69 | Whatever such a reader does next, yield, upgrade or exit, wakes the first upgrader: no wakeup is lost |
| `ThreadLock.ReadersDrain` | pattern.c:64-71 | While there is an upgrader nobody gets the lock for reading, and each reader that leaves makes them one fewer |
| `ThreadLock.FirstUpgraderGetsIt` | pattern.c:111-125 | The woken first upgrader takes the lock exactly when no reader is left |
| `ThreadLock.ReaderGetsIt` | pattern.c:60-75 | A thread that starts, yields, is woken up to read or gives the exclusive lock back holds the lock for reading and runs if no upgrader is left, and otherwise waits without the lock; giving back makes the upgraders one fewer |
| `ThreadLock.UpgraderGetsIt` | pattern.c:77-129 | An upgrader gets the exclusive lock at once exactly when it is the only reader and nobody else wants the lock; otherwise it waits without the lock, the first for the readers, the others for their turn |
| `ThreadLock.WokenUpgraderGetsIt` | pattern.c:95-128 | A woken upgrader gets the exclusive lock, the first one only if no reader is left |
| `ThreadLock.OtherSections` | pattern.c:179-224 | A thread that exits is gone, one that saw its stop flag still holds the lock for reading and is about to yield, and a wakeup without a signal wakes |
| `ThreadLock.OthersAre` | pattern.c:60-224 | All that a section does to other threads: the first upgrader sets the stop flag of exactly the readers, a reader that leaves wakes the waiting first upgrader, the last holder wakes all waiting readers, another holder one waiting upgrader; nobody else changes |
| `ThreadLock.NothingIsRefused` | pattern.c:60-224 | What a thread may do next depends on nothing but where it is and what it holds |
| `ThreadLock.EverybodyGetsIt` | pattern.c:60-224 | From every state with the invariant, with every thread only finishing what it has begun or yielding as told: each upgrader has the exclusive lock at some time, and in the end every thread holds the lock for reading and runs |
| `Base58Check.TextFits` | util.c:158-170 | The text of n bytes has at most 2n characters, and at most 2n - 4 from 7 bytes on |
| `Base58Check.WriteDigits` | util.c:158-166 | Writes the letters of the digits downwards and ends just below them; everything else in the buffer stays |
| `Base58Check.EncodeBuffer` | util.c:154-173 | The number is read before its bytes are written over, and the result is the text |
| `Base58Check.EncodeCheck` | util.c:104-181 | The text of payload and check bytes; the write index stays within the buffer |
| `Base58Check.EncodeRaw` | util.c:187-239 | The text of the bytes, for every length; the write index stays within the smaller buffer |
| `Base58Check.BufferSuffices` | util.c:130-131 | The buffer of 2n + 4 bytes is large enough for all payloads of n bytes exactly when n is at least 3 |
| `Base58Check.ShortPayload` | util.c:130-131 | A payload of 0, 1 or 2 bytes that does not fit |
| `Base58Check.ReadNumber` | util.c:263-275 | The number the text spells without the skipped characters; fails exactly at a character outside the alphabet |
| `Base58Check.CountOnes` | util.c:277-284 | The number of leading ones, across skipped characters |
| `Base58Check.DecodeCheck` | util.c:244-339 | Accepts exactly the texts of a non-empty payload with its check bytes, and returns the payload, cut to the room there is |
| `Base58Check.BytesOfNumerals` | util.c:285-295 | Reading the text of bytes gives the bytes |
| `Base58Check.NumeralsOfBytes` | util.c:154-170 | Writing the bytes of a text gives its digits |
| `Base58Check.DecodeEncode` | util.c:104-339 | What was encoded is accepted, for this payload and no other |
| `Base58Check.EncodeDecode` | util.c:104-339 | What is accepted is encoded as it was, without the skipped characters |
| `Base58Check.OneCharacterMore` | util.c:259-284 | A blank, tab or line end put in anywhere makes no difference to what is accepted, a character of the alphabet always counts, and any other character makes the text refused |
| `Bech32Checksum.StepPlus` | bech32.c:29-37 | The step is linear over GF(2) |
| `Bech32Checksum.StepRange` | bech32.c:29-37 | States keep to 30 bits |
| `Bech32Checksum.StepInjective` | bech32.c:29-37 | The step is one-to-one on 30-bit states |
| `Bech32Checksum.PolyPlus` | bech32.c:29-37 | The checksum of the difference of two strings is the difference of their checksums |
| `Bech32Checksum.PolyOfZeros` | bech32.c:83-85 | Zeros neither make nor lose a difference |
| `Bech32Checksum.PackUnpack` | bech32.c:87-89 | A 30-bit word and its six symbols determine each other |
| `Bech32Checksum.LastSix` | bech32.c:83-89 | Of all six symbols that could end a string exactly one choice gives the checksum asked for, and it is the one the encoder writes |
| `Bech32Checksum.BurstDetected` | bech32.c:29-37 | Strings that differ only within six neighbouring symbols have different checksums |
| `Bech32Checksum.StepIsTimesX` | bech32.c:29-37 | The step multiplies the six symbols of the state by x modulo the generator polynomial of BIP 173 over GF(32) |
| `Bech32Checksum.GeneratorSymbols` | bech32.c:31-36 | What the step puts back in for the symbol that moves out is its multiple of the generator polynomial; the five constants are the multiples for 1, 2, 4, 8 and 16 |
| `Bech32.FinalConstantsDiffer` | bech32.c:39-43 | A text cannot verify under both encodings |
| `Bech32.InsertedQ` | bech32.c:39-43 | A q put in before a last p: a text accepted as Bech32 still is, a text accepted as Bech32m is no longer accepted as anything; what the second constant is for (BIP 350, section "Motivation") |
| `Bech32.ShortTexts` | bech32.c:29-92 | The texts without data for the human-readable part a: a12uel5l and a1lqfn3a |
| `Bech32.CharsetLetters` | bech32.c:45 | The symbol letters are those of the character set string |
| `Bech32.LetterAndBack` | bech32.c:45-56 | The reverse table undoes the character set, in both cases, and no letter is the separator |
| `Bech32.CheckHrp` | bech32.c:61-70 | Fails exactly for a character that is not printable ASCII or an upper case letter |
| `Bech32.WriteChecksum` | bech32.c:83-90 | The six letters that make the text verify, and the end mark |
| `Bech32.ChecksumIsUnique` | bech32.c:83-89 | Six symbols behind hrp and data make the text verify exactly when they are the checksum |
| `Bech32.Encode` | bech32.c:58-92 | Succeeds exactly for a valid hrp, 5-bit data and a length of at most 90, and then the buffer holds the text |
| `Bech32.FindSeparator` | bech32.c:103-107 | The last separator, or none |
| `Bech32.ReadHrp` | bech32.c:112-126 | Lower-case copy, cases seen, and the state, for readable characters |
| `Bech32.LowBitsOfLower` | bech32.c:121-129 | The second pass may read the input in its own case: the low five bits are the same |
| `Bech32.ReadData` | bech32.c:131-144 | Stores all symbols but the last six; fails exactly at a character outside the character set |
| `Bech32.Decode` | bech32.c:94-155 | Returns no encoding exactly when the input is the text of nothing, and otherwise the hrp, data and encoding it is the text of |
| `Bech32.DecodeEncode` | bech32.c:58-155 | What was encoded decodes to itself and nothing else, exactly when the hrp is not empty; with an empty hrp it does not decode |
| `Bech32.DecodesIffVerifies` | bech32.c:58-155 | Accepted by the checks of the decoder (case, lengths, separator, characters, checksum state) are exactly the texts of some parts in either case |
| `Bech32.EncodeDecode` | bech32.c:58-155 | What the checks of the decoder accept can be encoded again and comes out as its lower-case form: its last six symbols are the ones the encoder computes |
| `Bech32.BurstsAreDetected` | bech32.c:94-155 | Two accepted texts of one encoding and length that differ, behind the separator, only within six neighbouring symbols are the same text |
| `Regroup.Accumulate` | bech32.c:162 | Bits shifted out of the 32-bit accumulator are never needed |
| `Regroup.GiveOut` | bech32.c:164-167 | Each group written out is the next bits of the input |
| `Regroup.Leftover` | bech32.c:169-175 | What is left is less than a group; the padding test finds exactly the nonzero bits |
| `Regroup.ConvertBits` | bech32.c:157-177 | With padding: all groups, the last filled with zeros. Without: the full groups, and success exactly when fewer bits than one input group are left, all zero. The buffer needs room for just these groups |
| `Regroup.ChunksOfFlat` | bech32.c:157-177 | Groups joined and cut up again are the groups |
| `Regroup.FlatOfChunks` | bech32.c:157-177 | Bits cut up and joined again are the bits |
| `Regroup.ThereAndBack` | bech32.c:157-177 | Regrouping with padding into smaller groups and back without is the identity, and passes the padding test |
| `Regroup.BackAndThere` | bech32.c:157-177 | Regrouping back what passes the padding test and padding it again is the identity |
| `SegwitAddr.Encode` | segwit_addr.c:29-41 | Succeeds exactly for a version and program that pass the checks and a fitting hrp, and then the buffer holds the text of the program and the low byte of the version, which is the version itself unless that is negative |
| `SegwitAddr.SameString` | segwit_addr.c:50 | The comparison is equality of the strings |
| `SegwitAddr.GroupsOfProgram` | segwit_addr.c:37-39 | The groups of a program pass the checks of the decoder and give the program |
| `SegwitAddr.ProgramOfGroups` | segwit_addr.c:55 | Groups that pass are the groups of the program they give |
| `SegwitAddr.Refused` | segwit_addr.c:48-57 | A text that fails one of the checks is the address of no program under this hrp |
| `SegwitAddr.Decode` | segwit_addr.c:43-60 | Accepts exactly the addresses of some program under this hrp, and returns its version and bytes |
| `SegwitAddr.DecodesOnce` | segwit_addr.c:29-60 | An address is that of one version and program only |
| `SegwitAddr.DecodeEncode` | segwit_addr.c:29-60 | The decoder undoes the encoder for every legal version, program and fitting hrp |
| `SegwitAddr.EncodeDecode` | segwit_addr.c:29-60 | What the checks of both decoders accept is encoded again from the version and the bytes handed out, as its lower-case form |
| `SegwitAddr.NegativeVersions` | segwit_addr.c:33-40 | A negative version passes the checks of the encoder; what it writes is the address of some program exactly when the low byte of the version is zero and the length is 20 or 32 |
| `SegwitAddr.EncodingOfVersion` | segwit_addr.c:33-53 | An address of version 0 is a Bech32 text, of any other version a Bech32m text, and never the other |
| `SegwitAddr.ProgramLength` | segwit_addr.c:36-39 | A program takes one symbol for the version and as many as its bits need |
| `TaprootKeys.CurvesExist` | optimized/taproot_optimized_vanitygen.c:143-150 | The laws assumed of the curve have a model |
| `TaprootKeys.MulMod` | optimized/taproot_optimized_vanitygen.c:675-680 | Scalars count modulo the order, and only multiples of the order give the point at infinity |
| `TaprootKeys.MulNegated` | optimized/taproot_optimized_vanitygen.c:251-257 | The scalar order - s gives the mirrored point: same x, other parity |
| `TaprootKeys.AddressStands` | optimized/taproot_optimized_vanitygen.c:218 | The text is the version 1 address of this x coordinate, and of no other program under any human-readable part |
| `TaprootKeys.AddressExists` | optimized/taproot_optimized_vanitygen.c:218 | An x coordinate has an address exactly when the human-readable part is valid and has at most 30 characters |
| `TaprootKeys.OutputStands` | optimized/taproot_optimized_vanitygen.c:152-219 | The output address is the version 1 address of the x coordinate of the output point, and there is one unless that is the point at infinity |
| `TaprootKeys.SameOutput` | optimized/taproot_optimized_vanitygen.c:152-219 | The output address does not depend on the parity of y |
| `TaprootKeys.EvenScalarIsEven` | optimized/taproot_optimized_vanitygen.c:684-694 | The scalar kept has a point with even y |
| `TaprootKeys.TweakedIsKey` | optimized/taproot_optimized_vanitygen.c:707-714 | The tweaked scalar is the private key of the output point, and zero exactly for the point at infinity |
| `TaprootKeys.Derive` | optimized/taproot_optimized_vanitygen.c:221-278 | Gives the output address of s times G for valid s, and fails exactly where that fails; the address is the version 1 address of the x coordinate of the point of the tweaked scalar |
| `TaprootKeys.DeriveIsSymmetric` | optimized/taproot_optimized_vanitygen.c:221-278 | s and order - s have the same address |
| `TaprootKeys.Combine` | optimized/taproot_optimized_vanitygen.c:631-738 | For valid parts whose sum is not zero: prints the address of the combined point, the even scalar and its tweaked key; the check of address against key never fails; succeeds exactly when no other address was expected; the address is the version 1 address of the x coordinate of the point of the tweaked key |
| `TaprootKeys.PartsAdd` | optimized/taproot_optimized_vanitygen.c:571-573 | aG + bG is the point of a + b modulo the order |
| `TaprootKeys.CombineFindsAddress` | optimized/taproot_optimized_vanitygen.c:675-705 | The address of the combined key is the one mined for aG + bG, whatever the parity of its y |
| `TaprootKeys.IncrementScalar` | optimized/taproot_optimized_vanitygen.c:128-141 | One step modulo the order, with zero replaced by one |
| `TaprootKeys.StepTogether` | optimized/taproot_optimized_vanitygen.c:413-419 | A step keeps scalar and point together; stepping over zero puts the scalar one ahead |
| `TaprootKeys.InStepExactly` | optimized/taproot_optimized_vanitygen.c:128-141 | For scalar and point that differ by a number of steps over zero: the scalar belongs to the point exactly when that number is a multiple of the order |
| `TaprootKeys.StepsMod` | optimized/taproot_optimized_vanitygen.c:128-141 | After any rounds the scalar is the start plus all strides plus one for each step over zero, modulo the order |
| `TaprootKeys.NoSkips` | optimized/taproot_optimized_vanitygen.c:128-141 | Zero is never stepped over in some rounds exactly when the start plus the strides is no multiple of the order in any of them |
| `TaprootKeys.LoopHead` | optimized/taproot_optimized_vanitygen.c:395-420 | At every loop head of every run: the point is the base plus the scalar times G exactly when the number of steps over zero so far is a multiple of the order |
| `TaprootKeys.OutOfStep` | optimized/taproot_optimized_vanitygen.c:413-419 | On every curve, from the scalar order - 1 with a stride of one: after one round the scalar is one and the point is at infinity |
| `TaprootKeys.StartWorker` | optimized/taproot_optimized_vanitygen.c:341-379 | Scalar and point start in step; only in split mode can zero be stepped over at the start, and this is counted |
| `TaprootKeys.RecordIsRight` | optimized/taproot_optimized_vanitygen.c:285-317 | What is printed, key or part, gives the address printed with it, for either parity |
| `TaprootKeys.RecordStands` | optimized/taproot_optimized_vanitygen.c:285-317 | The address of a right record is the version 1 address of the tweaked key, or of the tweaked sum of Alice's key and the part |
| `TaprootKeys.SearchContext.MaybeRecord` | optimized/taproot_optimized_vanitygen.c:280-323 | Prints at most as many records as asked for, and nothing after the stop |
| `TaprootKeys.MatchIsRight` | optimized/taproot_optimized_vanitygen.c:397-407 | A match at a point that belongs to the scalar gives a right record |
| `TaprootKeys.Worker` | optimized/taproot_optimized_vanitygen.c:395-420 | What is printed is what was printed before, then round by round what the other workers print and a record for each own point whose address starts with the pattern, cut at the target; scalar and point are those after the rounds made, fewer than possible only if stopped |
| `TaprootKeys.TryPoint` | optimized/taproot_optimized_vanitygen.c:397-407 | One round prints the record of its point exactly when the address starts with the pattern and there is room |
| `TaprootKeys.LogIsRight` | optimized/taproot_optimized_vanitygen.c:395-420 | In every run that starts with a scalar that belongs to the point: every printed key or part gives the printed address, as long as the start plus the strides has not reached a multiple of the order and the other workers print what is right |
| `TaprootKeys.LogStartsWith` | optimized/taproot_optimized_vanitygen.c:402-406 | Every record of the worker itself has an address that starts with the pattern |
| `TaprootKeys.LogMissesNone` | optimized/taproot_optimized_vanitygen.c:395-420 | Every round whose point has an address that starts with the pattern has its record in what is printed, up to the target |
| `TaprootKeys.BeforeWrap` | optimized/taproot_optimized_vanitygen.c:345-418 | Before it wraps around, the scalar of worker t in round i is base + t + i * stride, and zero was not stepped over |
| `TaprootKeys.WorkersDisjoint` | optimized/taproot_optimized_vanitygen.c:341-418 | Before they wrap around, two workers of a split search never try the same scalar |
| `TaprootKeys.PartCombines` | optimized/taproot_optimized_vanitygen.c:675-705 | Alice's key and a right part give the address printed with the part |
| `OclHandshake.StartInv` | oclengine.c:2287-2289 | The invariant holds at the start |
| `OclHandshake.WorkerNextInv` | oclengine.c:2006-2041 | Every step of the worker keeps the invariant, and its assert holds |
| `OclHandshake.LoopNextInv` | oclengine.c:2259-2427 | Every step of the main loop keeps the invariant, and its asserts hold |
| `OclHandshake.NextInv` | oclengine.c:2006-2427 | Every step of either thread keeps the whole invariant |
| `OclHandshake.PathInv` | oclengine.c:2006-2427 | The invariant holds in every state of every interleaving |
| `OclHandshake.BuffersAreSafe` | oclengine.c:2259-2400 | In every interleaving the strides being written and the result being checked are not of the slot that is run, the column buffer is written only while the worker runs nothing, and the asserts hold |
| `OclHandshake.SlotsAlternate` | oclengine.c:2287-2380 | The batches of a key take turns in the two slots, the first one in slot 0 |
| `OclHandshake.NothingIsRefused` | oclengine.c:2006-2426 | What either thread may do next depends on nothing but where it is; waits may end without a signal; whether a kernel fails is open |
| `OclHandshake.AssertsHold` | oclengine.c:2006-2424 | What it means that no assert has failed, assert by assert; by BuffersAreSafe none fails in any interleaving |
| `OclHandshake.BuffersAreRight` | oclengine.c:2292-2380 | In every interleaving: what is submitted, and what is run, has in its stride buffer what was written last for just that batch, and the result being checked is that of the batch submitted last in its slot, whose kernel has ended |
| `OclHandshake.NothingAfterAnError` | oclengine.c:2008-2041 | After a kernel that fails, and after a halt, no batch is submitted any more, in any run |
| `OclHandshake.NoRoomAfter` | oclengine.c:2292-2325 | There is room for a batch after a new key, and until something is found or the key is used up |
| `OclHandshake.NothingWithoutRoom` | oclengine.c:2325-2398 | Without room no batch is submitted before the next new key, in any run |
| `OclHandshake.NoCheckAfterAFind` | oclengine.c:2297-2398 | After a find no result is checked before the next new key, in any run |
| `OclHandshake.OffsetOfCheck` | oclengine.c:2285-2398 | In every run the number of checks since the last new key, which is what the offset from the key advances by, is the number of the checked batch exactly when the other slot has been submitted and not been waited for; otherwise it is that of the last batch, which is not the one looked at |
| `OclHandshake.ItEnds` | oclengine.c:2407-2426 | From every state with the invariant, once a halt is asked for: both threads end, with no assert failing and at most the batch in hand still submitted |
| `OclHandshake.NobodyStuck` | oclengine.c:2361-2424 | A waiting main loop has a worker that is at work for it, a waiting worker has a main loop that runs, and a joining main loop has a worker on its way out |
| `OclHandshake.WorkerAnswers` | oclengine.c:2006-2041 | While the main loop waits, every step of the worker wakes it or brings that nearer, so the third one does at the latest |
| `OclHandshake.AllButTheLast` | oclengine.c:2382-2398 | When a new key is made, and at the end, the batches submitted since the last key have all been checked but the last one, which has not |
| `OclHandshake.CheckedBatch` | oclengine.c:2292-2306 | What a check looks at: the batch before the last of this key, or, exactly when only one has been submitted under this key, what the other slot still holds from before |
| `OclHandshake.FateOfTheLast` | oclengine.c:2292-2398 | In every run the last batch of a key is checked later only if some later key submitted exactly one batch, and then as if it were of that key |
| `OclHandshake.StaleCheck` | oclengine.c:2292-2398 | A run in which that happens: a key with two batches, then one with a single batch |
| `GroestlContext.Context.constructor` | groestl.c:2867-2898 | An empty buffer, no blocks, and the initial value of the output size |
| `GroestlContext.Context.Init` | groestl.c:2867-2898 | The same on a used context |
| `GroestlContext.Context.Core` | groestl.c:2900-2940 | Chaining state, counter and live part of the buffer are those after the full blocks of what was live and what came |
| `GroestlContext.FeedConcat` | groestl.c:2909-2939 | Two calls do what one call with both parts does |
| `GroestlContext.AnySplit` | groestl.c:2900-2940 | A message may be split into calls in any way |
| `GroestlContext.Padding` | groestl.c:2956-2985 | The padding has 9 to 136 bytes and fills the block, or the block and one more |
| `GroestlContext.PaddingEnds` | groestl.c:2956-2985 | The padded message ends on a block boundary, and its last eight bytes are its number of blocks modulo 2^64 |
| `GroestlContext.FirstPadBits` | groestl.c:2956-2958 | The first byte of the padding has the first n bits of ub, then a one, then zeros |
| `GroestlContext.PaddingInjective` | groestl.c:2956-2985 | Messages with equal padding are equal, have the same number of extra bits, and the same extra bits |
| `GroestlContext.Context.Close` | groestl.c:2942-2999 | The digest is that of the state after the padding, which leaves nothing behind, and the context starts over |
| `GroestlContext.DigestOfMessage` | groestl.c:2900-2999 | However a message was split, the final state is that of the padded message from the initial value |
| `TrxSuffix.ParseSuffix` | pattern.c:1597-1627 | Accepts exactly 1 to 9 Base58 characters, and the 64-bit target and divisor are the exact values |
| `TrxSuffix.LastDigits` | pattern.c:1617-1632 | A remainder modulo 58^k is the value of the last k digits |
| `TrxSuffix.CheckSuffix` | pattern.c:1896-1906 | Finds exactly the addresses whose text ends with the suffix |
| `TrxSuffix.TestsAgree` | pattern.c:1617-1632 | The remainder test and the comparison agree for every text at least as long as the suffix |
| `TrxSuffix.ShortTexts` | pattern.c:1902-1903 | For shorter texts the comparison fails, while the remainder is found when the number is the target |
| `TrxSuffix.AddressIsLong` | pattern.c:1890-1903 | An address whose version is not zero has more than 9 characters |
| `TrxSuffix.TronTestsAgree` | pattern.c:1890-1906 | For version 65 the two tests agree on every address and suffix |

## Left out

Contracts that say less than the program does:

- PrefixRanges.GetPrefixRanges: requires that the part after the leading ones has at most `b58pow` digits; beyond that the subtraction of the code wraps around and it asks for an astronomical power of 58. Versions are natural numbers: the branch for Ethereum (version -1) is not modelled. The ranges are for numbers considered only, see PrefixCompleteness.
- PatternStore.Store.AddPatterns: the same limit on every spelling; patterns with a `*`, Ethereum patterns and the recomputed display of the difficulty are left out.
- CaseVariants.CaseIter.constructor: the buffer of 32 characters is a string of any length, so what the code does with 32 or 33 characters, the first that do not fit, is not modelled; longer ones are refused by AddPattern as in the code.
- PatternStore.Store.Test: output, the count of matches and its limit, suffixes, and the comparison of Ethereum checksums are not modelled; what other threads do while this one waits for the lock is a parameter, the numbers they match.
- Base58Check.EncodeCheck: requires that the text fits the buffer; BufferSuffices says when it does.
- Bech32.Encode: an encoding other than the two is not passed in by any caller; the code asserts that.
- TaprootKeys.Worker: one worker, for a given number of rounds, with what the others print before each round as a parameter; creation and joining of the threads, a stop because a thread could not be created, failures of OpenSSL and the range of `int` are not modelled.
- ThreadLock.NextInv: on `vg_thread_wrcond`, where the code waits without a loop, nobody wakes without a signal (WriterNeedsSignal shows why), and every signal wakes exactly one thread; the assert inside the scan is checked for all threads, which is stronger; the list of threads is a map.
- OclHandshake.NextInv: exits for lack of memory or patterns, and a failing `pthread_create`, are not modelled; when something is found, a key is used up or a halt is asked for is left open.
- GroestlContext.Context.Core: the branch for compilers without 64-bit integers, and the small variant for Groestl-224 and Groestl-256, are not modelled.

Not modelled:

- Allocation failures, freeing of memory, and buffers that stay within their C types; characters above 127, which index the tables out of range or are rejected, count as outside the alphabet.
- SHA-256, the Groestl permutations, Keccak, RIPEMD and curve arithmetic: parameters where they matter.
- Floating point: difficulty estimates, probabilities and rates; `vg_prefix_context_next_difficulty`.
- `vg_prefix_hash160_sort` and the other tables handed to the GPU, the kernels, devices and program building.
- Suffix patterns of Ethereum, Solana and TON, and the combined difficulty of prefix and suffix.
- Regular expression patterns.
- base32.c, crc16.c, stellar.c, hexadecimal helpers and TON cells: simpler codecs than those above.
- Key formats, encryption, files, options, console output and the pool client.
- The copies of bech32.c and segwit_addr.c below optimized/, taproot/ and splittaproot/, which have the same code.
