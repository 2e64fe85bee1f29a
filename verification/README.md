# Verified models of HiBox's core structures and protocols

This project models seven parts of HiBox in Dafny and proves what they are for:

- the intrusive AVL tree threaded on a circular list (`avl.c`, `avl.h`, `list.h`) and the key/value store
  on top of it (`kvlist.c`);
- the incremental MD5 digest (`md5.c`) against RFC 1321;
- the serializer of strings and configurations and the automaton that reads them back (`serialize.c`);
- the sorted array (`sorted-array.c`);
- the printing of file sizes in a field of fixed width (`size_trunc_len` of `util.c`);
- the remote calls of background jobs (`background.c`);
- the automatic test of the renderer client (`purcsmg.c`).

Code that changes objects in place is modelled by classes and methods with the same branches and writes;
each method is proved against a ghost value, a sequence, a map, a tree or a state, and the lemmas are about
that value.

| files | model |
|---|---|
| `Wrappers`, `Sequences`, `Orders`, `Bytes`, `Decimals` | shared vocabulary |
| `Trees` | trees and their surroundings as mathematical values, with the height arithmetic of the rotations |
| `Lists` | the circular list of `list.h` |
| `AvlHeap`, `AvlRotations`, `AvlPostInsert`, `AvlPostDelete`, `AvlDeleteWorker` | what pointers and balance fields mean, rotations and rebalancing |
| `AvlOrder`, `AvlFind`, `AvlInsert`, `AvlDelete`, `AvlClear`, `AvlStability` | the invariant of list and tree, and the public operations |
| `KvList`, `KvRuns` | the key/value store as a finite map |
| `Rfc1321`, `Md5Transform`, `Md5`, `Md5Suite` | the digest as the RFC defines it, the unrolled steps, the buffered form, digests from section A.5 of RFC 1321 |
| `Serialize`, `SerializeConfig`, `DeserializeConfig`, `SerializeLaws`, `ConfigRoundTrip` | frames, writer, reader, the language accepted, round trips |
| `SerializeErrors`, `ConfigValues`, `SerializeSuite` | which error is reported where, which value of a key counts, examples |
| `SortedArray`, `SortedNumbers` | the sorted array, and what it is with the default comparison |
| `SizePrint` | file sizes |
| `Marshalling`, `TaskList`, `Background` | the wire format, the list of jobs, the calls |
| `Utf8`, `Utf8Encoding` | whole characters of UTF-8, and what they encode |
| `AutotestModel`, `AutotestSafety`, `AutotestRuns`, `AutotestProtocol`, `AutotestManual` | the test as a state machine, what every run of it keeps, in which order requests go out, and runs without automatic changes |
| `AutotestUpload`, `AutotestProgress`, `AutotestEnding`, `AutotestExamples` | which documents arrive, why and how the test ends, and runs in which something gets lost |
| `Autotest` | the handlers of the test over their own variables |

The central invariant is `AvlOrder.Valid`. It says that the list is a ring whose links lead back to their
nodes, that it is sorted and counted, that exactly the first node of each run of equal keys is a leader, that
the leaders in list order are the in-order traversal of the tree, that parent and child pointers agree, that
every balance field is the height on the right minus the height on the left, and that it is -1, 0 or 1.
A position inside a tree is a context (`Trees.Ctx`): the path to the root with everything that hangs off it.

All lemmas carry `{:induction false}`: where a proof needs an induction, its body has the recursive call.
Predicates that hide a fact behind a quantifier with a trigger (`Rfc1321.Compresses`, `DeserializeConfig.Cuts`,
`AutotestModel.Leads`, `AvlHeap.Fits`, `AvlRotations.Open` and a few more) keep the solver from unfolding what a
proof does not need.

## Findings

- `my_response_handler` moves a window from testing to reset as soon as the last change is answered, so
  `reset_window` (source/bin/purcsmg/purcsmg.c:873, called at 1022) never runs for windows with more than one
  change (`AutotestRuns.WindowSafety`).
- `nr_destroyed_wins` also counts a window whose request to be destroyed failed, and which is then fatal
  (source/bin/purcsmg/purcsmg.c:298-315). It is the number of destroyed windows exactly if no such request was
  answered with a failure (`AutotestRuns.DestroyedCount`); `AutotestExamples.CountedButFatal` is a run where one was.
- What follows the well-formed part of a document is lost if the document is uploaded in pieces and the cuts
  come out even: a remainder of exactly 1024 bytes goes with `writeMore`, and no `writeEnd` follows
  (source/bin/purcsmg/purcsmg.c:465). `AutotestUpload.UploadComplete` has the exact condition on the document,
  `AutotestUpload.UploadForeseen` says beforehand which of eight windows are concerned, and
  `AutotestExamples.LosesIff` for which settings a single window can lose the end. Whatever
  PCRDR_MAX_INMEM_PAYLOAD_SIZE is (PurC defines it, which is not part of this model), a multiple of 1024 letters
  above it and one byte that is not UTF-8 are such a document (`AutotestUpload.EndLost`,
  `AutotestExamples.EndLeftBehind`).
- A configuration that has no group, or a group without keys before the last, cannot be read back; a last
  group without keys is lost (`ConfigRoundTrip.Returned`, `ConfigRoundTrip.Refused`).
- `size_trunc_len` leaves the buffer untouched if the size does not fit even in the last unit of its table.
  `SizePrint.FitsIff` has the bound for each size, `SizePrint.AlwaysWritten` the widths at which this cannot happen,
  `SizePrint.NothingIsWritten` a size for which it does. All callers in the repository ask for bytes or kilobytes
  (source/bin/src/filemanager/panel.c:520 and 1161, info.c:184, filegui.c:529 and others), for which something is
  always written, so this cannot occur in the program as it is. The function also shows a size within 512 of the largest as less than
  a kilobyte, because adding the half wraps around (`SizePrint.HugeVanishes`).
- The header of `sorted_array_find` promises the first member with an equal value
  (source/lib/lib/sorted-array.h:52); the code returns the one where the halving loop stops. Of three equal
  members that is the second (`SortedArray.SecondOfThree`). `SortedArray.FirstIff` says exactly when it is the
  first: always without duplicates (`SortedArray.FirstIfUnique`), and among members that are all equal only if
  there are no more than two (`SortedArray.FirstOfEquals`).
- A background job that ends without a farewell is to leave the list of tasks
  (source/bin/src/background.c:223-243). It stays there exactly if it has passed a context that does not name
  its process (`Background.Link.Lost`); `Background.Forgotten` is a run in which the child passes the context
  that it has from before the fork. A farewell always works (`Background.Link.Farewell`).

## Model

| member | source | states |
|---|---|---|
| Lists.ListAddBetween | source/lib/lib/list.h:94-103 | linking a new element between two neighbours gives the ring with that element in between |
| Lists.ListAdd | source/lib/lib/list.h:142-146 | the new element comes right behind the given one |
| Lists.ListAddTail | source/lib/lib/list.h:148-152 | the new element comes right before the given one, and before the head that is at the end of the list |
| Lists.ListDel | source/lib/lib/list.h:80-92 | the ring closes without the element, whose own pointers are cleared |
| Lists.ListTests | source/lib/lib/list.h:60-78 | the tests for empty, first and last on pointers say so about positions in the list |
| Trees.SingleRightHeights | source/lib/lib/avl.c:379-408 | the incremental balance formulas of a right rotation give the true differences of heights |
| Trees.SingleLeftHeights | source/lib/lib/avl.c:410-440 | the same for a left rotation |
| Trees.DoubleRightHeights | source/lib/lib/avl.c:466-467 | two rotations at an inner grandchild give balanced subtrees with true balances |
| Trees.DoubleLeftHeights | source/lib/lib/avl.c:486-487 | the same on the other side |
| AvlHeap.AvlNode.constructor | source/lib/lib/avl.h:56-102 | a fresh node with a link that leads back to it |
| AvlHeap.AvlTree.constructor | source/lib/lib/avl.c:91-100 | a fresh tree is empty, its list a ring of the head alone |
| AvlHeap.RotateRight | source/lib/lib/avl.c:378-408 | parent, child and root pointers of three nodes are relinked so that the heap represents the rotated tree, and nothing else is touched |
| AvlHeap.RotateLeft | source/lib/lib/avl.c:410-440 | the mirror image |
| AvlRotations.DoubleRight | source/lib/lib/avl.c:466-467 | a left and a right rotation turn an inner grandchild into the root of the subtree, every balance field true |
| AvlRotations.DoubleLeft | source/lib/lib/avl.c:486-487 | the mirror image |
| AvlPostInsert.PostInsert | source/lib/lib/avl.c:442-488 | after a subtree grew by one level, stopping, going on upward or rotating restores balance and every balance field of the whole tree, and keeps the traversal; there are no more recursive calls than levels above |
| AvlPostInsert.LeftTooHigh | source/lib/lib/avl.c:461-468 | the left child is two levels too high: one or two rotations restore the tree |
| AvlPostInsert.RightTooHigh | source/lib/lib/avl.c:481-487 | the mirror image |
| AvlPostDelete.PostDelete | source/lib/lib/avl.c:511-571 | after a subtree lost one level, the tree is restored on the way up, with rotations that may or may not lower it again; the traversal is kept, and there are no more recursive calls than levels above |
| AvlPostDelete.RightHeavy | source/lib/lib/avl.c:530-544 | three shapes of rotation for a right side two levels higher, one of which ends the way up |
| AvlPostDelete.LeftHeavy | source/lib/lib/avl.c:557-570 | the mirror image |
| AvlDeleteWorker.TakePlace | source/lib/lib/avl.c:706-729 | a node takes over parent, children and balance of another one, which leaves the tree; nothing else changes |
| AvlDeleteWorker.LocalMin | source/lib/lib/avl.c:573-580 | the leftmost node of a subtree, and nothing comes before it there |
| AvlDeleteWorker.SuccessorGone | source/lib/lib/avl.c:704-706 | taking out the successor may rotate the node that is to be deleted; what precedes and follows it in the traversal is still what it was |
| AvlDeleteWorker.DeleteWorker | source/lib/lib/avl.c:593-730 | in all cases the traversal loses exactly the node, and the tree is linked and balanced with true balance fields; the way up makes no more calls than the tree was high |
| AvlOrder.TreeIsLeaders | source/lib/lib/avl.h:56-152 | nothing is listed twice, and the nodes of the tree are exactly the leaders of the list |
| AvlOrder.RunLeader | source/lib/lib/avl.h:80-96 | every node has a leader with an equal key at or before it |
| AvlOrder.LedApart | source/lib/lib/avl.h:131-134 | without duplicates, different nodes have different keys |
| AvlFind.FindRecStops | source/lib/lib/avl.c:353-376 | the descent stops at the key or at the free place where it belongs, and visits at most one node per level |
| AvlFind.Descend | source/lib/lib/avl.c:353-376 | the descent from the root stops at a listed leader, with everything before it above and everything behind it below the key as far as the tree tells |
| AvlFind.HeightOfTree | source/lib/lib/avl.c:353-376 | a tree of height h has at least Fib(h + 2) - 1 leaders, so the depth of the recursions is logarithmic |
| AvlFind.WayUp | source/lib/lib/avl.c:442-571 | the way up from any place in a tree is no longer than about twice the binary logarithm of the number of leaders |
| AvlInsert.HangDeeper | source/lib/lib/avl.c:282-298 | a leaf is hung below a node that had none and the tree restored, with no more calls of post_insert than the tree was high |
| AvlFind.Find | source/lib/lib/avl.c:114-126 | the leader with an equal key, or NULL exactly if no node has an equal key |
| AvlFind.FindLessEqual | source/lib/lib/avl.c:136-169 | the last node of the list with a key at most the argument, NULL exactly if there is none, wherever the descent stopped |
| AvlFind.FindGreaterEqual | source/lib/lib/avl.c:178-210 | the first node of the list with a key at least the argument, NULL exactly if there is none |
| AvlInsert.InsertBefore | source/lib/lib/avl.c:490-495 | list and count gain the node right before another one |
| AvlInsert.InsertAfter | source/lib/lib/avl.c:497-502 | list and count gain the node right behind another one |
| AvlInsert.Insert | source/lib/lib/avl.c:219-299 | the invariant is kept; -1 exactly if a duplicate is refused, and then list, shape and count are as before; otherwise the node is listed behind everything with a key not above its own |
| AvlDelete.Delete | source/lib/lib/avl.c:306-351 | the invariant is kept and the list loses exactly the node; deleting a duplicate leaves the tree alone; deleting a leader with duplicates puts the next one in its place in an unchanged shape |
| AvlClear.Init | source/lib/lib/avl.c:91-100 | a fresh tree satisfies the invariant |
| AvlClear.RemoveAllElements | source/lib/lib/avl.h:553-559 | the loop visits every node once, in list order, and leaves a valid empty tree |
| AvlStability.InsertGoesBehind | source/lib/lib/avl.c:240-262 | a node is listed behind all nodes with an equal key that were there |
| AvlStability.FirstComeFirst | source/lib/lib/avl.c:219-351 | over any sequence of insertions and deletions, of two nodes with equal keys that are listed, the one that came in first is listed first, and only that one |
| AvlStability.RemoveKeepsOrder | source/lib/lib/avl.c:306-351 | removing another node does not change the order of two nodes |
| KvList.StrCmpIsComparator | source/lib/lib/avl-cmp.c:20-25 | the order of strings is one that the tree can work with |
| KvList.StrCmpMeans | source/lib/lib/avl-cmp.c:20-25 | strings are ordered by the first character in which they differ, and equal only to themselves |
| KvList.KvList.constructor | source/lib/lib/kvlist.c:32-37 | a fresh store is the empty map, with a tree of its own |
| KvList.KvList.Lookup | source/lib/lib/kvlist.c:39-44 | the node of a name, NULL exactly if the map does not have it |
| KvList.KvList.Get | source/lib/lib/kvlist.c:46-55 | the value that the map has for the name, if any |
| KvList.KvList.Delete | source/lib/lib/kvlist.c:57-68 | the map loses exactly this name, and the result says whether it was there |
| KvList.KvList.Set | source/lib/lib/kvlist.c:70-89 | the map gets exactly this binding, to a copy of the data as long as get_len says; without memory the result is NULL and nothing changes |
| KvList.KvList.Free | source/lib/lib/kvlist.c:91-97 | every node is visited exactly once and the map is empty |
| KvRuns.LastCallCounts | source/lib/lib/kvlist.c:39-89 | after any sequence of calls, some of which may find no memory, a name has the value that the last successful call about it gave it |
| KvRuns.Perform | source/lib/lib/kvlist.c:39-89 | over any sequence of sets and deletes the store holds what the map holds |
| KvRuns.FromInitToFree | source/lib/lib/kvlist.c:32-97 | a store that is made, used by any sequence of calls, read and freed gives for a name the value of the last successful call about it |
| KvRuns.OneValue | source/lib/lib/kvlist.c:73 | without get_len exactly eight bytes come back from Get, and otherwise as many as it says |
| Md5Transform.FAgrees | source/lib/lib/md5.c:68 | the shorter form of F is the function of RFC 1321 |
| Md5Transform.GAgrees | source/lib/lib/md5.c:69 | the shorter form of G is the function of RFC 1321 |
| Md5Transform.HAgrees | source/lib/lib/md5.c:70-71 | both groupings are the H of RFC 1321 |
| Md5Transform.StepAgrees | source/lib/lib/md5.c:77-80 | the macro STEP is the operation of section 3.4 of RFC 1321 |
| Md5Transform.SetAgrees | source/lib/lib/md5.c:92-97 | the macro SET reads four bytes, low end first |
| Md5Transform.Rounds1 | source/lib/lib/md5.c:128-144 | the sixteen steps written out with rotating names are the first round of section 3.4 |
| Md5Transform.Rounds2 | source/lib/lib/md5.c:146-162 | the same for the second round |
| Md5Transform.Rounds3 | source/lib/lib/md5.c:164-180 | the same for the third round |
| Md5Transform.Rounds4 | source/lib/lib/md5.c:182-198 | the same for the fourth round |
| Md5Transform.Transform | source/lib/lib/md5.c:122-206 | one turn of the loop compresses one block as the RFC says |
| Rfc1321.FoldSplit | source/lib/lib/md5.c:106-214 | compressing can stop at any block boundary and go on from there |
| Md5.CarryCaught | source/lib/lib/md5.c:232-237 | comparing the wrapped sum with the old value catches every carry, so the two counters hold the length modulo 2^61 for any size_t |
| Md5.LengthBytes | source/lib/lib/md5.c:281-289 | the two counters, written out, are the low 64 bits of the length in bits that section 3.2 of RFC 1321 asks for |
| Md5.Md5Ctx.constructor | source/lib/lib/md5.c:216-225 | the initial state stands for the empty message |
| Md5.Md5Ctx.Body | source/lib/lib/md5.c:106-214 | the registers become the fold of the compression over all blocks |
| Md5.Md5Ctx.Hash | source/lib/lib/md5.c:227-259 | if the context stood for m, it stands for m and the data behind it: complete blocks in the registers, the rest in the buffer, the length in the counters |
| Md5.Md5Ctx.Finish | source/lib/lib/md5.c:263-279 | the padding of section 3.1, over one or two blocks |
| Md5.Md5Ctx.WriteResult | source/lib/lib/md5.c:293-308 | sixteen shifts write the registers in the order of section 3.5 of RFC 1321 |
| Md5.LowBytes | source/lib/lib/md5.c:293-308 | a byte that is cut from a shifted register is its byte at that place, low end first |
| Md5.Md5Ctx.End | source/lib/lib/md5.c:261-311 | the array is filled with the digest that RFC 1321 defines for everything hashed, and the numbers of the context are cleared |
| Md5.Md5Sum | source/lib/lib/md5.c:313-347 | however a message is cut into pieces, the digest is that of the whole |
| Md5Suite.DigestOfEmpty | source/lib/lib/md5.c:261-311 | the digest of nothing is d41d8cd98f00b204e9800998ecf8427e (section A.5 of RFC 1321) |
| Md5Suite.DigestOfLetterA | source/lib/lib/md5.c:261-311 | the digest of "a" is 0cc175b9c0f1b6a831c399e269772661 |
| Md5Suite.DigestOfAbc | source/lib/lib/md5.c:261-311 | the digest of "abc" is 900150983cd24fb0d6963f7d28e17f72 |
| Md5Suite.DigestOfDigits | source/lib/lib/md5.c:261-311 | the digest of eighty digits, over two blocks, is 57edf4a22be3c955ac49da2e2107b67a |
| Md5Suite.Md5SumOfAbc | source/lib/lib/md5.c:313-347 | in whatever pieces "abc" is read, md5sum computes its digest |
| Decimals.DigitsDecimal | source/lib/lib/serialize.c:116 | reading a printed number gives the number |
| Serialize.AToLDecimal | source/lib/lib/serialize.c:167-170 | a printed length fits the buffer of 64 bytes and is read back |
| Serialize.ReadFrame | source/lib/lib/serialize.c:132-181 | a well-formed frame is read as its text, whatever follows, and the reader stops right behind it |
| Serialize.FrameOf | source/lib/lib/serialize.c:78-92 | whatever is read was a well-formed frame followed by the rest |
| Serialize.GoToEnd | source/lib/lib/serialize.c:78-92 | the next frame is at least two bytes further on and inside the data |
| Serialize.StringRoundTrip | source/lib/lib/serialize.c:109-181 | any string comes back, with colons, digits and tag letters in it and anything behind it |
| SerializeSuite.LeadingCharacter | source/lib/lib/serialize.c:167-170 | white space and one sign may stand before the digits of a length |
| SerializeSuite.Saturates | source/lib/lib/serialize.c:167-170 | a number that does not fit a long is read as its largest or smallest value |
| SerializeSuite.Writes | source/tests/lib/serialize.c:72-76 | a text of sixteen characters is written behind "s16:" |
| SerializeSuite.ReadsTen | source/lib/lib/serialize.c:132-181 | of a text that is longer than its length says, as much is read |
| SerializeSuite.TooShort | source/tests/lib/serialize.c:143-148 | a length of 500 in front of 47 characters is refused with both numbers |
| SerializeSuite.Negative | source/lib/lib/serialize.c:169-180 | a length of -1 is taken for the largest there is, and refused |
| SerializeSuite.NotEven | source/tests/lib/serialize.c:119-136 | no data, another prefix and a missing delimiter each have their error |
| SerializeSuite.LongField | source/tests/lib/serialize.c:137-142 | a length of 64 characters or more is refused |
| SerializeConfig.SerializeConfig | source/lib/lib/serialize.c:195-258 | the buffer holds the frames of all groups, keys and values in order |
| DeserializeConfig.DeserializeConfig | source/lib/lib/serialize.c:277-344 | the loop ends on every input, and computes the function that the laws are about |
| DeserializeConfig.ParseAccepted | source/lib/lib/serialize.c:292-339 | frames in an order that the automaton accepts are read as the configuration that they stand for |
| DeserializeConfig.ParsedFrames | source/lib/lib/serialize.c:292-339 | whatever is accepted was written as frames in such an order, and means what they mean |
| SerializeLaws.AcceptedLanguage | source/lib/lib/serialize.c:292-339 | the automaton accepts exactly the prefixes of words of (g(pv)+)* |
| SerializeLaws.Language | source/lib/lib/serialize.c:278-344 | reading succeeds exactly on non-empty sequences of well-formed frames whose tags are such a prefix |
| SerializeLaws.Unambiguous | source/lib/lib/serialize.c:78-92 | no input can be cut into frames in two ways |
| SerializeErrors.RefusedAt | source/lib/lib/serialize.c:277-344 | an error is reported exactly at the first place where no string with the tag that has to follow can be read: the error of this string, and the place counted from 1 |
| SerializeSuite.RefusedFirst | source/tests/lib/serialize.c:267-271 | position 1 and a missing delimiter |
| SerializeSuite.RefusedSecond | source/tests/lib/serialize.c:272-276 | position 1 and a wrong prefix |
| SerializeSuite.RefusedThird | source/tests/lib/serialize.c:277-281 | position 10 and a wrong prefix behind a group |
| SerializeSuite.RefusedFourth | source/tests/lib/serialize.c:282-286 | position 10 and a text that is too short |
| ConfigValues.SetMeans | source/lib/lib/serialize.c:330 | setting a key changes its value and no other |
| ConfigValues.LastValueCounts | source/lib/lib/serialize.c:277-344 | a key of a group has the last value that the input gives it, and no key has a value that was not given |
| SerializeSuite.SecondValue | source/lib/lib/serialize.c:277-344 | an input that gives a key two values, of which the second remains |
| ConfigRoundTrip.RoundTrip | source/lib/lib/serialize.c:195-344 | a configuration comes back unchanged exactly if it has a group and every group a key |
| ConfigRoundTrip.Returned | source/lib/lib/serialize.c:195-344 | what comes back if all groups but the last have keys |
| ConfigRoundTrip.Refused | source/lib/lib/serialize.c:195-344 | everything else is refused |
| Orders.Transitive | source/lib/lib/avl.h:104 | what a comparison function is expected to keep to |
| SortedArray.DefCmpIsComparator | source/lib/lib/sorted-array.c:52-61 | the default comparison is a total order |
| SortedArray.DefCmpIsNumeric | source/lib/lib/sorted-array.c:52-61 | it is that of numbers: negative exactly if smaller, zero exactly if equal |
| SortedArray.SortedInsert | source/lib/lib/sorted-array.c:168-176 | putting a member where it fits keeps the order and adds exactly this member |
| SortedArray.SortedRemove | source/lib/lib/sorted-array.c:220-225 | taking a member out keeps the order and removes exactly this member |
| SortedArray.FirstIff | source/lib/lib/sorted-array.c:230-270 | the member found is the first with an equal value exactly if the first midpoint among the positions of these is the first of them |
| SortedArray.FirstIfUnique | source/lib/lib/sorted-array.h:52 | without duplicates it always is the first |
| SortedArray.FirstOfEquals | source/lib/lib/sorted-array.c:230-270 | if all members are equal, it is the first only if there are no more than two |
| SortedArray.SecondOfThree | source/lib/lib/sorted-array.c:230-270 | of three equal members the second is found |
| SortedArray.SortedArray.constructor | source/lib/lib/sorted-array.c:63-86 | an empty array with room for a member; without a comparison function it compares as numbers are compared |
| SortedArray.SortedArray.Search | source/lib/lib/sorted-array.c:133-159 | in either order, the halving loop finds a member that compares equal exactly if there is one, namely the first midpoint among their positions, and otherwise the place where the value belongs |
| SortedArray.SortedArray.Grow | source/lib/lib/sorted-array.c:119-131 | the members survive the growth, and there is room for one more than one |
| SortedArray.SortedArray.Add | source/lib/lib/sorted-array.c:104-178 | each error code exactly in its case and then nothing changes; otherwise the array is the old one with the member put in where it fits |
| SortedArray.SortedArray.InsertInto | source/lib/lib/sorted-array.c:168-176 | the shifting loop makes room at a position and keeps everything else |
| SortedArray.SortedArray.Remove | source/lib/lib/sorted-array.c:180-228 | true exactly if a member compares equal, and then the one where the loop stops leaves and is freed |
| SortedArray.SortedArray.Find | source/lib/lib/sorted-array.c:230-270 | true exactly if a member compares equal, with the data of the one where the loop stops |
| SortedArray.SortedArray.Get | source/lib/lib/sorted-array.c:277-286 | the member at the position, which stands behind all before it |
| SortedArray.SortedArray.Delete | source/lib/lib/sorted-array.c:288-303 | the array loses exactly the member at the position |
| SortedArray.SortedArray.Destroy | source/lib/lib/sorted-array.c:88-102 | every member is freed, in order |
| SortedNumbers.OrderOfFlags | source/lib/lib/sorted-array.h:28-30 | by the two flag bits, numbers stand in strictly rising, strictly falling, rising or falling order |
| SortedNumbers.AddNumber | source/lib/lib/sorted-array.c:104-178 | without a comparison function, -1 exactly if duplicates are not allowed and the number is there; otherwise the number comes in, in the order of the flags |
| SortedNumbers.RemoveNumber | source/lib/lib/sorted-array.c:180-228 | true exactly if the number is there, and then one member with it leaves |
| SortedNumbers.FindNumber | source/lib/lib/sorted-array.c:230-270 | true exactly if the number is there, with the data of a member with it |
| SortedNumbers.TwoNumbers | source/bin/src/renderer/dom-ops.c:123 | a run on an array made as for a document: two numbers go in, the first not again, and the second is found |
| SizePrint.RescaleExact | source/lib/lib/util.c:478-487 | each pass for SI units gives floor(size * 1024 / 1000), modulo the range of the type |
| SizePrint.NearestUnlessWrapped | source/lib/lib/util.c:512-516 | a reduction rounds to the nearest exactly if adding the half does not wrap around; if it does, nothing is left |
| SizePrint.BinaryError | source/lib/lib/util.c:512-516 | after k reductions the number shown is off by at most 512 * (1024^k - 1) / 1023 |
| SizePrint.DecimalError | source/lib/lib/util.c:512-516 | the same for SI units |
| SizePrint.LabelWidth | source/lib/lib/util.c:491-510 | what is printed never exceeds the width |
| SizePrint.LabelNumber | source/lib/lib/util.c:506-510 | the digits printed are the number |
| SizePrint.FitsIff | source/lib/lib/util.c:489-517 | a size fits in a unit exactly if it is below a bound in closed form, or if the first reduction wraps around |
| SizePrint.AlwaysWritten | source/lib/lib/util.c:489-517 | every size is written exactly if there are three digits for each unit beyond the second; from bytes and kilobytes it always is |
| SizePrint.NothingIsWritten | source/lib/lib/util.c:489-517 | of 2^64 - 4096 megabytes nothing is written to a field of one character |
| SizePrint.HugeVanishes | source/lib/lib/util.c:512-516 | a size within 512 of the largest is shown as less than a kilobyte |
| SizePrint.ShowsMeans | source/lib/lib/util.c:455-517 | what is printed means the size: its number times the power that its letter stands for is within the bound of rounding, and without a number the size is less than about half of the unit above the letter |
| SizePrint.TwentyGigabytes | source/bin/src/filemanager/info.c:184 | 20 gigabytes of free space are shown as "20G" |
| SizePrint.LongestNumbers | source/lib/lib/util.c:461-476 | a width of 0 means 9 and one of more than 19 means 19, told by which numbers are still written in full |
| SizePrint.SizeTruncLen | source/lib/lib/util.c:417-518 | the size in the smallest unit that fits, uncut and within the width; nothing exactly if no unit fits; what is written means the size, in the style of letters asked for, begins with "~" exactly if it has no number and room for it, and is "0" for nothing |
| Marshalling.IntRoundTrip | source/bin/src/background.c:245-248 | an int survives its four bytes |
| Marshalling.RequestRoundTrip | source/bin/src/background.c:223-271 | the parent decodes exactly the routine, type, context and arguments that were sent, and leaves what comes after them |
| Marshalling.TakeBlocksOf | source/bin/src/background.c:258-271 | arguments arrive as they were sent, whatever bytes they hold |
| Marshalling.RequestExample | source/bin/src/background.c:403-440 | the 26 bytes of a request with one argument |
| Marshalling.AtMostFour | source/bin/src/background.c:258-271 | four arguments are read, five are not |
| TaskList.TaskList.Register | source/bin/src/background.c:86-101 | the new task is in front of the others, answers for its descriptor go to it, and the main loop listens to it |
| TaskList.TaskList.Destroy | source/bin/src/background.c:105-131 | the newest task of the process leaves the list and its descriptor is returned; -1 and no change if there is none |
| TaskList.TaskList.UnregisterRunning | source/bin/src/background.c:489-494 | the job of the process leaves the list, and the channel with the descriptor is closed, whether or not they belong together |
| TaskList.TaskList.UnregisterWithPid | source/bin/src/background.c:498-506 | a job leaves together with its own channel, so that the main loop goes on listening to exactly the other jobs |
| TaskList.LeavesIff | source/bin/src/background.c:105-131 | a task leaves the list exactly if it is asked for by the number of its process |
| TaskList.TaskList.Find | source/bin/src/background.c:273-280 | where answers go for the first task with this descriptor |
| Background.ReadHeader | source/bin/src/background.c:245-256 | the reads between the routine and the arguments consume and decode what was written |
| Background.Link.constructor | source/bin/src/background.c:508-584 | the parent has registered the child in front of the others under its process, which its context now names, and knows where the answers go |
| Background.Link.Attention | source/bin/src/background.c:185-391 | exactly one request is consumed; it is answered with what the routine gives if the child is on the list of tasks, and not at all if reading fails; the context of the parent becomes that of the request, and then that of the routine; a farewell takes the job of the process off the list and is still answered; if no routine arrives, the job of the process that the context names leaves the list and the channel is closed |
| Background.Send | source/bin/src/background.c:403-440 | the child writes exactly the bytes of its request |
| Background.ReplyExamples | source/bin/src/background.c:335-381 | the bytes of a result, of a string and of no string |
| Background.Link.ParentCall | source/bin/src/background.c:423-449 | the child gets the result and the context that the routine gives for exactly these arguments and its own context, or for the arguments alone if it has none; a farewell gives 1 and clears the process in the context; both pipes are empty again |
| Background.Link.ParentCallString | source/bin/src/background.c:453-483 | the child gets the string that the routine gives for exactly these arguments, NULL for an empty one, and both pipes are empty again |
| Background.Link.Session | source/bin/src/background.c:403-483 | any sequence of calls gives what the routines would have given directly, the context passed on from call to call; afterwards parent and child agree on the context if it was ever passed |
| Background.DirectlyFollows | source/bin/src/background.c:403-483 | each reply is what its routine gives for its own arguments and the context that the call before left |
| Background.TwoCalls | source/bin/src/background.c:317-328 | a run of two calls in which the second result comes from its argument and from the context of the first |
| Background.Link.Lost | source/bin/src/background.c:223-243 | if the child ends without a farewell after any sequence of calls, its channel is closed, and its task stays on the list exactly if a context was passed and the last one does not name its process |
| Background.Forgotten | source/bin/src/background.c:223-256 | a run from the start of a child to its loss, at the end of which its job is still listed and nobody listens to it |
| Background.Link.EndBgProcess | source/bin/src/filemanager/file.c:2151-2163 | the job of the process that the context names leaves together with its channel, and the context names none any more |
| Background.Link.Farewell | source/bin/src/filemanager/file.c:3443-3455 | after any sequence of calls the farewell takes exactly the job of the process off the list and closes its channel, whatever contexts were passed, and the child gets all replies, that of the farewell included |
| Utf8.PrefixIsLongest | source/bin/purcsmg/purcsmg.c:397-410 | the check for UTF-8 stops at a character boundary, and there is none further on within reach |
| Utf8.PrefixGetsOn | source/bin/purcsmg/purcsmg.c:485-497 | before the end of the valid part a check of 1024 bytes finds a character |
| Utf8.Check | source/bin/purcsmg/purcsmg.c:397-410 | the loop over characters stops at the furthest character boundary within reach |
| Utf8Encoding.EncodingIsCharacter | source/bin/purcsmg/purcsmg.c:397-410 | the encoding of every scalar value is one character, as long as the encoding |
| Utf8Encoding.CharacterIsEncoding | source/bin/purcsmg/purcsmg.c:397-410 | every character is the encoding of a scalar value |
| Utf8Encoding.BoundaryIff | source/bin/purcsmg/purcsmg.c:397-410 | a boundary is reached exactly by the encodings of sequences of scalar values |
| AutotestSafety.TickKeeps | source/bin/purcsmg/purcsmg.c:990-1038 | a tick keeps the invariant of its window and its phase |
| AutotestSafety.RespondKeeps | source/bin/purcsmg/purcsmg.c:246-318 | an answer keeps the invariant of its window and moves it only forward |
| AutotestRuns.Safety | source/bin/purcsmg/purcsmg.c:246-1038 | over any sequence of ticks and answers the invariant of all windows holds and no window moves back |
| AutotestRuns.WindowSafety | source/bin/purcsmg/purcsmg.c:246-1038 | in every run, to its very end: at most one request outstanding and then the window waits, as many changes sent as counted and no more than allowed, never a reset |
| AutotestProtocol.OrderOfRequests | source/bin/purcsmg/purcsmg.c:990-1038 | in every run the requests of a window go out in one order: created, loaded or written in pieces to the end, changed, destroyed; its phase says how far they are, and a destroyed window was changed as often as it was to be |
| AutotestProtocol.TickServes | source/bin/purcsmg/purcsmg.c:990-1038 | a tick sends a request exactly if its window waits for nothing and has something to do; the test stops exactly if that fails, if the window is fatal, or if it is destroyed and all count as destroyed |
| AutotestProtocol.AnswerMoves | source/bin/purcsmg/purcsmg.c:246-318 | the phase after each answer: a failure before the first change, or when the window is destroyed, is fatal, and a cancellation changes nothing |
| AutotestProtocol.ChangeByTurn | source/bin/purcsmg/purcsmg.c:833-843 | the way of a change is the count of ticks modulo 14, with one window the one asked for |
| AutotestManual.NothingIsDestroyed | source/bin/purcsmg/purcsmg.c:1016-1023 | with the option -n, in every run each window is changed at most once, never destroyed, and gets no further than testing |
| AutotestManual.TestingRests | source/bin/purcsmg/purcsmg.c:1019-1020 | with the option -n a tick for a window under test changes nothing but the count of ticks, and the test goes on |
| AutotestRuns.DestroyedBalance | source/bin/purcsmg/purcsmg.c:298-315 | nr_destroyed_wins counts the destroyed windows and, besides, each failed request to destroy one |
| AutotestRuns.DestroyedCount | source/bin/purcsmg/purcsmg.c:298-315 | nr_destroyed_wins is the number of destroyed windows exactly if no request to destroy a window was answered with a failure |
| AutotestExamples.CountedButFatal | source/bin/purcsmg/purcsmg.c:298-315 | a run at whose end a window counts as destroyed and is fatal |
| AutotestRuns.UploadPieces | source/bin/purcsmg/purcsmg.c:381-531 | every piece but the last is not empty, has at most 1024 bytes and consists of whole characters |
| AutotestUpload.UploadComplete | source/bin/purcsmg/purcsmg.c:381-531 | once a window has its document, the texts sent are the document exactly if it is well-formed, or was loaded, or cannot be cut evenly; otherwise they are its well-formed part |
| AutotestUpload.UploadForeseen | source/bin/purcsmg/purcsmg.c:381-531 | with eight windows it is known from the settings which of them load the document and which cut it |
| AutotestUpload.SmallUpload | source/bin/purcsmg/purcsmg.c:389 | a document within the limit for payloads in memory always arrives as a whole |
| AutotestUpload.EndLost | source/bin/purcsmg/purcsmg.c:457-531 | for any limit of payloads in memory and a larger multiple of 1024 letters with a byte behind them that is not UTF-8: with eight windows every other one loses that byte in every run |
| AutotestUpload.LettersForLimit | source/bin/purcsmg/purcsmg.c:389 | there is such a document for every limit |
| AutotestExamples.LosesIff | source/bin/purcsmg/purcsmg.c:381-531 | some run of a single window loses the end of the document exactly if there is an end that is not UTF-8, the rest exceeds the limit, and it can be cut evenly |
| AutotestExamples.EndLeftBehind | source/bin/purcsmg/purcsmg.c:457-531 | for any limit, there is a run in which a single window loses the end of such a document |
| AutotestUpload.WaysOfChange | source/bin/purcsmg/purcsmg.c:833-843 | in every run a single window is only changed in the way that was asked for, and of eight windows each only in every other way, those at even places in odd ways and the others in even ones |
| AutotestProgress.WriteGrows | source/bin/purcsmg/purcsmg.c:381-531 | each request with a text takes len_wrotten strictly further, up to len_content at most |
| AutotestProgress.TickProgress | source/bin/purcsmg/purcsmg.c:990-1038 | a tick lowers the measure of a window that has something to send and leaves any other alone |
| AutotestProgress.RespondProgress | source/bin/purcsmg/purcsmg.c:246-318 | every successful answer lowers the measure |
| AutotestProgress.WorkIsBounded | source/bin/purcsmg/purcsmg.c:990-1038 | without failures, no run has more than nrWindows * 2 * (lenContent + 130) events that get something done |
| AutotestProgress.Stalled | source/bin/purcsmg/purcsmg.c:990-1038 | if nothing gets done for as many events as there are windows, every window is destroyed or waits for the renderer |
| AutotestProgress.StopsWhenDone | source/bin/purcsmg/purcsmg.c:973-984 | without failures the test stops by itself exactly when all windows are destroyed |
| AutotestEnding.Completion | source/bin/purcsmg/purcsmg.c:990-1038 | every run without failures of (2 * nrWindows * (lenContent + 130) + 1) * nrWindows events has a state in which each window is destroyed or waits for an answer |
| AutotestEnding.NoneWaiting | source/bin/purcsmg/purcsmg.c:973-1038 | if none waits in such a state, all windows are destroyed and the next tick stops the test |
| AutotestEnding.EveryWindowIsDestroyed | source/bin/purcsmg/purcsmg.c:246-1038 | if no request fails except while changes are tested, and a waiting window never waits for more than a given number of events, the test ends by itself within a number of events known beforehand, with every window destroyed |
| Autotest.RunInfo.constructor | source/bin/purcsmg/purcsmg.c:213-244 | the variables stand for the initial state |
| Autotest.RunInfo.RunAutotest | source/bin/purcsmg/purcsmg.c:990-1038 | run_autotest does to its variables what a tick does in the model |
| Autotest.RunInfo.ResponseHandler | source/bin/purcsmg/purcsmg.c:246-318 | my_response_handler does to its variables what an answer does in the model |
| Autotest.RunInfo.LoadOrWriteDocument | source/bin/purcsmg/purcsmg.c:381-455 | load or writeBegin, as the model says |
| Autotest.RunInfo.WriteMoreDocument | source/bin/purcsmg/purcsmg.c:457-531 | writeMore or writeEnd, as the model says |

## Left out

- AutotestRuns.WindowSafety: says nothing about runs with events of the renderer (`my_event_handler`), which can count a window twice.
- DeserializeConfig.DeserializeConfig: the configuration is an ordered map that stores strings unchanged; the escaping and the character sets of GKeyFile are libraries not shown here.
- Md5.Md5Ctx.End: of the final memset only the numbers of the context are modelled, not the bytes of the buffer.
- Background.Link.Attention: routines other than `end_bg_process` do not change the list of tasks; a context of which only a part arrives leaves that of the parent alone. A request with more than four or a negative number of arguments, an unknown return type or a negative block size counts as a failed reading; the source goes on with undefined behaviour.
- KvList.KvList.Set: `data` and `name` are values; a pointer into the node of that name, which is freed before they are copied, is not modelled. Here and in `SortedArray.SortedArray.Add` a parameter says whether memory is found; elsewhere it always is.
- The element loops of `avl.h` other than `avl_remove_all_elements`, and `avl_is_first`, `avl_is_last` and `avl_is_empty` beyond the tests of `list.h` that they consist of.
- The splicing and moving operations of `list.h`, which the tree does not use.
- The custom pointer that the tree hands to its comparison function.
- `hex2bin` (source/lib/lib/md5.c:365-399), which joins half bytes low end first and maps letters to 0 to 5, so it does not undo `bin2hex`; the sum that `md5sum` returns, opening and reading files, and the unaligned fast read of words.
- Freeing of memory, as far as it is not a call of `free_fn`; the prefix that error messages get, other than its position.
- `mc_calloc_a` (source/lib/lib/util.c), which lays out several buffers in one allocation, and the string and path helpers of the same file: each says what its body says.
- Partial reads and writes on pipes, `fork`, `waitpid`, signals and messages, and casts between function pointers: routines are functions of their arguments, and the parent wakes up when the child has written a request and waits.
- Handles of windows and documents, the contents of changes, message texts, timeouts and the protocol library of the renderer: a request works or not, and is answered at most once. The check for UTF-8 is modelled by the syntax of RFC 3629, and the limit for payloads in memory is a parameter of at least 1024.
- `help.c`, `usermenu.c`, `setup.c`, `keymap.c`, `learn.c`, character sets, the console saver, shells and logging: user interface, tables and calls into libraries not shown here.
- The command history of `purcsmg` and the wrappers of `purcsex`.
