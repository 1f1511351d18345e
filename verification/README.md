# Wyliodrin server: verified models

This project models the parts of the Wyliodrin server and hypervisor in which state, pointers or bytes
are easiest to get wrong, and proves what they are for.

* **Red-black tree** (`libds/tree.c`): `TreeShape.dfy`, `RedBlackTree.dfy`, `TreeWalk.dfy`, `TreeDelete.dfy`
  with `Ordering.dfy`. Nodes with parent pointers, linked and relinked in place. A ghost `Shape` is the tree
  the pointers spell out, a `Context` is such a tree with a hole; every pointer assignment is proved to turn
  one shape into another, and order, colours and black heights are stated on shapes.
* **FUSE and XMPP hand-shake** (`files/files.c`, `wxmpp/wxmpp.c`): `Handshake.dfy`. A step relation with one
  step for each access to a shared variable, so that the flag resets that `files.c` makes outside the mutex
  interleave with everything else.
* **Shell table** (`hypervisor/shells/shells.c`): `ShellTable.dfy` is the state machine (256 slots, project
  files, published responses, effects on processes), `ShellRuns.dfy` and `ShellPromises.dfy` what holds over
  runs, `ShellHandlers.dfy` the handlers that update shell records in place, each proved to be one step, and
  `ShellResponses.dfy` the bytes of the responses, whose length decides whether they are published.
* **MessagePack** (`cmp/cmp.c`): `MessagePack.dfy` (one value as bytes), `MessagePackItems.dfy` (typed writes
  and reads), `MessagePackBuffer.dfy` (the bounded buffer with its two cursors), on `Bytes.dfy`.
* **Messages over redis**: `Framing.dfy` from the server to the hypervisor (`shells/shells.c`,
  `hypervisor/wredis/wredis.c`), `Stanzas.dfy` the same by the names and words of the stanza, `Replies.dfy` the
  way back (`communication/communication.c`).
* **Base64** (`base64/base64.c`): `Base64.dfy`, against section 4 of RFC 4648.
* **Binary heap and vector** (`libds/heap.c`, `libds/vector.c`): `BinaryHeap.dfy`, `HeapOperations.dfy`,
  `Vector.dfy`.
* **Hash map** (`libds/hashmap.c`): `HashMap.dfy`.
* `Basics.dfy` holds what the others share.

The copies of `cmp` and `base64` below `hypervisor/` are the same code and are modelled once.

Some properties one would expect do not always hold; the project states exactly when they do.

* A project file is removed through a 64-byte path buffer but created through one of 128 bytes
  (`hypervisor/shells/shells.c:425`, `:1171`). The files and the slots agree after a run exactly when no
  project with more than 48 characters ended in it (`ShellRuns.RunAgrees`); `ShellPromises.LongIdKeepsRunning`
  is a run of two steps after which they never agree again.
* An open request for a project that already runs gets no answer and changes nothing when it names no user
  (`hypervisor/shells/shells.c:431`). That is the only way to lose an answer that fits its buffer
  (`ShellPromises.OpenIsAnswered`); `ShellPromises.SecondOpenIsNotAnswered` is a run of two equal requests of
  which the second one is lost.
* A status request is answered exactly when request and project fit 128 bytes together, and otherwise nothing
  happens (`ShellPromises.StatusIsTrue`).
* A FUSE call can end without failing although no reply ever arrived, because each call clears the flags of a
  lost connection outside the mutex (`files/files.c:81-87`): a disconnect that sets a flag behind those resets
  answers the next call. A call that ends without failing was answered exactly when its flag does not come
  from such a disconnect (`Handshake.AnsweredUnlessOvertaken`); `Handshake.EndsWellUnanswered` is such a run.
* Of the calls that lose their connection only getattr reports an error; readdir gives an empty directory and
  read a buffer of zeros (`files/files.c:206`, `:307`, `Handshake.ExaminedCallEnds`).
* `base64_encode` refuses sizes from `UINT_MAX / 4` on, and negative sizes (`base64/base64.c:83`).
* `cmp_write_ext` with no data reports failure although the bytes are written, because `string_writer` returns
  the count 0 (`cmp/cmp.c:275-285`, `:947`).
* The header of a message counts on exactly two attributes being passed over (`shells/shells.c:129`). With
  fewer the reader loses the last pair or the last two, with more it runs out of bytes
  (`Framing.ReadWrittenMessage`); `Framing.ProjectIsLost` is a stanza without gadgetid whose project is lost.
* The server abbreviates the action "resize" but cannot spell it out again (`shells/shells.c:84`,
  `communication/communication.c:749-754`, `Replies.AbbreviationsReturn`).
* `hashmap_remove` drops from the list of keys the first one that starts with the removed key
  (`libds/hashmap.c:82`). The list stays exact precisely if no key put before it starts with it
  (`HashMaps.ListsOneLess`); `HashMaps.RemoveShorterKey` is a map whose list is wrong afterwards.

`build_heap` on 0 or 1 elements does nothing on 64-bit machines: the unsigned subtraction wraps around and the
index becomes -1 (`HeapOperations.FirstToSink`).

Assumptions: memory accesses of the two hand-shake threads are sequentially consistent; allocation succeeds;
`int` has 32 bits and `size_t` 64; texts are shorter than 4 GiB; a project id is a plain file name; the
handlers and the ends of shells are atomic steps.

`dafny verify dfyconfig.toml` checks everything.

## Model

| member | source | states |
|---|---|---|
| `TreeShape.PlugInOrder` | libds/tree.c:77-117 | the in-order sequence of a whole tree is what lies before a hole, what fills it and what lies after |
| `TreeShape.CellInside` | libds/tree.c:143-161 | the fields of the nodes of a subtree do not depend on where it hangs |
| `TreeShape.CellOutside` | libds/tree.c:155-159 | filling a hole differently changes one child pointer, in the node above it, and nothing else |
| `TreeShape.GoodPlug` | libds/tree.c:200-244 | putting a good tree of the right black height into a place that fits it gives a red-black tree |
| `TreeShape.GoodUnplug` | libds/tree.c:200-244 | conversely every place in a red-black tree fits a black height that its subtree has |
| `Ordering.InsertedIsSorted` | libds/tree.c:14-36 | inserting behind every element that compares less or equal keeps a sequence sorted |
| `RedBlackTree.RotatedLeftOrder` | libds/tree.c:143-161 | a left rotation keeps the in-order sequence and the set of nodes |
| `RedBlackTree.RotatedRightOrder` | libds/tree.c:163-181 | the same for a right rotation |
| `RedBlackTree.LeftRotatedCells` | libds/tree.c:147-160 | the fields of every node after a left rotation: at most four nodes differ, and how |
| `RedBlackTree.RightRotatedCells` | libds/tree.c:167-180 | the same for a right rotation |
| `RedBlackTree.LeftRotatedLinks` | libds/tree.c:143-161 | with those fields the nodes spell out the rotated tree, parent links included |
| `RedBlackTree.RightRotatedLinks` | libds/tree.c:163-181 | the same for a right rotation |
| `RedBlackTree.Tree.LinkLeft` | libds/tree.c:147-160 | the pointer assignments of `left_rotate` produce exactly those fields |
| `RedBlackTree.Tree.LinkRight` | libds/tree.c:167-180 | the pointer assignments of `right_rotate` produce exactly those fields |
| `RedBlackTree.Tree.LeftRotate` | libds/tree.c:143-161 | from a consistently linked tree to the rotated one; nothing happens without a right child |
| `RedBlackTree.Tree.RightRotate` | libds/tree.c:163-181 | from a consistently linked tree to the rotated one; nothing happens without a left child |
| `RedBlackTree.BelongsBelow` | libds/tree.c:20-25 | each comparison on the way down chooses the side the new element belongs to |
| `RedBlackTree.InsertedWhereItBelongs` | libds/tree.c:14-36 | a leaf at the place found goes behind every element that compares less or equal, and order is kept |
| `RedBlackTree.Tree.Descend` | libds/tree.c:15-26 | the descent ends at the empty place where the element belongs |
| `RedBlackTree.Tree.LinkLeaf` | libds/tree.c:28-33 | the new node is hung at the root or on the side of its parent that the comparison tells |
| `RedBlackTree.Tree.TreeInsert` | libds/tree.c:14-36 | adds one fresh node behind every element that compares less or equal; links and order stay valid |
| `RedBlackTree.Tree.Relatives` | libds/tree.c:206-224 | a red node below a red parent has a grandparent, and the pointers the loop follows are its relatives |
| `RedBlackTree.Tree.InnerLeft` | libds/tree.c:215-217 | the inner case keeps the sequence and the depth and leads to the outer case |
| `RedBlackTree.Tree.OuterLeft` | libds/tree.c:218-222 | the outer case restores the colours of its subtree and moves nearer to the root |
| `RedBlackTree.Tree.RecolorLeft` | libds/tree.c:210-214 | a red uncle: three colours change, black heights stay equal, the fault moves up two levels |
| `RedBlackTree.Tree.InnerRight` | libds/tree.c:230-232 | the mirrored inner case |
| `RedBlackTree.Tree.OuterRight` | libds/tree.c:233-237 | the mirrored outer case |
| `RedBlackTree.Tree.RecolorRight` | libds/tree.c:225-229 | the mirrored red-uncle case |
| `RedBlackTree.Tree.FixLeft` | libds/tree.c:208-222 | a round whose parent is a left child: the only fault stays a red parent of a red node; the measure (depth, inner) falls |
| `RedBlackTree.Tree.FixRight` | libds/tree.c:223-238 | a round whose parent is a right child |
| `RedBlackTree.Tree.BlackenRoot` | libds/tree.c:241 | after the loop a black root makes a red-black tree |
| `RedBlackTree.Tree.FixUp` | libds/tree.c:206-241 | the loop terminates and ends in a red-black tree with the same sequence |
| `RedBlackTree.Tree.RbInsert` | libds/tree.c:200-244 | from any red-black tree to one whose sequence has the element behind all less or equal ones; links, order, equal black counts and the absence of red-red pairs are kept |
| `TreeWalk.GoodHeight` | libds/tree.c:200-244 | the height is at most twice the black height, and 2 to the black height at most n + 1 |
| `TreeWalk.HeightBound` | libds/tree.c:200-244 | a red-black tree of height h with n nodes has 2^ceil(h/2) <= n + 1 |
| `TreeWalk.SearchR` | libds/tree.c:119-129 | finds an equal element below a node exactly when there is one, in at most height comparisons |
| `TreeWalk.TreeSearch` | libds/tree.c:131-133 | the same for the whole tree; in a red-black tree in at most 2*log2(n + 1) comparisons |
| `TreeWalk.TreeMinimum` | libds/tree.c:77-81 | the first node in order below a node |
| `TreeWalk.TreeMaximum` | libds/tree.c:83-87 | the last node in order below a node |
| `TreeWalk.ClimbRight` | libds/tree.c:109-114 | the climbing loop of `tree_successor` terminates at the next node in order, or NULL |
| `TreeWalk.DownRight` | libds/tree.c:107-108 | with a right child the next node in order is the minimum below it |
| `TreeWalk.TreeSuccessor` | libds/tree.c:104-117 | the node one place further in order, NULL behind the last |
| `TreeWalk.ClimbLeft` | libds/tree.c:94-99 | the climbing loop of `tree_predecessor` terminates at the node before, or NULL |
| `TreeWalk.TreePredecessor` | libds/tree.c:89-102 | the node one place earlier in order, NULL before the first |
| `TreeWalk.OrderIsInjective` | libds/tree.c:77-117 | no node has two places in the order |
| `TreeWalk.StepsAreInverse` | libds/tree.c:89-117 | predecessor undoes successor and the other way round |
| `TreeWalk.VisitAll` | libds/tree.c:77-117 | from the minimum by successors every node is visited once, in order, up to NULL |
| `TreeDelete.Unlink` | libds/tree.c:45-58 | the pointer assignments of `pull_out`: which fields change in which nodes |
| `TreeDelete.PrunedLinks` | libds/tree.c:45-58 | with those fields the other nodes spell out the tree with the child in the place of the node, parent links included |
| `TreeDelete.TakeOut` | libds/tree.c:45-58 | taking out a node with at most one child leaves a consistently linked tree with that child in its place |
| `TreeDelete.PrunedOrder` | libds/tree.c:45-58 | it removes just that node's element from the sequence |
| `TreeDelete.ReplacedOrder` | libds/tree.c:41-65 | removing the successor and moving its data removes just the node's own element |
| `TreeDelete.FirstIsNext` | libds/tree.c:41-43 | the node taken out in the two-children case is the next one in order |
| `TreeDelete.TakeSuccessor` | libds/tree.c:38-68 | the two-children case of `pull_out` |
| `TreeDelete.PullOut` | libds/tree.c:38-68 | exactly the element at the node's place goes; the node taken out is the node itself or its successor |
| `TreeDelete.TreeDelete` | libds/tree.c:70-75 | deletion of any node keeps order and parent links and removes exactly its element |
| `Handshake.FuseStepKeepsInv` | files/files.c:80-162 | every step of a FUSE call keeps the invariant: mutex ownership, a set flag is never slept through, a finished disconnect leaves its flags set |
| `Handshake.XmppStepKeepsInv` | wxmpp/wxmpp.c:259-277 | every step of a reply or disconnect handler keeps it |
| `Handshake.RunKeepsInv` | files/files.c:80-335 | it holds in every interleaving |
| `Handshake.NeverAsleepWithFlag` | files/files.c:114-117 | a sleeping call whose flag is set implies that the XMPP thread holds the mutex and still has to signal |
| `Handshake.DisconnectReleases` | wxmpp/wxmpp.c:259-277 | once a disconnect branch has finished, a call that passed its online check earlier is not asleep and finds its flag and `signal_fail` set, until it clears them itself |
| `Handshake.MutualExclusion` | files/files.c:95-159 | the two threads are never both between lock and unlock |
| `Handshake.LeavingStep` | files/files.c:114-159 | a released call can only move towards its end, whatever the other thread does |
| `Handshake.ExaminedCallEnds` | files/files.c:121-159 | a call that has seen its flag keeps the mutex to its end whatever the other thread does; with `signal_fail` it ends as a failure and clears all four flags, without it gives back the reply and clears its own flag only |
| `Handshake.ReleasedCallEnds` | files/files.c:114-162 | it ends in at most 11 steps of its own; one that a disconnect released from its wait ends as a failure with all four flags clear |
| `Handshake.DisconnectEndsTheWait` | wxmpp/wxmpp.c:266-277 | the deadlock the branch is there to avoid cannot happen: a call waiting when the branch ends finishes, in every continuation; getattr gives back -ENOENT, readdir an empty directory, read zeros, and all flags are clear |
| `Handshake.XmppGivesMutexBack` | wxmpp/wxmpp.c:268-277 | the XMPP thread keeps the mutex for at most 6 of its steps |
| `Handshake.LeavingIsNeverStuck` | files/files.c:114-159 | a released call can move, or the XMPP thread holds the mutex and can |
| `Handshake.OnlyReplyOrDisconnectReleases` | files/files.c:114-117 | other replies, spurious wake-ups and the owner going offline do not end a wait |
| `Handshake.ReplyEndsTheWait` | files/files.c:432-438 | when a reply of the awaited kind arrives for a waiting call, three steps of the XMPP thread and 11 of its own end the call, in whatever order the threads run |
| `Handshake.OnlineCheck` | files/files.c:89-91 | in every run a call made after the owner went offline or the connection broke ends at its online check with -ENOENT, and one made after the owner came online passes it |
| `Handshake.AsksOnce` | files/files.c:98-112 | in every run the stanzas sent are those of the calls that passed their online check, one each, of their kind |
| `Handshake.RunExplains` | files/files.c:81-87 | in every interleaving a flag is set exactly when a reply or a disconnect wrote it last, and a flag a disconnect left in the ordinary way comes with `signal_fail` |
| `Handshake.AnsweredUnlessOvertaken` | files/files.c:114-122 | a call about to end without failing was answered by a reply of its kind, if and only if its flag does not come from a disconnect that overtook the resets outside the mutex |
| `Handshake.CalmRunsAreAnswered` | files/files.c:81-122 | in a run in which no disconnect sets a flag behind those resets, every call that ends without failing was answered |
| `Handshake.EndsWellUnanswered` | wxmpp/wxmpp.c:266-277 | a concrete run without any reply, for each kind of call, in which the call sees its flag and no failure |
| `ShellTable.FirstFree` | hypervisor/shells/shells.c:986-996 | the least free slot, or the number of slots when none is free |
| `ShellTable.AllocateKeepsInv` | hypervisor/shells/shells.c:499-542 | a new shell in the first free slot keeps files and slots in agreement |
| `ShellTable.OpenKeepsInv` | hypervisor/shells/shells.c:412-558 | so does opening, reopening and every failing way out |
| `ShellTable.ReleaseKeepsInv` | hypervisor/shells/shells.c:1168-1182 | giving up a slot keeps the agreement if and only if the project id has at most 48 characters |
| `ShellTable.ExitKeepsInv` | hypervisor/shells/shells.c:1122-1191 | the end of a shell, restart included, keeps it if and only if the project id has at most 48 characters |
| `ShellTable.StaleFileBlocksRestart` | hypervisor/shells/shells.c:423-437 | with a longer id the file left behind makes the restart give up |
| `ShellTable.ResponseSizes` | hypervisor/shells/shells.c:355-402 | the sizes of the four responses, in terms of the texts in them |
| `ShellTable.DecimalReads` | hypervisor/shells/shells.c:385-386 | a number is printed as digits that read as the number, most significant first, without leading zeros |
| `ShellTable.PrintedReads` | hypervisor/shells/shells.c:1131-1132 | the same for codes, with a minus sign in front of negative ones |
| `ShellRuns.StepKeepsInv` | hypervisor/shells/shells.c:239-260 | every handler and every end of a shell keeps the agreement, except the end of a project with a longer id, which breaks it |
| `ShellRuns.StaleFileStays` | hypervisor/shells/shells.c:1168-1173 | a file of a longer id that names no live shell of its project is never removed or made true again |
| `ShellRuns.LongIdGoesStale` | hypervisor/shells/shells.c:1168-1180 | the end of a project with a longer id leaves such a file |
| `ShellRuns.RunAgrees` | hypervisor/shells/shells.c:222-260 | after any run a file holds i exactly when slot i is a live shell of that project with id i, if and only if no project with a longer id ended in the run |
| `ShellRuns.StartAgrees` | hypervisor/shells/shells.c:222-236 | both are empty after `init_shells` |
| `ShellRuns.ShortNamesAgree` | hypervisor/shells/shells.c:222-260 | with ids of at most 48 characters they agree in every reachable state |
| `ShellPromises.OneSlotEach` | hypervisor/shells/shells.c:423-452 | a project occupies at most one slot |
| `ShellPromises.ReopenFindsTheSlot` | hypervisor/shells/shells.c:423-452 | an open request that carries a request, a user and both sizes, for a running project, is answered with its slot if the answer fits; it replaces that shell's request and user and connects it, and changes nothing else |
| `ShellPromises.OpenStartsAShell` | hypervisor/shells/shells.c:454-542 | any other open request, when a shell can be started, fills the least free slot with a record of the sizes, process, request, project and user it names, and writes one project file, named by the first 112 characters of the id |
| `ShellPromises.OpenFails` | hypervisor/shells/shells.c:457-468 | without both sizes, and when no shell can be started, an error is published and nothing else happens |
| `ShellPromises.OpenAnswersFit` | hypervisor/shells/shells.c:345-402 | the length up to which a request gets its answer, by slot and kind of answer |
| `ShellPromises.OpenIsAnswered` | hypervisor/shells/shells.c:412-558 | an open request gets no answer, and changes nothing, if and only if it has both sizes, its project runs and it names no user; otherwise it gets one answer, if that fits: the slot of a connected shell of that project holding the request exactly when the project runs or a shell can be started, an error if not |
| `ShellPromises.RepeatedOpenIsLost` | hypervisor/shells/shells.c:429-431 | whenever a request without a user starts a project, the same request sent again is lost |
| `ShellPromises.SecondOpenIsNotAnswered` | hypervisor/shells/shells.c:429-431 | a concrete run of two equal requests: the first one is answered, the second one is not |
| `ShellPromises.StatusIsTrue` | hypervisor/shells/shells.c:742-815 | a status request is answered if and only if request and project together fit the 128 bytes of the answer, and otherwise changes nothing; the answer says running exactly when some slot runs the project |
| `ShellPromises.SizeSurvives` | hypervisor/shells/shells.c:1157-1158 | the 8-byte size strings keep a size exactly from -999999 to 9999999 |
| `ShellPromises.ReprintedIsCut` | hypervisor/shells/shells.c:1157-1158 | any other size becomes the number that the first seven characters of its text stand for |
| `ShellPromises.WhenAProjectComesBack` | hypervisor/shells/shells.c:1140-1189 | after the end of its shell a project occupies a slot if and only if it was in the background, it exited with a code other than 0 or got SIGSEGV, its id has at most 48 characters and the fork succeeds |
| `ShellPromises.RestartTakesTheLeastFreeSlot` | hypervisor/shells/shells.c:1140-1189 | it then occupies the least free slot, with its project, user and size, no request, disconnected; a slot is always there |
| `ShellPromises.EndFreesTheSlot` | hypervisor/shells/shells.c:1164-1182 | otherwise the slot is free afterwards, for shells without a project too, the project file goes by the first 48 characters of the id, and nothing else changes |
| `ShellPromises.StepConnects` | hypervisor/shells/shells.c:439-446 | opening or reopening connects a shell, closing, disconnecting or restarting detaches it, and no other step changes that |
| `ShellPromises.StepKeepsTheProcess` | hypervisor/shells/shells.c:999-1035 | a live shell keeps its id, process, size and project until its own process ends |
| `ShellPromises.StepKeepsTheUser` | hypervisor/shells/shells.c:443-444 | opening its project again is all that changes the user of a live shell |
| `ShellPromises.StepRemembersRequests` | hypervisor/shells/shells.c:440-446 | which steps replace, clear or keep the request of the shell in a slot |
| `ShellPromises.StepActs` | hypervisor/shells/shells.c:583-587 | only closing and typing act on a process, once each, and only on that of the live shell they name, whose request they also replace; a close in the background stops nothing |
| `ShellPromises.RequestSends` | hypervisor/shells/shells.c:574-593 | closing a shell that is not there is answered with the id as it was sent and the code -1 and changes nothing; closing a live one, keys and disconnecting publish nothing; none of them touches a project file |
| `ShellPromises.NoRequestNoStep` | hypervisor/shells/shells.c:561-568 | a message without a request id, or without the shell id or project it needs, changes nothing |
| `ShellPromises.RequestIsTheLatest` | hypervisor/shells/shells.c:440-446 | the request a live shell holds is the latest one the run sent to it, by open, reopen, keys or close |
| `ShellPromises.EndSends` | hypervisor/shells/shells.c:1134-1138 | what the end of a shell publishes, restart or not: its id in digits and its exit code, 0 after a signal |
| `ShellPromises.EndIsReportedOnce` | hypervisor/shells/shells.c:1122-1191 | in every run each end publishes exactly one close response with the latest request, the id and the exit code, 0 after a signal, if there was a request and the response fits, and nothing otherwise |
| `ShellPromises.ShortReportsFit` | hypervisor/shells/shells.c:596-648 | a close response with a request of at most 107 characters always fits; with a longer one there is a shell and a code for which it does not |
| `ShellPromises.RestartsAreDefined` | hypervisor/shells/shells.c:1145-1161 | in every run whose requests name a user when they open a project, the user id that a restart copies is there |
| `ShellPromises.FilesStayInRange` | hypervisor/shells/shells.c:433-437 | one step keeps every project file an index of the table |
| `ShellPromises.FilesAlwaysInRange` | hypervisor/shells/shells.c:433-437 | so in every run the index read from a project file, which the code does not check, is one of the table |
| `ShellPromises.LongIdKeepsRunning` | hypervisor/shells/shells.c:1168-1173 | a concrete run: a project with 50 characters has ended, no shell is left, and it counts as running and cannot be opened |
| `ShellHandlers.Record.constructor` | hypervisor/shells/shells.c:1008-1032 | the fields of a new record; connected exactly when there is a request |
| `ShellHandlers.Hypervisor.constructor` | hypervisor/shells/shells.c:222-236 | the table of the initial state |
| `ShellHandlers.Hypervisor.GetEntry` | hypervisor/shells/shells.c:986-996 | the loop finds the least free slot |
| `ShellHandlers.Hypervisor.AllocateRecord` | hypervisor/shells/shells.c:999-1035 | a new record in a free slot; false and no change when the slot is taken |
| `ShellHandlers.Hypervisor.OpenNew` | hypervisor/shells/shells.c:499-558 | the part after the fork is the `Allocate` step |
| `ShellHandlers.Hypervisor.OpenShellOrProject` | hypervisor/shells/shells.c:412-558 | the whole function is the `Open` step; the index read from the file is in bounds |
| `ShellHandlers.Hypervisor.ShellsOpen` | hypervisor/shells/shells.c:285-315 | the open handler is one step of the state machine |
| `ShellHandlers.Hypervisor.ShellsClose` | hypervisor/shells/shells.c:561-593 | the close handler is one step, the stop command and its background test included |
| `ShellHandlers.Hypervisor.ShellsKeys` | hypervisor/shells/shells.c:652-739 | the keys handler is one step, what it types into the terminal included |
| `ShellHandlers.Hypervisor.ShellsDisconnect` | hypervisor/shells/shells.c:818-838 | the disconnect handler is one step |
| `ShellHandlers.Hypervisor.ShellsStatus` | hypervisor/shells/shells.c:742-815 | the status handler is one step |
| `ShellHandlers.Hypervisor.GiveUp` | hypervisor/shells/shells.c:1164-1182 | the slot and the project file are given up together |
| `ShellHandlers.Hypervisor.ReadRoutineEnds` | hypervisor/shells/shells.c:1122-1191 | the end of the reader thread is one step |
| `ShellResponses.SizeIsEncoded` | hypervisor/shells/shells.c:605-645 | the size that decides whether a response is published is the length of its MessagePack encoding |
| `ShellResponses.SendResponse` | hypervisor/shells/shells.c:600-648 | writing a response field by field into its buffer publishes exactly that encoding if it fits, and nothing otherwise |
| `Bytes.NumberOfBigEndian` | cmp/cmp.c:128-184 | a number written most significant byte first is read back |
| `Bytes.BigEndianAt` | cmp/cmp.c:128-184 | byte k of w is the one that counts multiples of 256 to the power w - 1 - k |
| `Bytes.BigEndianOfNumber` | cmp/cmp.c:128-184 | bytes read as a number are written back |
| `MessagePack.HeaderReadsBack` | cmp/cmp.c:2091-2381 | every marker and payload the object writer emits is dispatched by the reader to the same object |
| `MessagePack.FirstByte` | cmp/cmp.c:38-75 | the first byte of every format, from the table of markers |
| `MessagePack.ParseHeader` | cmp/cmp.c:1050-1128 | reading what was written gives the object and stops where it ends, whatever follows |
| `MessagePack.BuildFits` | cmp/cmp.c:2091-2381 | the object built from any marker and payload is writable and is written as that marker and payload |
| `MessagePack.HeaderOfParse` | cmp/cmp.c:1050-1128 | re-encoding is the identity: writing the object that was read gives exactly the bytes consumed |
| `MessagePackItems.IntegerReadsBack` | cmp/cmp.c:1402-1441 | the object written for a 64-bit integer is taken as that integer again, signed and unsigned |
| `MessagePackItems.IntegerIsShortest` | cmp/cmp.c:373-437 | no shorter byte string is read as the same integer |
| `MessagePackItems.SizeIsShortest` | cmp/cmp.c:614-815 | the headers chosen for texts, binary data, arrays and maps read as the size, and no shorter header of the same kind does |
| `MessagePackItems.ExtIsShortest` | cmp/cmp.c:817-1048 | the same for extension data |
| `MessagePackItems.IntegersAreExact` | cmp/cmp.c:1402-1599 | the signed reader takes exactly the integers of 64 bits, the unsigned one those in an unsigned format |
| `MessagePackItems.DecodedIsWritable` | cmp/cmp.c:1746-1840 | a reader gives back only values of its kind and range, binary data only if there is room; all of them can be written again, except empty extension data |
| `MessagePackItems.DecodeEncode` | cmp/cmp.c:1746-1804 | each typed read undoes the typed write and consumes exactly its bytes |
| `MessagePackItems.DecodeEncodeAll` | cmp/cmp.c:313-815 | so for any sequence of writes and the matching reads |
| `MessagePackBuffer.WrittenThen` | cmp/cmp.c:275-285 | two writes one after the other are a write of both encodings |
| `MessagePackBuffer.WrittenStops` | cmp/cmp.c:275-285 | a failed write leaves a proper prefix of the whole encoding and touches nothing before it |
| `MessagePackBuffer.Context.constructor` | cmp/cmp.c:288-296 | both cursors start at 0 |
| `MessagePackBuffer.Context.Write` | cmp/cmp.c:275-285 | all bytes or none, and the count says which |
| `MessagePackBuffer.Context.WriteUInteger` | cmp/cmp.c:426-437 | true exactly when the shortest encoding fits; bytes before the cursor stay |
| `MessagePackBuffer.Context.WriteInteger` | cmp/cmp.c:373-386 | the same for signed integers |
| `MessagePackBuffer.Context.WriteStr` | cmp/cmp.c:614-623 | true exactly when header and text fit |
| `MessagePackBuffer.Context.WriteBin` | cmp/cmp.c:722-729 | true exactly when header and data fit |
| `MessagePackBuffer.Context.WriteArray` | cmp/cmp.c:765-772 | true exactly when the header fits |
| `MessagePackBuffer.Context.WriteMap` | cmp/cmp.c:808-815 | true exactly when the header fits |
| `MessagePackBuffer.Context.WriteExt` | cmp/cmp.c:1031-1048 | true exactly when header and data fit and the data is not empty |
| `MessagePackBuffer.Context.WriteObject` | cmp/cmp.c:1050-1128 | every object that fits its format is written as its header, true exactly when that fits the buffer |
| `MessagePackBuffer.Context.WriteItem` | cmp/cmp.c:373-815 | the writer for each kind of value, in one contract |
| `MessagePackBuffer.WriteAll` | cmp/cmp.c:373-815 | writers one after the other all succeed exactly when all encodings fit, and then leave them in a row |
| `MessagePackBuffer.Context.Read` | cmp/cmp.c:263-273 | the next bytes, if there are enough, or nothing and no movement |
| `MessagePackBuffer.Context.ReadPayload` | cmp/cmp.c:2091-2381 | the dispatch on the marker builds the object from exactly its payload |
| `MessagePackBuffer.Context.ReadObject` | cmp/cmp.c:2091-2381 | succeeds exactly on a whole value, with that value, moving past it |
| `MessagePackBuffer.Context.ReadItem` | cmp/cmp.c:1402-1840 | the reader for each kind of value |
| `MessagePackBuffer.WriteThenRead` | cmp/cmp.c:263-285 | any sequence of writes into enough room, read back, gives the same values and equal cursors |
| `Framing.ReadPairsBytes` | hypervisor/wredis/wredis.c:194-207 | as many pairs as were written, or fewer, are read back as they are |
| `Framing.ReadTooManyPairs` | hypervisor/wredis/wredis.c:194-207 | more pairs than were written cannot be read |
| `Framing.ReadWrittenMessage` | shells/shells.c:128-170 | with two attributes passed over the reader gets every pair and every byte; with fewer it gets all but the last pair or the last two, with more, or without any attribute, it fails |
| `Framing.ProjectIsLost` | shells/shells.c:129-170 | a concrete stanza without gadgetid: the hypervisor gets a status request that names no project |
| `Framing.MessageIsNotPing` | hypervisor/wredis/wredis.c:176-179 | a message is never taken for the control word |
| `Framing.OnlyPingGetsPong` | hypervisor/wredis/wredis.c:176-179 | the four bytes "ping", and no other payload, are answered with "pong" |
| `Framing.FirstLetters` | shells/shells.c:68-84 | every key and action code is the first letter of the name it stands for; these letters are what the hypervisor looks up, except for one word |
| `Framing.NeverInBackground` | hypervisor/shells/shells.c:583 | that word, "background", is never a key of a delivered message, so no close request from the server only detaches its shell |
| `Framing.KeysAreInjective` | shells/shells.c:68-74 | different attribute names get different keys, none of them "t" |
| `Framing.PutAllDistinct` | hypervisor/wredis/wredis.c:203 | putting pairs with distinct keys gives each key its value and no other keys |
| `Framing.PutAllLast` | hypervisor/wredis/wredis.c:203 | of several pairs with the same key the last one counts |
| `Framing.RoundTrip` | shells/shells.c:128-173 | the hypervisor gets exactly the renamed attributes and the text, from the whole message |
| `Framing.PutAttribute` | shells/shells.c:144-170 | one attribute: true exactly when its name, and an action's value, are known and the pair fits |
| `Framing.SendShells` | shells/shells.c:88-176 | publishes the message exactly when every attribute is known and it fits, and nothing otherwise |
| `Framing.TakePair` | hypervisor/wredis/wredis.c:195-201 | one key and value through the cursor |
| `Framing.OnMessage` | hypervisor/wredis/wredis.c:176-209 | the loop over the cursor does what the message reader specifies |
| `Stanzas.UnderstoodIsKnown` | shells/shells.c:144-162 | the writer takes a stanza if and only if every attribute starts with gadgetid or xmlns or is one of the seven names, and an action is one of the seven words |
| `Stanzas.AlwaysRoom` | shells/shells.c:95-109 | a buffer of the size of the stanza as text always has room for the message |
| `Stanzas.RendersArrives` | hypervisor/wredis/wredis.c:191-208 | what a map of renamed attributes holds, name by name and action by action |
| `Stanzas.SendAndReceive` | shells/shells.c:88-174 | both programs one after the other: with one gadgetid, one xmlns, the other names at most once each and a known action, the map delivered has the text under "t", each attribute's value under the letter of its name, the action's letter under "a", and nothing else |
| `Replies.AddPair` | communication/communication.c:560-585 | one pair: a text is encoded, anything else becomes an attribute under its full name; unknown names and actions end it |
| `Replies.OnHypervisorMessage` | communication/communication.c:513-596 | the loop of the server's subscriber does what the message reader and the two tables specify |
| `Replies.ResponseIsRead` | communication/communication.c:534-558 | the bytes of a response are read as its strings, two by two, to the last byte |
| `Replies.ResponseSpelt` | communication/communication.c:571-585 | a response becomes the stanza with the action, the request and the other values by their full names; slot and code are digits that read as them |
| `Replies.SendAndDeliver` | hypervisor/shells/shells.c:345-408 | both programs one after the other: the owner gets exactly that stanza if the response fits its buffer and there is a connection, and nothing otherwise |
| `Replies.AbbreviationsReturn` | communication/communication.c:736-754 | every name and action the server abbreviates is spelt out again on the way back, except the action "resize" |
| `Replies.OnlyPongIsKeepalive` | communication/communication.c:513-529 | the four bytes "pong", and no other payload, become a keepalive, with a connection; without one nothing is sent |
| `Replies.AllSpellable` | communication/communication.c:572-579 | pairs become a stanza if and only if each has one of the known keys, an action one of the known letters, and a text fewer than 0x3fffffff bytes |
| `Replies.TextsArrive` | communication/communication.c:560-570 | every text arrives, in order, and decodes to the bytes that were sent |
| `Base64.ValueAndSymbol` | base64/base64.c:33-45 | a character has a value exactly when it is that value's symbol in Table 1; the pad and NUL have none |
| `Base64.Encoded` | base64/base64.c:76-77 | the encoder's table is Table 1 |
| `Base64.Mapped` | base64/base64.c:33-45 | the decoder's table is the inverse of Table 1 with 0xff elsewhere |
| `Base64.Lookup` | base64/base64.c:54-56 | the unsigned index rejects every character outside the alphabet |
| `Base64.Rfc4648At` | base64/base64.c:87-98 | sextet j of the RFC's grouped encoding is bits 6j to 6j+5 of the data, then padding |
| `Base64.EmittedBits` | base64/base64.c:93 | the 32-bit wrap-around never reaches the six bits used |
| `Base64.EmittedSextet` | base64/base64.c:93 | what is emitted at each of the seven shifts, from the last two bytes alone |
| `Base64.EmitsSextet` | base64/base64.c:88-95 | with 8k-6j bits pending the loop emits sextet j, the deferred fourth one included |
| `Base64.EncodeSextets` | base64/base64.c:87-96 | the two nested loops write every sextet in order |
| `Base64.EncodePadded` | base64/base64.c:87-98 | with the padding, exactly BASE64_SIZE(n) - 1 characters |
| `Base64.Base64Encode` | base64/base64.c:74-102 | writes exactly the encoding of section 4 of RFC 4648 and a NUL, in BASE64_SIZE(n) bytes, if and only if the size is in range and they fit |
| `Base64.Advance` | base64/base64.c:57-60 | one round of the decoder, with wrap-around, completes the right byte |
| `Base64.DecodeBody` | base64/base64.c:53-65 | the decoder's loop |
| `Base64.Base64Decode` | base64/base64.c:47-66 | -1 exactly for a character outside the alphabet; otherwise the first min(bytes, out_size) bytes |
| `Base64.RoundTrip` | base64/base64.c:47-102 | decoding what the encoder writes gives back the data |
| `Base64.EncodeThenDecode` | base64/base64.c:47-102 | the two functions one after the other, for any room `out_size`: the first bytes of the data that have room come back |
| `BinaryHeap.SinkRestores` | libds/heap.c:18-34 | `heapify` repairs a heap whose only fault is at i |
| `BinaryHeap.LargestOfThree` | libds/heap.c:23-29 | `heapify` picks, of an element and its children, the first one that none exceeds |
| `BinaryHeap.BuildMakesAHeap` | libds/heap.c:36-42 | the loop of `build_heap` makes a heap |
| `BinaryHeap.InsertKeepsTheHeap` | libds/heap.c:52-62 | insertion keeps the heap order and adds just the element |
| `BinaryHeap.RisesOverEquals` | libds/heap.c:57-61 | a new element stops at the top or below a strictly larger one; what it passes compares less or equal and moves down one level, the rest stays |
| `BinaryHeap.RemoveKeepsTheHeap` | libds/heap.c:44-50 | removal keeps the heap order and takes out just element 0 |
| `BinaryHeap.FirstIsLargest` | libds/heap.c:18-34 | element 0 of a heap is a largest one |
| `BinaryHeap.DrainSorts` | libds/heap.c:44-50 | taking element 0 and removing it until the heap is empty yields all elements in non-increasing order |
| `HeapOperations.FirstToSink` | libds/heap.c:39 | the first index of `build_heap`, unsigned wrap-around and narrowing included |
| `HeapOperations.Heap.Heapify` | libds/heap.c:18-34 | in place, the function `Sunk` of the contents |
| `HeapOperations.Heap.Build` | libds/heap.c:36-42 | in place, a heap of the same elements, for every length |
| `HeapOperations.Heap.Insert` | libds/heap.c:52-62 | in place, a heap with one more element |
| `HeapOperations.Heap.Remove` | libds/heap.c:44-50 | in place, a heap without its first element; nothing happens to an empty one |
| `Vectors.Vector.CheckLength` | libds/vector.c:25-33 | room for one more, by half as much again, with the contents copied |
| `Vectors.Vector.Add` | libds/vector.c:35-41 | appends |
| `Vectors.Vector.Get` | libds/vector.c:43-47 | the element, or NULL past the end |
| `Vectors.Vector.Remove` | libds/vector.c:77-87 | removes one element and closes the gap; nothing past the end |
| `Vectors.Vector.Swap` | libds/vector.c:112-121 | exchanges two elements; nothing when an index is past the end |
| `HashMaps.FitsMore` | libds/hashmap.c:48-57 | a new key at the end of its bucket's chain keeps the chain the exact content of the bucket |
| `HashMaps.FitsLess` | libds/hashmap.c:73-76 | unlinking an item does too, without its key |
| `HashMaps.FitsOther` | libds/hashmap.c:31-86 | the chains of other buckets are not concerned |
| `HashMaps.HoldsOneMore` | libds/hashmap.c:48-57 | all chains together hold the map with the new entry, every key once and only in its bucket |
| `HashMaps.HoldsOneLess` | libds/hashmap.c:73-84 | all chains together hold the map without the key |
| `HashMaps.InItsBucket` | libds/hashmap.c:33 | every item is in the bucket its key hashes to |
| `HashMaps.Append` | libds/hashmap.c:53-55 | the links after a new last item |
| `HashMaps.Unlink` | libds/hashmap.c:74-76 | the links after an item is taken out |
| `HashMaps.HashMap.constructor` | libds/hashmap.c:4-15 | an empty map |
| `HashMaps.HashMap.Find` | libds/hashmap.c:62-71 | the walk stops at the item with the key, and knows the one before it, exactly when the key is in the map |
| `HashMaps.HashMap.Get` | libds/hashmap.c:17-29 | the value, or NULL for a NULL or absent key |
| `HashMaps.HashMap.Put` | libds/hashmap.c:31-58 | the finite map with that one entry changed or added; `size` is its number of keys, and the list of keys grows by a new key |
| `HashMaps.HashMap.Remove` | libds/hashmap.c:60-86 | the finite map without the key; `size` is its number of keys, and the list loses the first key that starts with the removed one |
| `HashMaps.IndexOf` | libds/vector.c:89-99 | the index of the first key that starts with the given one, -1 if there is none |
| `HashMaps.ListsOneMore` | libds/hashmap.c:56 | a put keeps the list exact: every key of the map once |
| `HashMaps.ListsOneLess` | libds/hashmap.c:82-83 | a removal keeps the list exact if and only if no key put before the removed one starts with it |
| `HashMaps.RemoveShorterKey` | libds/hashmap.c:60-86 | a concrete map: after the removal the list names the key that is gone and not the one that is there |

## Left out

- `rb_delete` and `rb_delete_fixup` (libds/tree.c:246-320): a red inner child is not recoloured and the next round can follow a NULL sibling, so the colour invariant is not kept; `tree_delete` is modelled with order and links.
- `destroy_node`, `traverse` and freeing memory in general: nodes, elements and records are simply no longer reachable.
- `vector_insert` (its loop does not stop for index 0), `vector_set`, `subvector` and the `sizes` array, which `vector_swap` does not keep in step.
- `hashmap_resize` (new buckets are not initialised), `destroy_hashmap` and the hash function itself, which is a parameter.
- Matching file replies to requests: there is no request id in the protocol.
- Early returns that keep a mutex locked (files/files.c:396, hypervisor/shells/shells.c:500-503 at the 257th shell): stanzas are well formed and steps are atomic.
- The data of file replies (attributes, directory entries, file contents), and `wfuse_open`.
- The reading loop of a shell's thread and its keys responses; `shells_resize` and `shells_poweroff`, which change no table.
- ShellHandlers.Hypervisor.ShellsClose: requires a shell id from 0 to 255; for others the C program indexes outside its vector, which is undefined.
- ShellHandlers.Hypervisor.ShellsKeys: the same, and leaves out the answer to an empty text, which reads seven bytes of a one-letter key (hypervisor/shells/shells.c:686), and a request without "t", which follows a NULL pointer.
- ShellHandlers.Hypervisor.ShellsDisconnect: requires a shell id from 0 to 255, as `ShellsClose`.
- ShellHandlers.Hypervisor.ReadRoutineEnds: requires a user id when the shell restarts; without one the C program copies a NULL string. `ShellPromises.RestartsAreDefined` shows that this cannot happen while every request that opens a project names a user.
- Parsing decimal text with `strtol`, splitting stanzas, and decoding attribute text: the handlers take the parsed values.
- Floats as numbers (they are opaque bits), the `_v4` writers, the fixed-width single-format readers and exact error codes.
- MessagePackBuffer.Context.WriteObject: requires an object that its format can hold; for others the C writer fails or truncates.
- Framing.SendShells: requires the text and the values to be NUL-free and takes the text decoded, and does not model the owner and heartbeat checks before it (shells/shells.c:90-93).
- Replies.OnHypervisorMessage: without the stanza's namespace and addressee, which are constants.
- HeapOperations.Heap.Build: models a 64-bit `size_t`; with 32 bits, lengths 0 and 1 start from index 2147483647.
- Handshake.LeavingIsNeverStuck: says that some step is always possible, not that the scheduler takes it; `Handshake.ReleasedCallEnds` counts the steps taken.
- XMPP, redis, curl, FUSE, processes and terminals, JSON, logs, `make`, `ps`, networking, start-up and installation: foreign calls.
- `libds/list.c` and `libds/strutils.c`: they would only add easy members.
