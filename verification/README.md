# Models of the X server's device-independent layer

The parts of the X server that need no driver and no socket keep tables and lists in step by hand: colormap cells with
their reference counts, passive grabs with their masks, the windows several pointers are in, callback lists that change
while they are walked, the client table, atoms, a hash table, packed attribute values. This project models them in
Dafny and proves what the code promises over every input, every run or every reachable state.

`dafny verify dfyconfig.toml` checks everything; the options it needs are Dafny's own defaults.

## How the code is modelled

- **Words.** `Pixel` and `Mask` values are natural numbers read bit by bit (`Bits`); every model says how many bits it
  uses, so wrap-around matters in two places only, and is written out there (`ShiftInt`, `Fingerprint`).
- **State.** What the C code updates in place is a class with the same fields; loops are loops. A linked list is a `seq`
  field that is reassigned, a node is named by an id that stands for its address.
- **Memory.** Every `calloc` and `realloc` that can fail is a parameter that says whether it does, so the error exits
  are part of the contracts.
- **Windows.** A window is the path that leads to it from its screen, and the parent of a root is the empty path,
  `NullWindow`; ancestors are proper prefixes. Every finite forest is of this form.
- **Unseen code** is a parameter: which pixmaps fit a GC, what a resource id resolves to, the hash function, what a
  callback does (any finite script of adds, deletes and nested walks).

| files | component |
|---|---|
| `Bits`, `Submasks`, `PlaneMasks`, `Cells`, `CellAllocator`, `Releases`, `Sharing`, `Colormap`, `SharedPlanes` | dix/colormap.c |
| `GrabAlgebra`, `PassiveGrabs` | dix/grabs.c |
| `WindowTree`, `Presence`, `EnterLeave`, `Focus` | dix/enterleave.c |
| `CallbackLists`, `Callbacks` | dix/dixutils.c |
| `Scheduler`, `ClientTable` | dix/dispatch.c |
| `AtomTree`, `Atoms` | dix/atom.c |
| `HashTable` | Xext/hashtable.c |
| `GraphicsContext` | dix/gc.c |

## Where the code does less than it says

For each of these there is the exact condition under which the code is right, and a concrete input that breaks it.

- `AllocShared` counts its shared components correctly if and only if the red mask is empty or neither of the other two
  is (`SharedCounts`): the branches for an empty green or blue mask use `g + b` where `r + b` and `r + g` are meant. One
  colour with one red plane in a map of two cells ends with wrong counts (`RedPlaneMiscounts`).
- `FindColor` leaves the free counter one too high if and only if remembering a pixel fails for lack of memory and the
  colour was already in the map (the last clauses of `FindColor`). Allocating white twice, the second time without
  memory, counts two free cells where one is (`FindColorMiscounts`).
- A grabbed pointer misleads exactly the windows `Misled` describes; an ungrabbed one misleads none (`MoveReplays`). A
  grabbed pointer that moves onto a window where another pointer is tells it a second time (`GrabbedMove`).
- A deletion deferred by a walk equals an immediate one unless the first matching node is already marked and another
  match is not (`DeferredDelete`). Deleting a doubly registered callback twice from inside a walk leaves one node, and
  twice outside leaves none (`DeferredTwice`).
- Ready clients whose indices are congruent modulo 256 have the same robin distance, so only the first of them in the
  list can be chosen. A client that stays ready at one level is chosen within 256 choices from that level if no such
  twin stands before it, and never while one does (`BoundedWaiting`, `SchedulerServes`, for any mixture `ChosenExactly`).
  Of the ready clients 1 and 257 the second starves (`TwinStarves`).
- `NextAvailableClient` leaves a freed record in its slot when the client's resources cannot be allocated; the table is
  valid afterwards if and only if that did not happen. It happens to a first client (`FailedConnect`).
- A name with a NUL byte is remembered only up to it: `NameForAtom` gives a name back if and only if it has none
  (`NameOfMade`). Two names get one atom if and only if their keys are equal, which for names without NUL bytes means
  equal names (`AtomsOfTwo`); "A" and "A", NUL, "B" get two atoms with one name (`OneNameTwoAtoms`).

## Model

| member | source | states |
|---|---|---|
| `Submasks.NextBits` | dix/colormap.c:219-224 | one round of GetNextBitsOrBreak goes from the k-th submask of any mask to the (k+1)-th, and its inner carry loop terminates |
| `Submasks.CountSubmasks` | dix/colormap.c:200-224 | the whole counting loop terminates and visits the submasks in the order of their ranks |
| `Submasks.SubmasksExact` | dix/colormap.c:200-218 | the visited values are strictly increasing, there are 2^n of them, and they are exactly the submasks |
| `Submasks.HakmemOnes` | dix/colormap.c:1906-1910 | the three magic statements count the ones of every 32-bit mask |
| `PlaneMasks.MaskRange` | dix/colormap.c:1882-1905 | every mask of the requested weight is contiguous or lies between the first and the final mask tried |
| `PlaneMasks.NextCosetExact` | dix/colormap.c:1870-1872 | the step of the contiguous search goes to the next pixel free of mask bits and skips none |
| `CellAllocator.AllPixelsExact` | dix/colormap.c:1790-1799 | the returned pixels are distinct, count times 2^planes many, and exactly the bases with every submask |
| `CellAllocator.AllocCP` | dix/colormap.c:1801-1946 | on success an eligible mask, the cells of its first count free cosets, all of them free before and claimed now, no other cell changed; contiguous masks are preferred to others and smaller ones to larger; on failure nothing changed and no eligible mask has count free cosets |
| `Cells.ClaimKeepsAccounts` | dix/colormap.c:231-236 | claiming free cells for a client keeps counts, lists and the free counter in agreement |
| `Cells.ReleaseKeepsAccounts` | dix/colormap.c:680-698 | releasing one held reference keeps the agreement; a private cell becomes free, a shared one at its last reference |
| `Cells.AcquireKeepsAccounts` | dix/colormap.c:776-779 | giving a client one more reference to a shareable or free cell keeps the agreement |
| `Colormaps.Colormap.constructor` | dix/colormap.c:300-318 | a new map agrees with its lists, with no cell or every cell allocated |
| `Colormaps.Colormap.FreeCell` | dix/colormap.c:659-699 | the cell loses one reference, the counter follows, and every shared component's count minus its pointers stays the same |
| `Sharing.DropCellBalance` | dix/colormap.c:685-694 | the three decrements of a freed cell pay exactly for its three pointers, and a component disappears exactly at zero |
| `Colormaps.Colormap.Scan` | dix/colormap.c:764-815 | the circular search finds the first match, else the first free cell; while the map is being created it stops at a free cell |
| `Colormaps.Colormap.FindColor` | dix/colormap.c:760-921 | succeeds exactly if the colour or a free cell is there and memory suffices; the cell is the first match in circular order, else the first free one, which is used only for a new colour; cells, counter and list are given for every exit; the map stays valid except after the out-of-memory exit on a match |
| `Colormaps.FindColorMiscounts` | dix/colormap.c:894-912 | a map of two cells in which that exit leaves the counter at two with one cell free |
| `Colormaps.BackOutAccounts` | dix/colormap.c:894-912 | that exit restores the counters if and only if the cell had been free |
| `Colormaps.GuardExact` | dix/colormap.c:1753-1755 | the overflow guard on a 32-bit shift accepts exactly the requests that fit the free cells |
| `Colormaps.Colormap.AllocPseudo` | dix/colormap.c:1750-1788 | success appends a whole allocation to the client's list; failure changes nothing and means too few cells, no suitable mask, or no memory |
| `Colormaps.Colormap.FreePixels` | dix/colormap.c:1430-1444 | a client's list is emptied, all other cells are untouched, and the map stays valid |
| `Releases.TestsCover` | dix/colormap.c:2171-2199 | FreeCo asks for p with s for every input pixel p and submask s, and for nothing else |
| `Releases.FreeStepsExact` | dix/colormap.c:2173-2197 | each pixel leaves the list as often as it was asked for or held, whichever is less |
| `Releases.FreeStepsStatus` | dix/colormap.c:2176-2196 | the call succeeds exactly if every request was inside the map and held often enough |
| `Releases.LastFailureDecides` | dix/colormap.c:2173-2196 | the last failing request decides the error: BadValue outside the map, BadAccess for a pixel asked for more often than held |
| `Releases.InsideNoBadValue` | dix/colormap.c:2176-2180 | requests inside the map never report BadValue |
| `Releases.HeldNoBadAccess` | dix/colormap.c:2182-2196 | requests held often enough never report BadAccess |
| `Releases.FreeStepsList` | dix/colormap.c:2173-2222 | the list keeps its entries in order, without, from the front, those asked for |
| `Releases.FreeStepsColours` | dix/colormap.c:680-698 | releasing changes no colour, and no sharing of a cell that stays allocated |
| `Colormaps.Compact` | dix/colormap.c:2203-2222 | the in-place compaction leaves the unmarked entries in order |
| `Colormaps.Colormap.FreeCo` | dix/colormap.c:2118-2246 | list, cells and result are those of the tests one by one; validity and the shared components' balance are kept |
| `Colormaps.Colormap.FreeColors` | dix/colormap.c:2070-2104 | an all-allocated map refuses; planes outside the visual are reported and the rest is still freed |
| `Colormaps.Colormap.CopyFree` | dix/colormap.c:580-655 | the client's whole list moves to the new map, private cells with their contents; both maps stay valid and together balanced |
| `Colormaps.CopyConserves` | dix/colormap.c:633-639 | the two maps' lists hold together what they held before, pixel by pixel |
| `SharedPlanes.SplitMask` | dix/colormap.c:1590-1607 | the plane mask splits into three disjoint masks of r, g and b bits, the red ones lowest |
| `SharedPlanes.AllocShared` | dix/colormap.c:1954-2064 | every new cell gets one component per channel, chosen by its channel bits; a failed allocation leaves nothing behind |
| `SharedPlanes.SharedComponents` | dix/colormap.c:1977-2059 | two new cells share a channel's component exactly if they differ only in the other channels' bits |
| `SharedPlanes.SharedPair` | dix/colormap.c:1977-2059 | on the cells: equal red pointers exactly for equal bits outside green and blue, likewise for green and blue, and no record serves two channels |
| `SharedPlanes.SharedCounts` | dix/colormap.c:1979-2056 | all counts equal the number of pointers if and only if the red mask is empty or green and blue are not; otherwise some count is too low |
| `SharedPlanes.BackOut` | dix/colormap.c:1609-1614 | freeing an allocation right after making it restores list and cells exactly |
| `SharedPlanes.AllocColorPlanes` | dix/colormap.c:1556-1616 | the whole request: accounting always kept, sharing balanced exactly under the condition above; each new cell is private, keeps its colour and shares as its bits say; failure means too few cells, no suitable mask or no memory, and backs out completely unless the map is all-allocated and yet has free cells (FreeColors then refuses) |
| `SharedPlanes.RedPlaneMiscounts` | dix/colormap.c:2026-2053 | a request that ends with wrong counts |
| `GrabAlgebra.DeleteDetailFromMask` | dix/grabs.c:343-356 | the new mask has the old bits, or all, without the one |
| `GrabAlgebra.ClaimsMeans` | dix/grabs.c:358-376 | an unmasked grab claims the pairs its exact values name, AnyModifier and AnyKey standing for all |
| `GrabAlgebra.Xi2Devices` | dix/grabs.c:446-463 | XI2 grabs pass the device test exactly if some device is concerned by both |
| `GrabAlgebra.XiDevices` | dix/grabs.c:464-467 | XI1 grabs pass it exactly if both their devices are equal |
| `GrabAlgebra.CoreDevices` | dix/grabs.c:464-467 | core grabs always pass it |
| `GrabAlgebra.OtherEvents` | dix/grabs.c:443-470 | grabs of different grab types or event types never match |
| `GrabAlgebra.IdenticalMeans` | dix/grabs.c:488-519 | for an unmasked grab, identical means the same types, devices and details |
| `GrabAlgebra.ConcernsMeans` | dix/grabs.c:604-611 | a subtraction concerns the minuend's client, types and devices, and nobody else |
| `GrabAlgebra.MatchesIffOverlap` | dix/grabs.c:433-486 | for non-empty grabs, one of them unmasked, the match test is true exactly if they share a (modifier, key) pair |
| `GrabAlgebra.MaskedOverlapUnnoticed` | dix/grabs.c:366-368 | two masked grabs can overlap without matching, which the code avoids by never comparing two |
| `GrabAlgebra.ActionSound` | dix/grabs.c:612-669 | every mask update is applied to an "any" detail and clears an exact value below 256 |
| `GrabAlgebra.SubtractExact` | dix/grabs.c:612-669 | deleting, narrowing and splitting leave exactly the pairs of the grab minus those of the minuend |
| `PassiveGrabs.AppliedSubtracts` | dix/grabs.c:672-691 | carrying out the collected changes subtracts the minuend from the whole list, for every set of terms, and touches nothing else |
| `PassiveGrabs.AppliedValid` | dix/grabs.c:672-691 | the new list is again one of well-formed grabs with distinct resources |
| `PassiveGrabs.Untouched` | dix/grabs.c:607-611 | a grab the minuend does not concern, or shares no pair with, stays as it is |
| `PassiveGrabs.AppliedOrder` | dix/grabs.c:672-691 | split-off grabs come first, the kept ones follow in their old order |
| `PassiveGrabs.ContestMeans` | dix/grabs.c:537-545 | an unmasked grab is contested by every other client's grab with equal types, clashing devices and a common pair, and otherwise only by grabs that claim nothing |
| `PassiveGrabs.SubtractKeepsExclusive` | dix/grabs.c:574-700 | no two clients' compatible grabs claim a common pair after a subtraction either |
| `PassiveGrabs.Window.DeletePassiveGrab` | dix/grabs.c:323-340 | exactly the named grab leaves the list, if it is there; exclusion and well-formedness are kept |
| `PassiveGrabs.Window.Collect` | dix/grabs.c:612-669 | one round plans the change for one grab, or fails exactly if one of its allocations does |
| `PassiveGrabs.NeededForOne` | dix/grabs.c:574-669 | how many allocations a subtraction from an all-claiming grab needs |
| `PassiveGrabs.Window.DeletePassiveGrabFromList` | dix/grabs.c:574-700 | all changes happen, or an allocation failed and the list is as it was; exclusion is kept |
| `PassiveGrabs.Window.AddPassiveGrabToList` | dix/grabs.c:528-567 | refused if another client's grab of equal types and clashing devices shares a pair, and else only by a grab that claims nothing; denied or out of memory exactly as told; otherwise the grab's pairs are gained and only an identical grab's are given up; exclusion is kept |
| `WindowTree.CommonAncestor` | dix/enterleave.c:215-221 | the climb finds the deepest window above both, or none |
| `Presence.MoveAt` | dix/enterleave.c:342-548 | a move sends each window at most one event, and which |
| `Presence.MoveFromDevice` | dix/enterleave.c:342-530 | how other devices change a window's per-device event: an end with one on it gets none, with one below is told Inferior, a window between with one on or below it gets none |
| `Presence.MoveReplays` | dix/enterleave.c:93-109 | after a move the window's single-pointer reading of its events gives P(W), if and only if it was not misled by a grabbed pointer |
| `EnterLeave.GrabbedMove` | dix/enterleave.c:93-109 | a grabbed pointer's move that misleads a window |
| `Presence.RunReplays` | dix/enterleave.c:533-548 | over any sequence of moves by any number of ungrabbed pointers the reading is right at every window, and no event is one a single pointer could not have caused |
| `Presence.AloneRefines` | dix/enterleave.c:551-581 | with no other pointer the core events equal the per-device ones, event for event |
| `Presence.DeviceDown` | dix/enterleave.c:555-561 | the i-th per-device event of a move down: window, detail and subwindow |
| `Presence.DeviceUp` | dix/enterleave.c:562-568 | the same for a move up |
| `Presence.DeviceAcross` | dix/enterleave.c:569-582 | the same for a move sideways |
| `Presence.PathVisited` | dix/enterleave.c:551-581 | both visit exactly the tree path, each window once |
| `Presence.TurningPointOmitted` | dix/enterleave.c:383-390 | the lowest common ancestor of unrelated windows gets no event |
| `EnterLeave.Pointers.HasPointer` | dix/enterleave.c:93-109 | true exactly for an ungrabbed device and a window in the table |
| `EnterLeave.Pointers.FirstPointerChild` | dix/enterleave.c:142-150 | the first table entry below the window, or none |
| `EnterLeave.Pointers.CoreEnterNotifies` | dix/enterleave.c:248-279 | the Enter events between, busy windows left out |
| `EnterLeave.Pointers.CoreLeaveNotifies` | dix/enterleave.c:282-317 | the Leave events between, up to the first busy window |
| `EnterLeave.Pointers.CoreEnterLeaveNonLinear` | dix/enterleave.c:342-420 | the events of a sideways move |
| `EnterLeave.Pointers.CoreEnterLeaveToAncestor` | dix/enterleave.c:426-476 | the events of a move up |
| `EnterLeave.Pointers.CoreEnterLeaveToDescendant` | dix/enterleave.c:482-530 | the events of a move down |
| `EnterLeave.Pointers.CoreEnterLeaveEvents` | dix/enterleave.c:533-548 | table and events after a move; every window's reading agrees with the table afterwards exactly if none was misled |
| `EnterLeave.Pointers.DeviceEnterLeaveEvents` | dix/enterleave.c:551-581 | the per-device events of a move, nothing suppressed |
| `EnterLeave.Pointers.DoEnterLeaveEvents` | dix/enterleave.c:591-603 | nothing on a move to the same window, no core events in passive-grab modes, and the single-pointer refinement |
| `Focus.Keyboards.CoreFocusInEvents` | dix/enterleave.c:871-900 | exactly the FocusIn events between, as for a pointer |
| `Focus.Keyboards.CoreFocusOutEvents` | dix/enterleave.c:903-935 | exactly the FocusOut events between, as for a pointer |
| `Focus.Keyboards.CoreFocusOutNotifyPointerEvents` | dix/enterleave.c:938-967 | the NotifyPointer run up from the pointer window |
| `Focus.Keyboards.CoreFocusInNotifyPointerEvents` | dix/enterleave.c:969-1013 | the NotifyPointer run down to the pointer window |
| `Focus.PointerRun` | dix/enterleave.c:938-1013 | both runs tell exactly the windows below the given one, down to the pointer's |
| `Focus.FocusStory` | dix/enterleave.c:1019-1216 | a focus move's events without the NotifyPointer runs are those of a pointer making the same move |
| `Focus.MoveUpTells` | dix/enterleave.c:1109-1160 | which windows get NotifyPointer events when the focus moves up |
| `Focus.MoveDownTells` | dix/enterleave.c:1166-1216 | the same for a move down |
| `Focus.MoveAcrossTells` | dix/enterleave.c:1019-1103 | the same for a move sideways |
| `Focus.TellsInOrder` | dix/enterleave.c:1019-1216 | the run up comes before all other events, the run down after them, each in path order |
| `Focus.Keyboards.CoreFocusNonLinear` | dix/enterleave.c:1019-1103 | the events of a sideways move, with the NotifyPointer runs in their places |
| `Focus.Keyboards.CoreFocusToAncestor` | dix/enterleave.c:1109-1160 | the events of a move up, with the NotifyPointer runs in their places |
| `Focus.Keyboards.CoreFocusToDescendant` | dix/enterleave.c:1166-1216 | the events of a move down, with the NotifyPointer runs in their places |
| `Focus.Keyboards.CoreFocusEvents` | dix/enterleave.c:1399-1421 | exactly the events of the move are sent, and after any sequence of focus moves between real windows every window's reading gives F(W) |
| `Presence.StoryReplays` | dix/enterleave.c:76-82 | NotifyPointer events and subwindow fields do not change a window's reading |
| `CallbackLists.ActKeeps` | dix/dixutils.c:659-774 | every action at any nesting depth keeps: the deletion count is never below the number of marked nodes, no marks outside walks; inside a walk no node is freed or reordered |
| `CallbackLists.OutermostWalk` | dix/dixutils.c:700-748 | after an outermost walk the list is gone if deleted meanwhile, else its unmarked nodes in unchanged order |
| `CallbackLists.DeferredDelete` | dix/dixutils.c:673-698 | a deferred deletion equals an immediate one exactly unless the first match is already marked and another is not |
| `CallbackLists.DeferredTwice` | dix/dixutils.c:673-748 | one callback registered twice: two deletions empty the list outside a walk and leave a node inside one |
| `Callbacks.Manager.AddCallback` | dix/dixutils.c:811-822 | an unmarked node with this proc and data goes in front of the unchanged list, which is created if need be |
| `Callbacks.Manager.DeleteCallback` | dix/dixutils.c:673-698 | the first match is removed, or marked while a walk is running |
| `Callbacks.AddThenDelete` | dix/dixutils.c:650-698 | outside a walk, deleting a callback right after adding it succeeds and restores the list |
| `Callbacks.Manager.DeleteCallbackList` | dix/dixutils.c:750-774 | the list goes at once, or after the running walks |
| `Callbacks.Manager.SweepMarked` | dix/dixutils.c:725-747 | the loop frees marked nodes in order until its count is used up |
| `Callbacks.Manager.CallCallbacks` | dix/dixutils.c:700-748 | a walk invokes exactly the nodes present when it began, each once with its own proc and data, in order, whatever the callbacks do, and asks only live nodes for their successor |
| `Scheduler.SmartScheduler.SmartScheduleClient` | dix/dispatch.c:337-407 | the first of the lexicographically largest (priority, smart priority, robin) among the praised clients; its level's last index is updated; levels stay in range; on the fields no client has a larger priority, then smart priority, then index distance modulo 256, and earlier ones have a smaller one; praise is given exactly to idle negative levels; the slice grows only for a lone client after 1000 ms and is reset otherwise |
| `Scheduler.SmartScheduler.Penalize` | dix/dispatch.c:509-516 | one level down, not below the lowest |
| `Scheduler.OneLevel` | dix/dispatch.c:354-372 | if the clients at its level have one priority, the choice is the first of the largest robin distances within the level of the chosen client |
| `Scheduler.CallsAreRun` | dix/dispatch.c:354-374 | the scheduler's calls that choose from one level form a run of such choices, each starting from the index the one before left in SmartLastIndex |
| `Scheduler.PassedOver` | dix/dispatch.c:354-358 | a passed-over client's robin distance strictly grows |
| `Scheduler.ResidueServed` | dix/dispatch.c:337-381 | while a client stays ready, an index congruent to its own is chosen within 256 minus its robin distance rounds, and it is its own exactly if no twin stands before it |
| `Scheduler.ChosenExactly` | dix/dispatch.c:337-381 | over any run, a ready client is chosen if and only if a congruent index is, in a round with no twin before it |
| `Scheduler.BoundedWaiting` | dix/dispatch.c:337-381 | with a twin before it in all rounds or in none, a client that stays ready is chosen if and only if in none, after at most 255 minus its robin distance others |
| `Scheduler.SchedulerServes` | dix/dispatch.c:337-407 | the same for any stretch of the scheduler object's own calls, with calls for other levels in between |
| `Scheduler.TwinStarves` | dix/dispatch.c:354-372 | of the ready clients 1 and 257 the second is not chosen in any number of rounds |
| `ClientTable.Clients.NextAvailableClient` | dix/dispatch.c:3755-3799 | the least free slot is taken and the next one found; valid afterwards unless the client's resources could not be allocated |
| `ClientTable.FailedConnect` | dix/dispatch.c:3755-3799 | a first client for which they could not |
| `ClientTable.Clients.SendConnSetup` | dix/dispatch.c:3860-3907 | the client counts as running from now on |
| `ClientTable.Clients.CloseDownClient` | dix/dispatch.c:3631-3716 | retained or removed; the least free slot, the bound and the count stay exact |
| `ClientTable.Clients.KillAllClients` | dix/dispatch.c:3718-3727 | only the server client is left, although the bound shrinks during the loop |
| `ClientTable.CountsRunning` | dix/dispatch.c:3631-3729 | in a valid table nClients is the number of clients set up and not gone |
| `AtomTree.DecideIsLex` | dix/atom.c:91-98 | the strncmp test with its length correction is the order of the two C strings |
| `AtomTree.KeyTransitive` | dix/atom.c:85-98 | fingerprint and string together order names transitively |
| `AtomTree.LexMeans` | dix/atom.c:93-99 | the string order: the shorter prefix first, else the smaller byte where the names part |
| `AtomTree.OrderedMeans` | dix/atom.c:85-102 | fingerprints first, names among equal fingerprints, smaller to the left |
| `AtomTree.LookupExact` | dix/atom.c:85-101 | walking down finds a key exactly if it is in the tree |
| `AtomTree.InsertOrdered` | dix/atom.c:129-131 | a tree stays ordered when a new key is hung in where the walk ended |
| `Atoms.AtomTable.Walk` | dix/atom.c:79-102 | the walk returns the key's atom, or the place where splicing a node equals insertion |
| `Atoms.AtomTable.MakeAtom` | dix/atom.c:76-138 | a known name gets its old atom, a new one the next number, a lookup gives None exactly for unknown names, failed allocations change nothing; tree and table always hold the same names |
| `Atoms.AtomTable.NameForAtom` | dix/atom.c:146-156 | the remembered name for exactly the valid atoms |
| `Atoms.NameOfMade` | dix/atom.c:76-155 | the name of the atom made for a name is that name if and only if it has no NUL byte, and else its part before the NUL |
| `Atoms.AtomsOfTwo` | dix/atom.c:76-138 | two names get one atom exactly if their keys are equal; without NUL bytes, exactly if the names are |
| `Atoms.OneNameTwoAtoms` | dix/atom.c:76-155 | two names with two atoms and one remembered name |
| `HashTables.GenericHash` | Xext/hashtable.c:246-251 | masking is taking the remainder by 2^bits |
| `HashTables.InOwnBucket` | Xext/hashtable.c:188-203 | in a placed table a key's bucket holds all its entries |
| `HashTables.HashTable.constructor` | Xext/hashtable.c:35-68 | a new table stands for the empty map |
| `HashTables.HashTable.DoubleSize` | Xext/hashtable.c:88-124 | every entry is conserved and in its right new bucket, or nothing changed |
| `HashTables.HashTable.Add` | Xext/hashtable.c:126-170 | the map gains the key, or nothing changed at all, also after a failed growth; the load stays at most 4 per bucket until the largest size |
| `HashTables.HashTable.Remove` | Xext/hashtable.c:172-189 | the map loses the key if it had it |
| `HashTables.HashTable.Find` | Xext/hashtable.c:191-206 | the map's value, or none |
| `GraphicsContext.OffsetsApart` | dix/gc.c:439 | different attributes have different slots inside the list |
| `GraphicsContext.NextBit` | dix/gc.c:134-136 | the low-bit step reaches the next set bit, whose count of lower ones is the number of values consumed |
| `GraphicsContext.GC.ChangeGC` | dix/gc.c:121-402 | each attribute is set from the slot counted by the ones below its bit, up to the first refusal; which words and pointers are refused and what is stored is stated bit by bit |
| `GraphicsContext.GC.ResolveField` | dix/gc.c:431-452 | the selected id, and no other slot, becomes its pointer |
| `GraphicsContext.GC.ChangeGCXIDs` | dix/gc.c:417-461 | every attribute is set from the client's own word at that position, truncated as its type says, or looked up for pixmaps and fonts; an unknown id or mask bit changes nothing |

## Left out

- Colormaps: DirectColor and the static classes, temporary cells (FakeAllocColor), the hardware hooks, FindBestPixel and StoreColors; maps have one table of 2 to 65536 cells, and reference counts are unbounded.
- CopyColormapAndFree for an all-allocated source: it copies the table as a block, which adds nothing to the cell accounting.
- Colormaps.Colormap.CopyFree: the new map is taken as freshly created, with no private cells and none where the source has one, as its only caller leaves it.
- Grabs are values named by their resource, so aliasing between a grab's masks is not captured; event masks, cursors and access callbacks are opaque, and XI2 device wildcards take part in matching only.
- Details of 256 and more, which would index the masks out of range, are excluded from well-formed grabs.
- Enter and leave: passive-grab modes send no core events here; window creation, destruction and reparenting between moves, and devices that come and go, are not moves.
- Focus.Keyboards.CoreFocusEvents: moves from or to PointerRoot and None are not modelled.
- Callbacks: a callback acts on its own list only, and the table of lists freed at server reset is not modelled.
- Scheduler: timers, input, request execution and the grab lists of ready clients; the waiting bound is for clients that stay at one level where all clients have one priority.
- Client table: resources, selections, state callbacks and the dispatch exception raised when the last client leaves.
- HashTables.GenericHash: the byte loop that computes the value to be masked is not modelled; the table takes any hash.
- HashTables.HashTable.Add: takes only keys that are absent, because rehashing reverses bucket order and duplicates have no defined winner; key comparison is equality.
- Atoms: bytes are signed chars; FreeAllAtoms and the list of predefined names are not modelled.
- GraphicsContext.GC.ChangeGC: the implicit tile made from the foreground, reference counts of pixmaps and fonts, the dirty bits and the allocation of dash lists are not modelled.
- The other components of the server: drivers, extensions, protocol framing, fonts, input event processing.
