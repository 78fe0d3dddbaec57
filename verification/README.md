# Cinux in Dafny

A model of the parts of the Cinux x86_64 kernel whose correctness depends on whole runs rather than on
single calls, and proofs about it: copy-on-write memory over real page tables, the TCP machine, the
boundary-tag heap, the register of user memory, pipes, the lock-order graph, the stack a program starts
with, the descriptor table, and UDP in IPv4.

Code that updates things in place is modelled by classes and loops, each method proved against a function
of the old state; what the kernel promises is then proved about those functions for every input, every
state and every run.

## How it is built

| files | what they model | the main results |
|---|---|---|
| `PageTree`, `Pmm`, `PageWalk` | frames, four-level page tables, the walks of section 4.5 of the Intel SDM, volume 3A | mapping or unmapping a page changes that page in that tree and nothing else in any tree; no table on the way takes away what the leaf allows |
| `CowLedger`, `CowRefinement` | copy-on-write as leaves, counts and page contents | copy-on-write refines eager copying over every run: the same bytes, and the same right to reach, store to and execute every page; frame counts always equal the number of sharers |
| `Cow`, `Spaces`, `Teardown` | the same operations on the real tables | each walk over tables does to the ledger exactly what the ledger's function says |
| `TcpSpec`, `TcpBounds`, `TcpConnection` | one connection as a value, and the class that updates it in place | every method equals its function and keeps the bounds on rings and flight, whatever arrives |
| `TcpStream`, `TcpRuns`, `TcpProgress`, `TcpTimer` | two ends and a network that drops, duplicates and reorders; the estimator | end-to-end stream safety, retention, windows, timer bounds, over every run; new bytes and the FIN are taken and acknowledged, a loss is repaired by one exchange, the states are those of RFC 9293 |
| `HeapBlocks`, `HeapRuns`, `HeapWords`, `HeapTest`, `Heap` | blocks as a row, whole runs, blocks as memory words, the test free puts a pointer to, and the allocator on words | the heap invariant is kept over every run, a grant is less than eighty bytes longer than asked for, live payloads never move and their words are never touched; exactly when the test tells live blocks from others |
| `VmaSpans`, `Vma` | the region list, the brk span, and the address map they stand for | every operation is exact on the address map, failures included |
| `Pipe`, `PipeRuns`, `PipeCalls` | threads, semaphores and a ring as interleaved steps | first in first out, every call moves just the bytes it says it moved, no lost wake-up, end of file reaches every reader |
| `LockGraph`, `LockOrder` | the order graph, its search, the held chains | acyclic over every run, so nobody waits in a ring |
| `EntryLayout`, `EntryPicture` | the initial stack, its measure, its writer and a reader | what fits is always written and the reader recovers everything; every key tells its fact |
| `FileTable` | descriptor chunks and the lowest-free hint | numbers come out exactly as from a full scan |
| `Checksum`, `Datagrams` | RFC 1071 sums, IPv4 and UDP senders and receivers | what is sent is delivered, padding or not; exactly which garbled words pass |

`Wrappers` holds the types the modules share. A frame number of 0 means "no frame", as in the source.
`running == false` means that the machine stopped at one of the kernel's own checks, and each contract says
which one can have failed; the check for large pages in clone and teardown is proved never to. `room` is how many list nodes the kernel heap grants during a call.

## Where the code and its description differ

- `allocate` is described as handing out at least the bytes asked for (kernel/mm/heap.hpp:58-62). It does so
  exactly when the request is at most 2^64 - 16: above that the rounding wraps around and a block of less than
  eighty bytes is handed out. `HeapBlocks.GrantCovers` states it of the block, `Heap.Heap.Allocate` of the call.
- `free` is described as refusing every pointer that is not a live block (kernel/mm/heap.hpp:76-78). It
  decides by the words it finds where the header would be, which may be somebody's payload.
  `HeapTest.TestIsRight` gives the exact condition on the pointer under which the answer is right in every memory
  that holds the blocks, whatever its payloads and unused footer words contain: the pointer leads out of the
  heap, or its state word is one that only the allocator writes, or its size word is fixed and does not fit. Every pointer to the start of a block meets it
  (`HeapTest.BlockIsDecided`), none into a live payload with two words in front does
  (`HeapTest.PayloadIsUndecided`). `Heap.ForgedHeader` is a run that ends with such a pointer accepted.
- `TryResolvePageFault` alone makes any copy-on-write page writable, also one whose region was never
  writable. `CowLedger.ResolveKeepsAccounts` proves that the accounts survive it exactly when the register
  promises stores there; `CowRefinement.ResolverWouldWiden` is the family of runs, one fill and one fork,
  after which it would not. Refinement holds because resolve_current_fault
  (kernel/proc/fault_resolve.cpp:27-47) asks the region register first; a store in `CowRefinement` carries
  that question.
- The mark that something was sent twice is meant to withhold round-trip samples (Karn's algorithm, section 3
  of RFC 6298). It is lifted before it is looked at, so it never does: `TcpTimer.MarkNeverWithholds` for every
  state, `TcpTimer.ResentIsMeasured` for one run.
- A segment whose acknowledgement lies exactly half the sequence space behind SND.UNA is taken to acknowledge
  something not yet sent and is dropped with its text. `TcpProgress.DataIsTaken` covers both cases: such a segment
  leaves the receiver as it was, every other one hands over its new bytes.
- A receiver with a full inbox answers nothing to a segment that brings only bytes it has no room for
  (`TcpProgress.SilentWhenFull`), where section 3.8.6.1 of RFC 9293 asks for an acknowledgement. In every other case
  a resend is answered, and one exchange repairs a loss (`TcpProgress.OneExchangeRepairs`).
- The permissions of memory that brk adds are described nowhere. It is for reading and writing, except that a heap
  given other permissions as a whole grows with those: `Vma.VmaStore.MoveHeapEnd` states exactly when,
  `Vma.ProtectedHeapGrows` is a run. The guard page below a new stack is missing exactly when the stack starts in the
  last page of the address space (`Vma.NewStackHasGuard`).
- The 32-bit sum of the checksum drops its carry when it wraps around. `Checksum.RightLengths` proves that every
  string of a length is summed right exactly when the length is at most 131074, `Checksum.CarryIsLost` gives a
  string of each greater length that is not, and `Checksum.WrappedSumIff` the exact condition on the sum.
- The 64-bit sums of the estimator wrap around from samples of 2^61 ns (73 years) on.
  `TcpTimer.EstimatorBoundsIff` proves that limit exact.

## Model

| member | source | states |
|---|---|---|
| PageTree.SlotIndexIsDigit | kernel/mm/page_walk.hpp:80-112 | the nine-bit fields the walk cuts out of an address are the base-512 digits of its page number |
| PageTree.LeafWriteSeen | kernel/mm/page_walk.hpp:285-293 | writing a slot of a page table changes what the tables say about that slot's page in that tree and about no other page of any tree |
| PageTree.LeafWriteKeepsForest | kernel/mm/page_walk.hpp:285-293 | writing a leaf keeps the tables a forest in which no table is reached twice |
| PageTree.GraftSeen | kernel/mm/page_walk.hpp:209-233 | hanging a zeroed table into an empty slot changes what the tables say about no page at all |
| PageTree.GraftKeepsForest | kernel/mm/page_walk.hpp:209-233 | a fresh table keeps the forest |
| PageTree.LeafDecides | kernel/mm/page_walk.hpp:209-233 | where every pointer to a user table lets user code through and store, every pointer above a mapped user page does, so that the leaf alone decides |
| PageTree.FirstPageOrder | kernel/mm/cow.cpp:98-106 | the pages below a table are one interval, and tables in slot order serve ascending intervals |
| Pmm.Memory.AllocateRun | kernel/mm/pmm.cpp:103-112 | first fit: the lowest clear run of the asked length is claimed and nothing else; refusal exactly when there is none |
| Pmm.Memory.AllocatePage | kernel/mm/pmm.cpp:50-55 | one frame that was free is claimed; refusal only when all frames are used |
| Pmm.Memory.FreePage | kernel/mm/pmm.cpp:57-65 | exactly that frame is given back; frame 0 is left alone |
| Pmm.Memory.RetainFrame | kernel/mm/pmm.cpp:83-90 | one sharer more; the machine stops exactly on a full count or an unknown frame |
| Pmm.Memory.ReleaseShare | kernel/mm/pmm.cpp:92-101 | one sharer less and how many remain; an unshared frame stays at zero |
| Pmm.Memory.TakePage | kernel/mm/vmm.cpp:141-149 | a fresh zeroed table on a frame that was free, or refusal |
| PageWalk.FindSlot | kernel/mm/page_walk.hpp:176-194 | the walk ends at the very slot that decides the page, on a large leaf or a page-table slot, and falls off exactly where nothing is mapped |
| PageWalk.EnsureLeafTable | kernel/mm/page_walk.hpp:209-233 | afterwards the page's table is in the tree; no page of any tree is seen differently even when it refuses after adding tables; refusal only on a large leaf or an empty supply |
| PageWalk.MapPage | kernel/mm/page_walk.hpp:251-261 | after success that page translates to the physical page plus the offset, for the kernel to read, write and execute and out of reach for user code, and every other address of every tree as before; a refusal changes no translation and comes only of a large page in the way or an empty supply of frames |
| PageWalk.MapUserPage | kernel/mm/page_walk.hpp:285-293 | after success that page is seen through the caller's leaf, no table above it taking anything away, and every other page as before; a refusal changes none |
| PageWalk.UnmapPage | kernel/mm/page_walk.hpp:310-319 | undoes exactly one 4 KiB page and returns what was there; a large leaf stays |
| PageWalk.TranslatePage | kernel/mm/page_walk.hpp:336-356 | the address reached through 1 GiB, 2 MiB and 4 KiB leaves |
| CowLedger.ShareLeafEffect | kernel/mm/cow.cpp:60-82 | sharing one page leaves parent and child on the same read-only leaf, counted for both, whether or not it was shared before |
| CowLedger.ShareLeafKeepsAccounts | kernel/mm/cow.cpp:60-82 | sharing keeps "one owner and count 0, or k sharers and count k" |
| CowLedger.ResolveKeepsAccounts | kernel/mm/cow.cpp:132-165 | repairing a fault, by take-over or by copy, keeps the accounts exactly when stores are promised on the page |
| CowLedger.UnmapKeepsAccounts | kernel/mm/cow.cpp:171-180 | unmapping keeps the accounts and gives a frame back exactly when no page maps it any more |
| CowLedger.ProtectKeepsAccounts | kernel/syscall/sys_mprotect.cpp:46-67 | rewriting a page's permissions keeps the accounts; a shared leaf stays read-only |
| CowLedger.UnmapUpToEffect | kernel/mm/address_space.cpp:31-47 | teardown's releases keep the accounts, remove exactly the pages passed, and leave every other leaf alone |
| CowLedger.EmptyLedger | kernel/mm/cow.cpp:171-180 | with nothing mapped every data frame is back and every count is zero |
| CowRefinement.ForkEffect | kernel/mm/cow.cpp:182-211 | after fork passed page n, child and parent share every page below n read-only on the parent's old frame, and nothing else moved |
| CowRefinement.CloneTranslatesAlike | kernel/mm/cow.cpp:182-211 | after fork parent and child map the same pages to the frames the parent had, and neither may store through them |
| CowRefinement.ForkRefines | kernel/mm/cow.cpp:182-211 | fork shows the child what copying every page would show, with the same right to reach, store and execute |
| CowRefinement.ResolveRefines | kernel/mm/cow.cpp:132-165 | repairing a fault changes what no space reads, may reach, may store to or may execute, and makes that page writable |
| CowRefinement.WriteRefines | kernel/mm/cow.cpp:132-165 | a store is granted exactly when eager copying would grant it, and lands in that page alone |
| CowRefinement.TeardownRefines | kernel/mm/address_space.cpp:101-120 | teardown takes away that space's pages and changes what no other space reads |
| CowRefinement.StepRefines | kernel/mm/cow.cpp:60-211 | every operation keeps the accounts and acts as eager copying would |
| CowRefinement.RunRefines | kernel/mm/cow.cpp:60-211 | over every run of fork, store, fill, unmap, protect and teardown each space reads every page, and may reach it, store to it and execute it, exactly as under eager copying |
| CowRefinement.ResolverWouldWiden | kernel/mm/cow.cpp:132-165 | after filling a page that is promised read-only and forking, the resolver, asked without the register, would make it writable and break the accounts |
| CowRefinement.StoresStayPrivate | kernel/mm/cow.cpp:132-165 | after any run, a store is visible at no other page and in no other space |
| CowRefinement.FrameAccounting | kernel/mm/cow.cpp:110-180 | after any run a frame has one private leaf and count 0, or k shared leaves and count exactly k |
| CowRefinement.NothingLeaks | kernel/mm/cow.cpp:171-180 | after any run that left nothing mapped, no data frame is in use and no count is left |
| Cow.MarkPageShared | kernel/mm/cow.cpp:110-130 | on tables: does to the ledger what sharing says; reports unmapped pages; stops only on a full count |
| Cow.MapUser | kernel/mm/address_space.cpp:77-85 | on tables: sets exactly that leaf in the ledger, or refuses for want of frames and leaves the ledger alone |
| Cow.ShareLeaf | kernel/mm/cow.cpp:60-82 | on tables: fork's work on one leaf is the ledger's; stops only when no frame is left, a count is full or the leaf's frame is none |
| Cow.ShareEntry | kernel/mm/cow.cpp:86-96 | one present slot: everything below it is shared, each page once and at its own address; what can stop it |
| Cow.Descend | kernel/mm/cow.cpp:98-106 | one table: everything below it is shared in ascending order, each page once and at its own address; what can stop it |
| Cow.NoLargeSlot | kernel/mm/cow.cpp:86-96 | a present slot of a user half above the page tables holds a table, so the kernel's check for large pages never fires |
| Cow.LeafIsTheLaw | kernel/mm/address_space.cpp:77-85 | in every memory in order, each pointer above a mapped user page lets user code through and store, so that the leaf alone decides what a program may do with the page |
| Spaces.Init | kernel/mm/address_space.cpp:51-63 | a new root maps no user page and shows the kernel half as the kernel root does; refused only when no frame is left |
| Spaces.CloneSharedSpace | kernel/mm/cow.cpp:182-211 | the walk over the parent's tables has exactly the effect of sharing every mapped page once in ascending order, and keeps the accounts; a refusal, only when no frame is left, leaves the ledger alone; stops only when no frame is left or a count is full |
| Spaces.TryResolvePageFault | kernel/mm/cow.cpp:132-165 | answers exactly the write faults on copy-on-write pages, with the ledger's repair: the page can then be written and reached, may be executed if it could before, and shows the same bytes; keeps the accounts exactly when stores are promised there; stops only when no frame is left |
| Spaces.ReleaseFrame | kernel/mm/cow.cpp:171-180 | one count less; the frame is freed exactly when nobody is left |
| Spaces.ReclaimPage | kernel/syscall/sys_munmap.cpp:28-34 | unmapping a page and releasing its frame is the ledger's unmap |
| Spaces.FillPage | kernel/mm/demand.cpp:95-137 | a promised page gets a frame of its own; refused only for a page mapped already, a backing that could not be read, or want of frames; a refusal maps nothing and keeps no frame |
| Spaces.AllFramesBack | kernel/mm/address_space.cpp:101-120 | when no space maps anything, only the kernel's frames and the tables of remaining roots are in use |
| Teardown.ReleaseUserTables | kernel/mm/address_space.cpp:31-47 | everything below a table is released, always: leaves by the ledger, subtables to the supply, nothing of another space |
| Teardown.TeardownSpace | kernel/mm/address_space.cpp:101-120 | always: every page of the space is unmapped in the ledger, all its tables and its root are free again, the other spaces are untouched |
| TcpSpec.PassFreesSeats | kernel/net/tcp.cpp:919-942 | a pass over the repair seats changes nothing or leaves fewer seats held, so harvesting ends |
| TcpStream.BeforeIsLess | kernel/net/tcp.cpp:23-29 | 32-bit sequence comparison is comparison of positions less than half the space apart |
| TcpStream.AckCompares | kernel/net/tcp.cpp:344-391 | the two wrapping comparisons the code makes place an acknowledgement above SND.UNA and at most at SND.NXT |
| TcpStream.AckMovesIff | kernel/net/tcp.cpp:344-391 | the window moves exactly when SND.UNA < SEG.ACK <= SND.NXT, for all 2^32 values and every state (section 3.4 of RFC 9293); in last-ack exactly the acknowledgement of SND.NXT ends the connection |
| TcpStream.AckKeeps | kernel/net/tcp.cpp:344-391 | an acknowledgement releases exactly the bytes the peer has, fast retransmission included |
| TcpStream.ResendIsHonest | kernel/net/tcp.cpp:944-975 | a resend carries the bytes first sent at its sequence number |
| TcpStream.StoreKeeps | kernel/net/tcp.cpp:884-917 | a parked segment holds the peer's bytes of its place |
| TcpStream.HarvestKeeps | kernel/net/tcp.cpp:919-942 | delivering parked segments appends exactly the next bytes of the peer's stream |
| TcpStream.BytesKeeps | kernel/net/tcp.cpp:484-528 | an in-order segment hands over exactly the bytes that come next, as many as are new and find room, or the FIN once all bytes are in; either is acknowledged, and both ends stay sound |
| TcpStream.TextSegmentKeeps | kernel/net/tcp.cpp:394-481 | a segment after the handshake keeps both ends sound |
| TcpStream.SegmentKeeps | kernel/net/tcp.cpp:394-481 | any segment the peer ever sent, in any state, keeps both ends sound and is answered truthfully |
| TcpStream.SendKeeps | kernel/net/tcp.cpp:623-660 | sending retains every accepted byte at its sequence number |
| TcpStream.ReceiveKeeps | kernel/net/tcp.cpp:662-686 | receiving moves bytes from the inbox to the reader in order |
| TcpStream.CloseKeeps | kernel/net/tcp.cpp:710-740 | the FIN occupies the position after the last byte |
| TcpStream.AcceptKeeps | kernel/net/tcp.cpp:298-341 | answering a SYN starts a sound end |
| TcpRuns.PlayKeeps | kernel/net/tcp.cpp:246-296 | whatever one side does, both ends stay sound and all it sends is truthful |
| TcpRuns.RunKeeps | kernel/net/tcp.cpp:246-528 | the pair invariant holds after every run over a network that drops, duplicates and reorders |
| TcpRuns.StreamSafety | kernel/net/tcp.cpp:344-528 | after every run, bytes taken plus inbox are a prefix of the bytes the other side's send accepted, and SND.UNA has not passed the other side's RCV.NXT, both ways |
| TcpRuns.Retention | kernel/net/tcp.cpp:344-391 | after every run, SND.NXT - SND.UNA is the ring's length plus one for an unacknowledged FIN, and the ring holds exactly the bytes from SND.UNA on and never overflows |
| TcpRuns.FinResentLast | kernel/net/tcp.cpp:944-975 | a FIN is resent only when no payload is outstanding, at the position after the last byte |
| TcpRuns.ResendsOverRuns | kernel/net/tcp.cpp:944-975 | after every run, every resend carries what was first sent there and the FIN goes last |
| TcpRuns.WindowIsRoom | kernel/net/tcp.cpp:160-163 | after every run the inbox holds at most 4096 bytes and the advertised window is what is left |
| TcpRuns.RightEdgeNeverRetreats | kernel/net/tcp.cpp:160-163 | no move pulls the right edge of the receive window back (section 3.8.6 of RFC 9293) |
| TcpRuns.RightEdgeOverRuns | kernel/net/tcp.cpp:160-163 | the same at every step of every run, for both ends |
| TcpProgress.AckDoes | kernel/net/tcp.cpp:344-391 | what an honest acknowledgement does, short of one exactly half the space behind: SND.UNA moves to it if it is ahead, the reception is left alone, and the closing states move exactly when it covers the FIN |
| TcpProgress.DataIsTaken | kernel/net/tcp.cpp:484-528 | hearing a segment that holds the next byte expected, the inbox grows by exactly the new bytes that find room, RCV.NXT by as many, and they are acknowledged, then what is parked there follows; dropped exactly when its acknowledgement lies half the space behind |
| TcpProgress.FinIsTaken | kernel/net/tcp.cpp:504-528 | a FIN at RCV.NXT is taken and acknowledged, and moves the state as section 3.6 of RFC 9293 says |
| TcpProgress.AheadIsParked | kernel/net/tcp.cpp:884-917 | a segment ahead of a gap is parked exactly when it is plain, within the window, clear of the parked ones and a seat is free; the answer names the byte missing |
| TcpProgress.HarvestDelivers | kernel/net/tcp.cpp:919-942 | when harvesting ends no parked segment is left that is due and fits, and where none was due nothing has changed |
| TcpProgress.ApartOverRuns | kernel/net/tcp.cpp:884-942 | after every run the parked segments of either end share no byte |
| TcpProgress.ParkedIsDelivered | kernel/net/tcp.cpp:919-942 | the segment that fills the gap before a parked one brings that one along, if both fit |
| TcpProgress.StatesFollowTheDiagram | kernel/net/tcp.cpp:394-528 | a segment moves the state exactly along the diagram of section 3.6 of RFC 9293: first for the acknowledgement of the own FIN, then for the peer's FIN in its turn, else not at all |
| TcpProgress.CloseFollowsTheDiagram | kernel/net/tcp.cpp:710-740 | closing leads from syn-received and established to fin-wait-1 and from close-wait to last-ack, with one FIN after the last byte, releases in syn-sent, and does nothing elsewhere |
| TcpProgress.AckIsHeard | kernel/net/tcp.cpp:344-391 | an acknowledgement of more than before moves SND.UNA to where it says, or ends the connection |
| TcpProgress.SilentWhenFull | kernel/net/tcp.cpp:484-528 | the condition of the repair is exact: a full inbox offered only further bytes sends no answer and stays where it is |
| TcpProgress.OneExchangeRepairs | kernel/net/tcp.cpp:394-528 | with anything outstanding, one resend heard by a receiver that can answer and one answer heard move SND.UNA on, or a connection is over |
| TcpProgress.RepairOverRuns | kernel/net/tcp.cpp:394-528 | the same after every run, whatever the network dropped before |
| TcpProgress.HandshakeOpens | kernel/net/tcp.cpp:298-341 | for all initial numbers three deliveries leave both ends established, each at the other's first byte |
| TcpProgress.HandshakeRepairs | kernel/net/tcp.cpp:405-428 | a SYN sent again is answered again by the end in syn-received, and that answer opens the client |
| TcpProgress.AnyAckOpens | kernel/net/tcp.cpp:420-437 | every honest acknowledgement opens the end in syn-received, and its text is then handled |
| TcpProgress.SendTakesAllThatFits | kernel/net/tcp.cpp:623-660 | a send takes the longest first part of the offer that keeps the flight within 4096 and the peer's window |
| TcpProgress.ReaderReopensTheWindow | kernel/net/tcp.cpp:662-686 | a reader that takes from a full inbox has the new window announced; no other read sends anything |
| TcpProgress.WindowIsHeard | kernel/net/tcp.cpp:346-348 | every acknowledgement taken in sets the peer's window, the handshake's included |
| TcpProgress.ThirdDuplicateResends | kernel/net/tcp.cpp:363-371 | three duplicate acknowledgements in a row, and no fewer, send the oldest stretch again, once |
| TcpProgress.HalfOpenEnds | kernel/net/tcp.cpp:298-341 | a segment for a connection that is not there is answered with one reset, formed as section 3.10.7.1 of RFC 9293 says, and that reset ends the sender's side in any state |
| TcpTimer.EstimatorBounds | kernel/net/tcp.cpp:774-818 | for samples in [lo, hi] below 2^61 ns the smoothed time stays in [lo, hi] and never falls back to none, the variation stays at most hi, the wait stays between min(lo + 100 ms, 64 s) and 64 s |
| TcpTimer.EstimatorBoundsIff | kernel/net/tcp.cpp:787-806 | for every lo and hi, the estimator stays within the samples over all histories if and only if hi is below 2^61 ns |
| TcpTimer.EstimateFollowsTheRules | kernel/net/tcp.cpp:787-818 | a sample follows rules 2.2 to 2.5 of RFC 6298 over the reals, rounded down: weights one eighth and one quarter, four deviations or 100 ms, at most 64 s |
| TcpTimer.MarkNeverWithholds | kernel/net/tcp.cpp:774-791 | a moving acknowledgement measures and estimates the same whether or not the mark of a resend stands, and exactly on a full catch-up of a running clock |
| TcpTimer.ResentIsMeasured | kernel/net/tcp.cpp:774-806 | a segment sent at 1, sent again and acknowledged at 9 is measured as 8 |
| TcpTimer.AtMostFiveResends | kernel/net/tcp.cpp:977-1007 | between forward moves of SND.UNA the timer resends at most five times (rule 5.5 of RFC 6298) |
| TcpTimer.BackOffDoubles | kernel/net/tcp.cpp:977-1007 | between forward moves of SND.UNA the wait is the first one doubled once per resend, up to 64 s, and the connection is given up exactly at the time-out after the last resend |
| TcpBounds.SegmentBounded | kernel/net/tcp.cpp:344-528 | one segment, whatever it holds, keeps the rings within capacity and the retained bytes within the flight, itself at most a window and a FIN |
| TcpBounds.SendBounded | kernel/net/tcp.cpp:623-660 | sending keeps those bounds |
| TcpBounds.CloseBounded | kernel/net/tcp.cpp:710-740 | closing keeps those bounds |
| TcpConnection.Connection.Connect | kernel/net/tcp.cpp:591-621 | a SYN at the initial number, the clock running |
| TcpConnection.Connection.Accept | kernel/net/tcp.cpp:316-329 | a SYN and acknowledgement at the initial number, the clock running |
| TcpConnection.Connection.Hear | kernel/net/tcp.cpp:276-290 | one segment moves the machine, and feeds the timer exactly when SND.UNA moved; a new SYN in time-wait ends the connection |
| TcpConnection.Connection.ResendOldest | kernel/net/tcp.cpp:944-975 | sends the oldest unacknowledged payload, or the FIN, and sets the mark |
| TcpConnection.Connection.Send | kernel/net/tcp.cpp:623-660 | accepts what the ceiling allows, in segments, retaining each byte; each state's own refusal; when the clock starts; keeps the bounds |
| TcpConnection.Connection.Receive | kernel/net/tcp.cpp:662-686 | the oldest waiting bytes up to capacity, or why there are none; a shut window is announced open; keeps the bounds |
| TcpConnection.Connection.Close | kernel/net/tcp.cpp:710-740 | the FIN and the closing state, or release in syn-sent; the clock; keeps the bounds |
| TcpConnection.Connection.AbsorbAck | kernel/net/tcp.cpp:344-391 | window, duplicate count, fast resend and closing states as in the value model; the mark is set exactly on a fast resend |
| TcpConnection.Connection.ParkOutOfOrder | kernel/net/tcp.cpp:884-917 | the first free seat, unless the segment overlaps a parked one |
| TcpConnection.Connection.HarvestReorder | kernel/net/tcp.cpp:919-942 | passes until one delivers nothing; the inbox stays within its bound |
| TcpConnection.Connection.AbsorbBytes | kernel/net/tcp.cpp:484-528 | as in the value model (TcpStream.BytesKeeps): the new bytes that find room, then the FIN, and the acknowledgement of either |
| TcpConnection.Connection.AbsorbSegment | kernel/net/tcp.cpp:394-481 | one segment in every state; keeps the bounds, and of the timer touches only the mark unless it releases the connection |
| TcpConnection.Connection.RetransmitDue | kernel/net/tcp.cpp:977-1007 | resend and back off, or give the connection up |
| HeapBlocks.GrantCovers | kernel/mm/heap.cpp:47-51 | the block handed out is as long as the request exactly when the request is at most 2^64 - 16, and then less than eighty bytes longer; otherwise it has less than eighty bytes |
| HeapBlocks.GrantCosts | kernel/mm/heap.cpp:124-141 | a grant takes less than eighty bytes more from the free bytes than the request and its tags |
| HeapBlocks.FreeListSorted | kernel/mm/heap.cpp:62-74 | the free list is strictly sorted by address |
| HeapBlocks.LiveApart | kernel/mm/heap.cpp:116-141 | live payloads are sixteen-aligned, inside the heap and pairwise disjoint |
| HeapBlocks.SplitTiles | kernel/mm/heap.cpp:124-138 | after a split the blocks still lie end to end over the whole span |
| HeapBlocks.SplitCoalesces | kernel/mm/heap.cpp:124-138 | after a split no two free blocks touch |
| HeapBlocks.SplitLive | kernel/mm/heap.cpp:124-141 | allocation adds exactly one live payload and moves none |
| HeapBlocks.FreedTiles | kernel/mm/heap.cpp:154-186 | after a merge the blocks still lie end to end |
| HeapBlocks.FreedCoalesces | kernel/mm/heap.cpp:154-186 | after a merge no two free blocks touch |
| HeapBlocks.FreedSum | kernel/mm/heap.cpp:154-186 | free bytes grow by the payload and by the headers and footers swallowed |
| HeapBlocks.FreedLive | kernel/mm/heap.cpp:143-186 | freeing removes exactly that live payload and moves none |
| HeapBlocks.GrownTiles | kernel/mm/heap.cpp:188-212 | after growth the blocks lie end to end up to the new top |
| HeapBlocks.GrownLive | kernel/mm/heap.cpp:188-212 | growth moves no live payload |
| HeapRuns.StepKeeps | kernel/mm/heap.cpp:101-212 | every request, return and growth, refused ones included, keeps the blocks end to end and the free ones apart |
| HeapRuns.RunKeeps | kernel/mm/heap.cpp:101-212 | the same over every run |
| HeapRuns.PayloadStays | kernel/mm/heap.cpp:116-212 | a live payload stays in place through every operation but the return of its own pointer |
| HeapRuns.LiveForGood | kernel/mm/heap.cpp:116-212 | over every run a live payload is aligned, inside the heap, apart from all other live ones, and where it was since any point after which nobody returned it |
| HeapWords.ChainInsert | kernel/mm/heap.cpp:62-74 | relinking at the right place gives the list with the block in it and touches no word but links |
| HeapWords.ChainRemove | kernel/mm/heap.cpp:76-88 | relinking around a block gives the list without it and touches no word but links |
| HeapWords.NotALink | kernel/mm/heap.cpp:23-41 | a link word of the list is never a size, state, spare, payload or footer word of any block, nor the link word of a live one |
| HeapWords.OperationDone | kernel/mm/heap.cpp:116-212 | an operation that writes only its own blocks and the links leaves every other block and every other live payload as it was |
| HeapTest.TestIsRight | kernel/mm/heap.cpp:143-157 | free's test accepts exactly the live blocks, in every memory that holds the row, if and only if the pointer is decided |
| HeapTest.BlockIsDecided | kernel/mm/heap.cpp:143-157 | a pointer to the payload of any block, live or free, is decided |
| HeapTest.PayloadIsUndecided | kernel/mm/heap.cpp:143-157 | a pointer into a live payload with two words in front is not |
| HeapTest.MistakenFor | kernel/mm/heap.cpp:143-157 | a pointer accepted by mistake had its state read from a word that others write; an aligned one within the heap from payload or from the second word of a footer |
| Heap.Heap.LinkSorted | kernel/mm/heap.cpp:62-74 | the loop puts the block at its address in the list |
| Heap.Heap.Unlink | kernel/mm/heap.cpp:76-88 | the loop takes the block out of the list |
| Heap.Heap.PickFreeBlock | kernel/mm/heap.cpp:90-97 | the first listed block with room, or 0 when none has |
| Heap.Heap.Init | kernel/mm/heap.cpp:101-114 | the span becomes one free block; refused exactly when unaligned or too small; what it accepts is a heap exactly when it has whole units of sixteen bytes, ends within the address space and does not start at 0 |
| Heap.Heap.Allocate | kernel/mm/heap.cpp:116-141 | the whole heap invariant is kept on memory words; first fit; null exactly when no free block fits; the block is as long as the request and less than eighty bytes longer, unless that is above 2^64 - 16, and the free bytes fall by less than eighty more than it and its tags; no live payload word changes |
| Heap.Heap.TakeBlock | kernel/mm/heap.cpp:124-141 | the block handed out, split when the rest could host another |
| Heap.Heap.Carve | kernel/mm/heap.cpp:124-141 | the block is marked live, and a rest that could host another block becomes a free one on the list, so that no grant is eighty bytes too long |
| Heap.Heap.MergeBlock | kernel/mm/heap.cpp:154-186 | the block and its free neighbours become one free block, the rest of memory unchanged |
| Heap.Heap.Accepts | kernel/mm/heap.cpp:143-157 | for every pointer: passes exactly when the words there look like a live header; every live block does; for a decided pointer nothing else does |
| Heap.Heap.Free | kernel/mm/heap.cpp:143-186 | for a decided pointer, or one that does not pass: accepts exactly live blocks and keeps the invariant; freeing the same pointer again is refused; no live payload word changes |
| Heap.ForgedHeader | kernel/mm/heap.cpp:143-157 | after init, one allocation and two stores into it, the test passes on a pointer that is no block's |
| Heap.Heap.Grow | kernel/mm/heap.cpp:188-212 | accepted exactly for an aligned new top with room for a block; keeps the invariant |
| Heap.Heap.StoreWord | kernel/mm/heap.cpp:23-41 | a write by a payload's owner changes that word only, and keeps the invariant and every other payload |
| Heap.Heap.AllocateOrGrow | kernel/mm/heap_runtime.cpp:51-64 | refused exactly when no free block fits and no pages could be mapped, and then nothing changes; the block has the bytes asked for, the pointer is new and all others stay live |
| VmaSpans.LookupIn | kernel/mm/vma.cpp:93-103 | in a disjoint list the order of regions does not matter |
| VmaSpans.SplitAt | kernel/mm/vma.cpp:263-271 | splitting a region takes away exactly the addresses between; all others keep kind, floor, permissions and file byte |
| VmaSpans.TrimAt | kernel/mm/vma.cpp:272-277 | trimming a region takes away exactly the addresses trimmed off |
| VmaSpans.RepaintedLookup | kernel/mm/vma.cpp:42-66 | replacing regions by their pieces repaints exactly the stretch |
| VmaSpans.RepaintedApart | kernel/mm/vma.cpp:288-326 | the pieces and the regions kept stay disjoint and non-empty |
| Vma.StageProtection | kernel/mm/vma.cpp:42-66 | at most three pieces, the middle repainted; fails exactly when nodes run short |
| Vma.VmaStore.RegisterRange | kernel/mm/vma.cpp:70-91 | adds exactly the region's addresses, the lowest page of a new stack as a guard; refused exactly when one is promised already, the region is empty or no node is left |
| Vma.VmaStore.Find | kernel/mm/vma.cpp:93-103 | the region that promises an address, or none exactly when nothing does |
| Vma.VmaStore.StackContains | kernel/mm/vma.cpp:105-119 | true exactly when every address of the stretch is usable stack |
| Vma.VmaStore.SeedHeap | kernel/mm/vma.cpp:165-177 | an empty heap span; the listed regions stay |
| Vma.VmaStore.MoveHeapEnd | kernel/mm/vma.cpp:179-218 | the address map changes exactly between the old and the new end, the least page boundary at or above the target; what is added is plain memory exactly when the heap is listed or its own permissions are; every refusal leaves the map alone; each refusal in exactly its case, want of list nodes included |
| Vma.AlignUpIsLeast | kernel/mm/vma.cpp:189 | the new end is the least multiple of the page size at or above the target |
| Vma.NewStackHasGuard | kernel/mm/vma.cpp:83-88 | of a stack recorded without a floor exactly the bytes above its lowest page are usable, unless the floor wraps; any other region is recorded as it is |
| Vma.ProtectedHeapGrows | kernel/mm/vma.cpp:179-218 | a heap made read-only as a whole grows read-only |
| Vma.VmaStore.FindFreeSpot | kernel/mm/vma.cpp:220-244 | terminates with the highest stretch that clears every span, an empty heap being a point; refuses exactly when there is none |
| Vma.VmaStore.UnregisterRange | kernel/mm/vma.cpp:246-286 | removes exactly [start, end); refused exactly when fewer nodes are left than listing the heap span and a second remainder need; then nothing changes |
| Vma.VmaStore.CutRange | kernel/mm/vma.cpp:258-285 | the loop over the list, which may grow behind it, removes exactly [start, end); refused exactly when no node is left and a region reaches past both ends |
| Vma.VmaStore.CutRegion | kernel/mm/vma.cpp:260-283 | one region: split, trimmed or dropped, and where the scan goes on |
| VmaSpans.CutKeeps | kernel/mm/vma.cpp:258-285 | the scan meets a region past both ends exactly when the list had one at the start, having changed nothing before and with nothing left to do after |
| Vma.VmaStore.Protect | kernel/mm/vma.cpp:288-326 | changes permissions in exactly [start, end), all or nothing; refused exactly when an address is unknown or nodes run short |
| Vma.VmaStore.SpanKnown | kernel/mm/vma.cpp:328-347 | true exactly when every address of the stretch is promised |
| PipeRuns.NextKeeps | kernel/fs/pipe.cpp:49-166 | every step of every thread, and every call begun, keeps the pipe's invariant |
| PipeRuns.StepsKeep | kernel/fs/pipe.cpp:27-166 | the invariant holds after every interleaving |
| PipeRuns.FirstInFirstOut | kernel/fs/pipe.cpp:49-98 | after every interleaving the bytes pushed are the bytes popped followed by the ring; whose bytes they are is said by PipeCalls.EveryCallMovesItsBytes |
| PipeRuns.RoomIsConserved | kernel/fs/pipe.cpp:27-98 | free places, bytes, reserved places and places about to be posted add up to 4096 |
| PipeRuns.NeverNoRoom | kernel/fs/pipe.cpp:89-93 | a writer granted room finds it; the ring's refusal is never seen |
| PipeRuns.NoLostWakeup | kernel/fs/pipe.cpp:65-79 | a reader asleep while there is a byte or no writer has a wake-up coming from a thread that can run |
| PipeRuns.NoLostRoom | kernel/fs/pipe.cpp:83-98 | a writer asleep while the ring has room has a place coming from a thread that can run |
| PipeRuns.RunTires | kernel/fs/pipe.cpp:49-137 | every step uses up work, so without new calls the threads come to rest |
| PipeRuns.AtRest | kernel/fs/pipe.cpp:49-98 | at rest a sleeping reader faces an empty ring and a live writer, a sleeping writer a full ring |
| PipeRuns.EndOfFileReachesAll | kernel/fs/pipe.cpp:69-74 | once no writer is left, however the threads are scheduled, within a known number of steps no reader sleeps: the chained re-post wakes them all |
| PipeRuns.FirstComeFirstServed | kernel/proc/sync.cpp:196-228 | at every step of every run both semaphores queue new waiters last and wake the first |
| PipeCalls.StepMoves | kernel/fs/pipe.cpp:49-137 | any step of a call moves bytes as its call may: what a push has left loses exactly the byte the record gains, and the thread knows the count |
| PipeCalls.EveryCallMovesItsBytes | kernel/fs/pipe.cpp:49-137 | over every interleaving, by a log kept from the events alone: a returned push put in exactly its bytes in order and says their number; a non-blocking one the first n it reports, stopping early only for want of a reader or of room; a read took exactly as many bytes as it reports, fewer than asked only on an emptied ring, none only at end of file; calls under way have moved a first part; a thread's calls lie in order |
| PipeCalls.BytesComeFromCalls | kernel/fs/pipe.cpp:49-137 | byte i to come out of the pipe is byte k of what some call was offered, k being the number of that call's bytes that came out before |
| LockGraph.Search | base/include/cinux/container/directed_graph.hpp:40-53 | the work-list search finds the target exactly when a walk leads there |
| LockGraph.ConnectedAcyclic | kernel/proc/lockdep.cpp:49-62 | edges from the held locks keep the graph acyclic when the new lock reaches none of them |
| LockGraph.ErasedAcyclic | base/include/cinux/container/directed_graph.hpp:56-62 | erasing a lock's edges keeps the graph acyclic |
| LockGraph.NoWaitRing | kernel/proc/lockdep.cpp:36-65 | with an acyclic graph and chains ordered by its edges no processors wait in a ring |
| LockOrder.LockOrder.Acquire | kernel/proc/lockdep.cpp:36-65 | keeps the graph acyclic and every chain ordered; refused exactly for want of a slot, for a lock held already, or when it leads back to a held one |
| LockOrder.LockOrder.Clash | kernel/proc/lockdep.cpp:49-56 | held already exactly when on the chain; a cycle exactly when the lock reaches a held one |
| LockOrder.LockOrder.Record | kernel/proc/lockdep.cpp:57-64 | an edge from every held lock to the new one, which goes on top |
| LockOrder.LockOrder.Release | kernel/proc/lockdep.cpp:67-80 | lets go of the innermost lock only |
| LockOrder.LockOrder.Forget | kernel/proc/lockdep.cpp:82-99 | drops a lock, its name and all its edges exactly when no processor holds it; a lock that is not there is forgotten already |
| LockOrder.LockOrder.NameLock | kernel/proc/lockdep.cpp:101-114 | gives a lock a slot without edges, and changes no other name |
| LockOrder.LockOrder.NeverDeadlocked | kernel/proc/lockdep.cpp:36-99 | in every reachable register, processors that passed Acquire for the lock they wait for do not wait in a ring |
| EntryLayout.PictureIsReadable | kernel/loader/entry_picture.cpp:181-229 | a reader from the stack pointer recovers the count, every argument, every variable and the auxiliary pairs (section 3.4.1 of the System V AMD64 psABI); each key that is a number gives its fact, and no key occurs twice |
| EntryLayout.PairsTellFacts | kernel/loader/entry_picture.cpp:86-101 | key 3 gives the program headers, 4 their entry size, 5 their count, 6 the page size, 7 the interpreter base, 9 the entry, 16 the hardware capabilities, 11 to 14 and 23 zero, and no key occurs twice |
| EntryLayout.PairsPointRight | kernel/loader/entry_picture.cpp:103-127 | looked up by key, the pointers lead to the platform, the random bytes and the program's name, and are absent exactly when there is none |
| EntryPicture.EntryPictureBytes | kernel/loader/entry_picture.cpp:131-172 | the measure is exactly the bytes of the words and texts of the picture |
| EntryPicture.WriteEntryPicture | kernel/loader/entry_picture.cpp:181-229 | succeeds exactly when the measure fits, never fails half-way, leaves every byte below the stack pointer and between the words and the texts alone, and the reader recovers everything: each key its fact, each pointer its text, no key twice |
| EntryPicture.Plane.PutWord | kernel/loader/entry_picture.cpp:25-28 | words climb and never meet the texts |
| EntryPicture.Plane.PutPair | kernel/loader/entry_picture.cpp:30-37 | a pair goes down exactly when there is room |
| EntryPicture.Plane.PutString | kernel/loader/entry_picture.cpp:39-56 | a text goes down with its address among the words, exactly when there is room |
| EntryPicture.Plane.LandString | kernel/loader/entry_picture.cpp:68-79 | a text goes down and its address comes back, exactly when there is room |
| EntryPicture.Plane.LandRandomness | kernel/loader/entry_picture.cpp:58-66 | the random bytes go down first, if there are any |
| EntryPicture.Plane.PutFacts | kernel/loader/entry_picture.cpp:103-127 | all pairs go down in order without failing |
| EntryPicture.Plane.Room | kernel/loader/entry_picture.cpp:21-23 | at every stage what is still to come fits between words and texts |
| FileTable.FileTable.EnsureChunk | kernel/fs/file_table.cpp:58-77 | growing the table changes what no descriptor shows |
| FileTable.FileTable.Vacant | kernel/fs/file_table.cpp:79-97 | the lowest free number from the floor on and below the limit, exactly as a full scan would find it |
| FileTable.FileTable.AdoptFrom | kernel/fs/file_table.cpp:137-161 | opens the lowest free number from the floor on; refused exactly when there is none; no number below the hint is ever free |
| FileTable.FileTable.AdoptAt | kernel/fs/file_table.cpp:122-135 | opens exactly that number, unless it is taken |
| FileTable.FileTable.Shared | kernel/fs/file_table.cpp:163-181 | the open file behind a number, or which error |
| FileTable.FileTable.Detach | kernel/fs/file_table.cpp:183-197 | empties exactly that number, clears its bit and lets the hint fall |
| FileTable.FileTable.Close | kernel/fs/file_table.cpp:199-210 | closes exactly that number |
| FileTable.FileTable.SetCloexec | kernel/fs/file_table.cpp:227-240 | marks only open numbers |
| FileTable.FileTable.CloseOnExec | kernel/fs/file_table.cpp:253-269 | closes exactly the marked numbers |
| FileTable.FileTable.CloseAll | kernel/fs/file_table.cpp:212-225 | nothing is open and the hint is zero |
| FileTable.FileTable.DuplicateAt | kernel/fs/file_table.cpp:291-312 | the destination names the source's file, unmarked; every other number stays |
| FileTable.FileTable.Clone | kernel/fs/file_table.cpp:271-289 | the copy shows the same files and marks and has the same hint |
| Checksum.FoldCarries | base/include/cinux/checksum.hpp:115-123 | folding until it fits sixteen bits gives the residue with all ones for a non-zero multiple |
| Checksum.SumsToOnes | base/include/cinux/checksum.hpp:78-87 | the checksum, or all ones in place of zero, makes the sum all ones |
| Checksum.InternetChecksum.Add | base/include/cinux/checksum.hpp:53-67 | for any number of bytes: where the pieces are cut, at odd places too, does not matter |
| Checksum.InternetChecksum.Value | base/include/cinux/checksum.hpp:78-87 | the folded 32-bit sum of all bytes added, which is their RFC 1071 checksum up to 131074 bytes |
| Checksum.RightLengths | base/include/cinux/checksum.hpp:53-87 | for every length: all strings of it get their RFC 1071 checksum if and only if it is at most 131074 |
| Checksum.CarryIsLost | base/include/cinux/checksum.hpp:53-87 | for every greater length a string whose wrapped sum folds to 65279 instead of 65280 |
| Checksum.WrappedSumIff | base/include/cinux/checksum.hpp:53-87 | for every sum: wrapped to 32 bits it folds to the same value if and only if it did not wrap, or wrapped a multiple of 65535 times and did not end on zero |
| Datagrams.UdpModule.Send | kernel/net/udp.cpp:93-132 | accepts payloads up to 1472 bytes and sends the datagram with its checksum, all ones for zero |
| Datagrams.UdpModule.Handle | kernel/net/udp.cpp:48-90 | delivers or refuses as the header, the checksum and the bound ports say |
| Datagrams.Ipv4Module.Send | kernel/net/ipv4.cpp:88-124 | the packet with its header checksum |
| Datagrams.Ipv4Module.Handle | kernel/net/ipv4.cpp:43-86 | passes on exactly the announced payload of a well-formed packet |
| Datagrams.UdpRoundTrip | kernel/net/udp.cpp:48-132 | what the UDP sender builds the receiver delivers, ports and bytes alike |
| Datagrams.Ipv4RoundTrip | kernel/net/ipv4.cpp:43-124 | what the IPv4 sender wraps the receiver unwraps, whatever padding follows |
| Datagrams.RoundTrip | kernel/net/ipv4.hpp:47-49 | any payload the UDP sender accepts, wrapped by IPv4 with the same own address and padded, passes both checks and is delivered with its ports and bytes |
| Datagrams.PacketCarries | kernel/net/ipv4.cpp:88-124 | a packet carries version 4, a header of five words, its length, 64 hops, the protocol, the own address unless it goes to 127.0.0.0/8, and the destination |
| Datagrams.UdpNotices | kernel/net/udp.cpp:48-90 | a datagram with any one word but the length garbled is refused for its checksum, unless zero and all ones were exchanged or the checksum became zero, which switches the test off |
| Datagrams.Ipv4Notices | kernel/net/ipv4.cpp:43-86 | a packet with one word of its header garbled is refused for its checksum, unless zero and all ones were exchanged; a total length below the header is refused as such |

## Left out

- Shared-memory attachments, device regions and hardware pages: their owners are not part of this model, so every mapped page is private.
- Caches of translations, interrupt guards and spinlocks inside one call: each locked call is one atomic step.
- The bit positions inside a page-table entry: an entry is a record of its flags and frame.
- A share count that overflows its byte, and a copy for which no frame is left: both stop the machine; the contracts say when, and nothing of the state after.
- Spaces.ReleaseFrame: hardware pages, which the kernel does not count, are not part of this model.
- sys_mprotect on the tables themselves: it is modelled on the ledger only.
- VmaStore clone, teardown and max_end: cloning matters only through attachments, the rest is plain.
- Spaces.FillPage: the region lookup and the fault's access check are the caller's; whether the backing could be read is a parameter.
- Pmm: building the bitmap at boot, and orders above a single page other than through runs.
- TcpRuns.StreamSafety: streams are shorter than 2^31 bytes each way, as half the sequence space is what comparison can tell apart.
- TcpRuns.Play: close is not played in syn-received, since a connection is accepted, and gets its ticket, once established.
- TCP seats and tickets, listen tables, port choice, checksums, pushes, statistics and events; a seat taken over by a new SYN counts as a new connection; simultaneous open.
- TcpTimer.EstimatorBounds: samples are below 2^61 ns; TcpTimer.EstimatorBoundsIff proves that nothing longer will do.
- TcpTimer: time is a number handed in, and the order in which timers fire is any order.
- Heap.Heap.Free: what happens to the words after a pointer was accepted by mistake; the model names a word by its first byte, so overlapping unaligned words are not modelled.
- Heap.Heap.AllocateOrGrow: the request and the pages it brings in end within the address space; whether the pages could be mapped is a parameter.
- Vma.VmaStore.SeedHeap: the ceiling is at least one page below the end of the address space, so that rounding up cannot wrap.
- Pipe: identity, stat, poll faces and the retirement of semaphores; whether a writer without readers should be told is not claimed.
- LockOrder.LockOrder.Acquire: the register is told after the lock was taken; the theorem about waiting is about processors whose wait was recorded.
- The lock names are numbers, and the dump of held locks is not modelled.
- EntryPicture.WriteEntryPicture: texts are sequences without NUL and the buffer lies within the address space; the form for a single page only fixes the buffer.
- FileTable: reference counts of open files and the backend calls at open and close; alloc is AdoptFrom after an early look for room.
- Datagrams: statistics (the outcome returned names the counter), binding ports, the observer, fragments and options beyond the header length.
- Datagrams.UdpNotices: of a garbled length only that one beyond the bytes that arrived is refused, since a shorter one changes which bytes are summed.
- Drivers, boot, scheduling, futexes, file locks, file systems, and everything else of the kernel.
