# Verified models of the Dynex support code

The Dynex daemon rests on a layer of small, intricate components: a vector that lives in one
memory-mapped file and survives crashes, a block explorer that mirrors the node's transaction pool
through asynchronous requests, a bounded queue between threads, a JSON reader and printer, the
decoder of chunked HTTP bodies, the base-58 address codec, variable-length integers and a lazy
shuffle. This project models them in Dafny and proves what each of them is for.

`dafny verify dfyconfig.toml` checks everything.

| file | models |
|---|---|
| `MappedDisk.dfy`, `VectorLayout.dfy`, `FileMappedVector.dfy`, `VectorRuns.dfy` | the mapped vector, the disk it lives on, what a crash can leave, and whole runs |
| `PoolUpdate.dfy`, `BlockUpdate.dfy` | the explorer's pool protocol and its classification of new blocks |
| `BlockingQueue.dfy` | the blocking queue and the group that closes it |
| `JsonText.dfy`, `JsonGrammar.dfy`, `JsonStreams.dfy` | JSON texts and values, the grammar the reader accepts, and the reader and printer on streams |
| `ChunkedBody.dfy`, `ChunkedPackets.dfy`, `ChunkedText.dfy`, `ChunkDecoder.dfy` | the chunked-body decoder, what packets make of a body, bodies as they are written, and the decoder in place |
| `Positional.dfy`, `Blockwise.dfy`, `Base58.dfy` | base-58 in blocks of eight bytes |
| `StreamTools.dfy` | exact reads and writes over partial ones, and varints |
| `ShuffleGenerator.dfy` | the shuffle |
| `Bytes.dfy`, `Sequences.dfy` | bytes, words, slices and subsequences |

How the models are built:

- Code that updates state in place is a class or a method over arrays. Each method is proved
  against a function of the old state, and the theorems are about those functions.
- Concurrent code is a transition system with one step for every atomic access or lock section, and
  the theorems hold after every legal run.
- The disk keeps, for every file, the set of contents a power loss may leave. Unflushed bytes may
  be lost one by one, a 64-bit word is lost or kept as a whole, a flush makes its range certain,
  and renames and removals are atomic and may fail. Every step logs what could be left, so a
  statement about the log is a statement about a crash at any step.
- Random choices, replies of the node, fragment sizes of streams, failing directory operations and
  spurious wake-ups are parameters or arbitrary choices.

Where the code does not do what one would expect, the code is modelled as it is:

- `open` computes the needed file size in 64-bit arithmetic, so a capacity that wraps is accepted
  (`WrappedCapacityAccepted`); `OpenExact` says exactly for which files this matters.
- A file opened with another prefix size than its own can be read as another vector
  (`OtherPrefixExact`, `ThirdVectorRead`). This can happen after a crash while the prefix is resized.
- A failed second request of a pool update leaves the observers behind the mirror
  (`FailedDetailsLoseNotification`). `OwedExactly` says exactly which hashes they are owed.
- A main-chain block with the hash of the known top but a greater height counts as new;
  `EveryBlockSorted` says that only such a block spoils the list of new blocks.
- The explorer moves its known height before the reply, so the blocks of a failed request are not
  asked for again (`AskedAgain`, `AllArriveExact`).
- A chunk extension with hex digits in it is read differently when a packet boundary falls in front
  of such a digit. `SizesExact` is the exact condition for any body and any packets.
- A Content-Length ends a chunked body too (`ContentLengthExact`).
- An integer printed in front of a digit or a dot is not read back (`JsonText.RoundTrip`), a lone
  `-` is read as 0, and integers out of range are read as the nearest 64-bit integer.
- `fromString` refuses a text that ends in a real without exponent, because the reader looks past the
  end twice (`JsonText.FromString`, `BareRealRefused`).

## Model

| member | source | states |
|---|---|---|
| MappedDisk.Disk.Rename | src/Platform/Posix/System/MemoryMappedFile.cpp:163-183 | a rename moves the entry with all it may have lost, replacing the target, or fails and changes nothing |
| MappedDisk.Disk.Create | src/Platform/Posix/System/MemoryMappedFile.cpp:73-115 | a new file of the given length, only where none was; other entries are untouched even on failure |
| MappedDisk.Disk.Flush | src/Platform/Posix/System/MemoryMappedFile.cpp:224-251 | a flush that succeeds: the range is certain afterwards and nothing else becomes certain |
| MappedDisk.Disk.TryFlush | src/Platform/Posix/System/MemoryMappedFile.cpp:224-251 | a flush that may fail, and then makes nothing certain |
| MappedDisk.UnflushedMayBeLost | src/Platform/Posix/System/MemoryMappedFile.cpp:224-251 | before a flush a crash can leave any selection of the bytes of a write, and all or nothing of a 64-bit word |
| MappedDisk.UnflushedStaysOpen | src/Platform/Posix/System/MemoryMappedFile.cpp:224-251 | a flush leaves open everything that was open outside its range |
| MappedDisk.FlushAll | src/Common/FileMappedVector.h:694-699 | flushing a whole file leaves its current contents as the only ones a crash can show |
| VectorLayout.WordsRead | src/Common/FileMappedVector.h:436-448 | capacity and size read from the file are those of the vector it holds |
| VectorLayout.EncodesUnique | src/Common/FileMappedVector.h:883-936 | a file holds at most one vector with a given prefix size |
| VectorLayout.SlackIgnored | src/Common/FileMappedVector.h:883-936 | bytes of unused slots do not matter |
| VectorLayout.SizeStored | src/Common/FileMappedVector.h:593-598 | storing the size word makes the file hold exactly the elements already in its slots |
| VectorLayout.WordsStored | src/Common/FileMappedVector.h:873-881 | the two words that creation stores make an empty vector of any file contents |
| VectorLayout.ItemOverwritten | src/Common/FileMappedVector.h:662-674 | storing one element changes that element and nothing else |
| VectorLayout.OpenExact | src/Common/FileMappedVector.h:851-870 | every vector file passes the checks of opening, and a file that passes holds a vector if and only if its data ends below 2^64 |
| VectorLayout.DecodeEncodes | src/Common/FileMappedVector.h:851-870 | what opening reads from an accepted file is the vector that file holds |
| VectorLayout.OtherPrefixExact | src/Common/FileMappedVector.h:851-870 | a vector file opened with another prefix size is read, as another vector, if and only if the bytes there pass the checks and announce data that ends below 2^64 |
| VectorLayout.ThirdVectorRead | src/Common/FileMappedVector.h:851-870 | while a prefix is being resized, the old file opened with the new prefix size can be read as neither the old nor the new vector |
| VectorLayout.WrappedCapacityAccepted | src/Common/FileMappedVector.h:864-867 | some file passes the checks and holds no vector |
| FileMappedVectors.FileMappedVector.Attach | src/Common/FileMappedVector.h:851-870 | a file that was accepted and holds a vector becomes a vector with the decoded value and nothing else that a crash could show |
| FileMappedVectors.FileMappedVector.Capacity | src/Common/FileMappedVector.h:436-441 | the capacity of the abstract vector |
| FileMappedVectors.FileMappedVector.Size | src/Common/FileMappedVector.h:443-448 | the number of elements of the abstract vector |
| FileMappedVectors.FileMappedVector.At | src/Common/FileMappedVector.h:528-548 | the element, or an error exactly when the index is out of range |
| FileMappedVectors.BuildImage | src/Common/FileMappedVector.h:787-802 | the new file holds the new elements and capacity and keeps the common part of prefix and suffix |
| FileMappedVectors.FileMappedVector.BuildTemporary | src/Common/FileMappedVector.h:824-827 | only the temporary file is touched, and it ends complete and fully flushed, or creating or flushing it failed |
| FileMappedVectors.SwapOnDisk | src/Common/FileMappedVector.h:828-847 | the renames succeed with the new file in place, or fail with the old file still the one recovery uses; at every step a crash leaves all of the old or all of the new file to recovery, so a backup that is the only live copy is never removed |
| FileMappedVectors.FileMappedVector.AtomicUpdate | src/Common/FileMappedVector.h:806-848 | all or nothing, also when the removal, the creation, the flush or a rename fails; refused while mapped to the backup; every state passed shows the old contents or the flushed new ones |
| FileMappedVectors.FileMappedVector.CopyAndSwap | src/Common/FileMappedVector.h:812-847 | the same for the body of the update, including the file the vector is mapped to afterwards |
| FileMappedVectors.FileMappedVector.Reserve | src/Common/FileMappedVector.h:450-459 | the same elements with the larger capacity, or unchanged on failure; the log shows only the value before and the value after |
| FileMappedVectors.FileMappedVector.ShrinkToFit | src/Common/FileMappedVector.h:461-470 | the same elements with capacity equal to size, or unchanged on failure; the log shows only the value before and the value after |
| FileMappedVectors.FileMappedVector.Erase | src/Common/FileMappedVector.h:607-619 | the sequence without the range, or unchanged on failure; the log shows only the value before and the value after |
| FileMappedVectors.FileMappedVector.Insert | src/Common/FileMappedVector.h:628-651 | the sequence with the values at the position and the grown capacity, or unchanged on failure; the log shows only the value before and the value after |
| FileMappedVectors.FileMappedVector.InsertCapacity | src/Common/FileMappedVector.h:628-651 | enough for all elements, never smaller, and unchanged when there was room |
| FileMappedVectors.FileMappedVector.ResizePrefix | src/Common/FileMappedVector.h:722-731 | only the prefix changes: it has the new size and keeps the common part; the log shows only the value before and the value after |
| FileMappedVectors.FileMappedVector.ResizeSuffix | src/Common/FileMappedVector.h:754-763 | only the suffix changes: it has the new size and keeps the common part; the log shows only the value before and the value after |
| FileMappedVectors.FileMappedVector.PushBack | src/Common/FileMappedVector.h:661-674 | the sequence with one more element, growing when full, or unchanged on failure; cannot fail when there is room; besides the value before and after, the log shows at most the old elements with the new capacity |
| FileMappedVectors.FileMappedVector.PopBack | src/Common/FileMappedVector.h:653-659 | the sequence without its last element; the log shows only the value before and the value after |
| FileMappedVectors.FileMappedVector.Clear | src/Common/FileMappedVector.h:592-598 | no elements, same capacity, prefix and suffix; the log shows only the value before and the value after |
| FileMappedVectors.WriteAndFlushSlot | src/Common/FileMappedVector.h:669-670 | a new element written and flushed behind the size is invisible in every state a crash can leave |
| FileMappedVectors.WriteAndFlushSize | src/Common/FileMappedVector.h:672-673 | the size word then switches every state a crash can leave from the old sequence to the new one |
| FileMappedVectors.Recover | src/Common/FileMappedVector.h:369-390 | recovery keeps the surviving file, reports whether there is one, and is itself safe at every step |
| FileMappedVectors.Open | src/Common/FileMappedVector.h:369-403 | accepts exactly the files the checks accept, unless a directory operation fails; gives the vector of the surviving file exactly when it is accepted and holds one |
| FileMappedVectors.CrashFinds | src/Common/FileMappedVector.h:374-388 | crash atomicity over whole runs: a crash in any state of any run of the operations leaves a file that holds the value before or after the operation then running |
| FileMappedVectors.CrashOpens | src/Common/FileMappedVector.h:369-403 | after every crash the surviving value can be opened with the prefix size from before or from after the operation then running |
| FileMappedVectors.ReopenAfterCrash | src/Common/FileMappedVector.h:369-403 | reopening after a crash at any step with the prefix size of the surviving value gives that value, the one before or the one after, and succeeds if no directory operation fails |
| VectorRuns.Perform | src/Common/FileMappedVector.h:450-763 | every operation that the caller may call does to the mathematical vector what it should or leaves it, throws only on a directory failure or a vector mapped to its backup, and shows a crash only the values before and after |
| VectorRuns.Run | src/Common/FileMappedVector.h:450-763 | any run of operations follows the mathematical vector, throws nothing if no directory operation fails, and records for every state of the disk the call during which it was passed |
| VectorRuns.RunSurvivesCrash | src/Common/FileMappedVector.h:374-388 | a crash in any state of any run leaves a file that holds the value before or after the call then running, or while push_back grows the old elements with the new capacity |
| FileMappedVectors.FileMappedVector.NextCapacity | src/Common/FileMappedVector.h:938-941 | a full vector grows by half of its capacity and at most one more |
| VectorRuns.GrowsSeldom | src/Common/FileMappedVector.h:661-674 | a run of push_back calls copies the file only logarithmically often: with g growths the size reached is at least (3/2)^(g-1) times the first capacity plus one |
| PoolUpdate.NewOnesExact | src/BlockchainExplorer/BlockchainExplorer.cpp:561-569 | the added hashes are exactly those not yet known, each once |
| PoolUpdate.GoneOnesExact | src/BlockchainExplorer/BlockchainExplorer.cpp:571-582 | the removed hashes are exactly those that were known, each once |
| PoolUpdate.NewOnesPicked | src/BlockchainExplorer/BlockchainExplorer.cpp:561-569 | the added hashes stand in the order of the reply, each where it first occurs |
| PoolUpdate.GoneOnesPicked | src/BlockchainExplorer/BlockchainExplorer.cpp:571-582 | so do the removed ones |
| PoolUpdate.PoolMirror.ApplyDifference | src/BlockchainExplorer/BlockchainExplorer.cpp:561-582 | the two loops make the mirror known + added - removed and compute the two lists |
| PoolUpdate.TokenKept | src/BlockchainExplorer/BlockchainExplorer.cpp:104-140 | the guard stays the token of the one chain in flight |
| PoolUpdate.AnswerKept | src/BlockchainExplorer/BlockchainExplorer.cpp:534-559 | what was sent stays equal to the mirror until the reply is applied, and the reply is its difference to the pool of that moment |
| PoolUpdate.MirrorKept | src/BlockchainExplorer/BlockchainExplorer.cpp:550-582 | every step keeps: the mirror is the pool of the last answer, or will be once the answer at hand is applied |
| PoolUpdate.NothingLostKept | src/BlockchainExplorer/BlockchainExplorer.cpp:515-628 | every step keeps: the last answer is the pool, or someone will ask again, or a notification was ignored or a request failed |
| PoolUpdate.ObserversKept | src/BlockchainExplorer/BlockchainExplorer.cpp:601-616 | every step keeps: the observers differ from the mirror in exactly the hashes they are owed and those on their way; OwedExactly says from the run alone which hashes are owed |
| PoolUpdate.RunKeepsInv | src/BlockchainExplorer/BlockchainExplorer.cpp:104-140 | all five invariants hold after every run of any number of threads |
| PoolUpdate.ReachableGuard | src/BlockchainExplorer/BlockchainExplorer.cpp:104-140 | in every reachable state at most one chain is in flight, the guard is NONE exactly when none is, and ending never finds NONE |
| PoolUpdate.AppliedAnswerIsThePool | src/BlockchainExplorer/BlockchainExplorer.cpp:550-582 | applying a true symmetric difference makes the mirror the pool of the moment it was answered, in every interleaving |
| PoolUpdate.RestIsConsistent | src/BlockchainExplorer/BlockchainExplorer.cpp:515-628 | convergence: at rest the guard is NONE, the mirror is the pool of the last answer, which is the node's pool unless since then a notification was ignored or a request failed, and the observers agree with the mirror if and only if nothing is owed to them; RestAfterAnswer and ObserversAtRest state the same by what happened in the run |
| PoolUpdate.DetailsTell | src/BlockchainExplorer/BlockchainExplorer.cpp:605-615 | in every run: after a second reply without an error the observers have every added hash, no removed one and otherwise what they had; no other step tells them anything |
| PoolUpdate.OwedExactly | src/BlockchainExplorer/BlockchainExplorer.cpp:605-615 | in every state of every run a hash is owed to the observers if and only if an odd number of second requests about it have failed since the last that succeeded |
| PoolUpdate.NothingOwed | src/BlockchainExplorer/BlockchainExplorer.cpp:605-615 | as long as no second request fails, nothing is owed in any state |
| PoolUpdate.ObserversAtRest | src/BlockchainExplorer/BlockchainExplorer.cpp:601-616 | in every run without a failed second request, observers and mirror agree at rest |
| PoolUpdate.FreshSince | src/BlockchainExplorer/BlockchainExplorer.cpp:515-548 | since an answer, or since the start with an empty pool, only a failed first request or a call while switched off makes the last answer stale |
| PoolUpdate.RestAfterAnswer | src/BlockchainExplorer/BlockchainExplorer.cpp:515-628 | so if neither happened since some answer, the mirror is the node's pool at rest, and the observers have it too if no second request ever failed |
| PoolUpdate.ActivitySettles | src/BlockchainExplorer/BlockchainExplorer.cpp:104-140 | no thread depends on another: every activity can get to its end while all others stand still |
| PoolUpdate.EveryRunCanRest | src/BlockchainExplorer/BlockchainExplorer.cpp:515-628 | no deadlock: from every reachable state a run without failures and new notifications leads to rest, with the mirror equal to the node's pool if the explorer is switched on and nothing was missed since the last answer |
| PoolUpdate.RefusedCallerIsServed | src/BlockchainExplorer/BlockchainExplorer.cpp:104-140 | for every begin that returns false in any run: at some moment of that call the guard was UPDATE_REQUIRED, and in every later state it still is or an end has called poolChanged again |
| PoolUpdate.FailedDetailsLoseNotification | src/BlockchainExplorer/BlockchainExplorer.cpp:605-610 | for every hash, a run in which it enters the pool and ends with the mirror right and the observers behind it |
| BlockUpdate.ChainMirror.RequestHeights | src/BlockchainExplorer/BlockchainExplorer.cpp:699-708 | the requested heights run from the known top to the new one |
| BlockUpdate.ChainMirror.RequestAll | src/BlockchainExplorer/BlockchainExplorer.cpp:689-708 | what each of a run of notifications asks for |
| BlockUpdate.AskedAgain | src/BlockchainExplorer/BlockchainExplorer.cpp:704-708 | a height is asked for again if and only if it is the last of its request and there is a later one |
| BlockUpdate.AllArriveExact | src/BlockchainExplorer/BlockchainExplorer.cpp:704-730 | every height arrives if and only if no failed request asked for a height strictly between two tops and the tops it shares with its neighbours arrive through them |
| BlockUpdate.ClassifyAll | src/BlockchainExplorer/BlockchainExplorer.cpp:732-757 | the nested loops keep the first main-chain block since the height last rose, and both lists, which EveryBlockSorted describes index by index |
| BlockUpdate.EveryBlockSorted | src/BlockchainExplorer/BlockchainExplorer.cpp:744-750 | every block of a reply is orphaned, new or has the hash of the known top; both lists keep order and multiplicity, by indices; the orphaned list holds every orphaned block; the new list holds exactly the main-chain blocks with another hash than the known top's, if and only if no main-chain block with that hash is higher |
| BlockUpdate.ChainMirror.BlocksArrived | src/BlockchainExplorer/BlockchainExplorer.cpp:732-767 | succeeds if and only if some block from the first highest one on is not orphaned; the first such block is the new top; the two lists are the orphaned and the new blocks of the reply; nothing changes on failure |
| BlockUpdate.TopStartIsFirstMax | src/BlockchainExplorer/BlockchainExplorer.cpp:740-743 | the scan restarts at the first block of the greatest height |
| BlockUpdate.TopIsInHighestGroup | src/BlockchainExplorer/BlockchainExplorer.cpp:736-767 | for replies grouped by requested height, success and new top are decided by the highest non-empty group alone |
| BlockingQueues.FaithfulKept | src/Common/BlockingQueue.h:55-93 | popped values followed by the queue are the accepted pushes in order, within the size limit, after every step; PushOutcome and PopOutcome say which pushes are accepted and what is popped |
| BlockingQueues.ClosedWaitsKept | src/Common/BlockingQueue.h:95-106 | once closed nobody waits for data, and waiting for space means the queue is not empty |
| BlockingQueues.PushKeepsWoken | src/Common/BlockingQueue.h:55-70 | a push leaves enough woken threads for the values and the free places |
| BlockingQueues.PopKeepsWoken | src/Common/BlockingQueue.h:72-93 | so does a pop |
| BlockingQueues.SpuriousKeepsWoken | src/Common/BlockingQueue.h:59-61 | so does a spurious wake-up |
| BlockingQueues.RunKeepsInv | src/Common/BlockingQueue.h:55-106 | these invariants hold after every run |
| BlockingQueues.NobodyWaitsInVain | src/Common/BlockingQueue.h:55-106 | no lost wake-ups: when no woken thread is left, those waiting for data find it empty and open, pushers find it full and open, closers find it closed and not empty |
| BlockingQueues.ClosedAcceptsNothing | src/Common/BlockingQueue.h:63-65 | after closing no push is accepted and the queue never grows |
| BlockingQueues.PushOutcome | src/Common/BlockingQueue.h:56-70 | in every run a push, new or woken up, is accepted with the value of its call if and only if the queue is open and has room, waits if and only if it is open and full, and returns false, changing nothing, if and only if it is closed |
| BlockingQueues.PushFailsOnlyWhenClosed | src/Common/BlockingQueue.h:59-65 | a push leaves its call without being accepted only if the queue is closed, and from then on nothing is accepted |
| BlockingQueues.PopOutcome | src/Common/BlockingQueue.h:72-93 | a pop takes the oldest value if and only if there is one, and otherwise returns false if the queue is closed and waits if it is open |
| BlockingQueues.CloseOutcome | src/Common/BlockingQueue.h:95-106 | every close closes the queue, keeps its values and leaves nobody waiting but a caller that waits for a queue that is not empty; without waiting the caller has returned |
| BlockingQueues.PopFailsOnlyWhenDrained | src/Common/BlockingQueue.h:72-81 | a pop returns false only when closed and everything accepted was popped, and it stays so |
| BlockingQueues.CloseReturnsOnlyWhenEmpty | src/Common/BlockingQueue.h:95-106 | a waiting close returns only with the queue closed, and empty from then on |
| GroupCloses.ClosedExactlyOnce | src/Common/BlockingQueue.h:135-140 | the queue is closed exactly once, by the last of the group, however the two atomic accesses interleave |
| GroupCloses.ClosedByTheLastCall | src/Common/BlockingQueue.h:135-140 | in terms of calls: not closed while fewer members have called than the group has, and closed exactly once when that many calls have finished |
| GroupCloses.EmptyGroupNeverCloses | src/Common/BlockingQueue.h:135-140 | a group of size zero never closes the queue |
| JsonText.InsertAscends | src/Common/JsonValue.h:56 | storing under a key keeps the members in key order |
| JsonText.InsertUpdates | src/Common/JsonValue.cpp:934 | storing under a key is a map update, so a repeated key keeps its last value |
| JsonText.MembersUnique | src/Common/JsonValue.h:56 | a map has only one list of members in key order |
| JsonText.ReadPrinted | src/Common/JsonValue.cpp:728-750 | a printed value anywhere in a text, if an integer then with no digit or dot behind it, is read back and the reader stops right behind it |
| JsonText.RoundTrip | src/Common/JsonValue.cpp:623-679 | for every value without reals and every text behind it: reading gives the value back and leaves that text if and only if it is not an integer followed by a digit or a dot |
| JsonText.FromToString | src/Common/JsonValue.cpp:595-621 | fromString undoes toString |
| JsonText.BareRealRefused | src/Common/JsonValue.cpp:863-866 | a text that is a real without exponent is refused, although with a space behind it it is read |
| JsonText.PrintInjective | src/Common/JsonValue.cpp:617-679 | different values print differently |
| JsonText.ReadIsNormal | src/Common/JsonValue.cpp:703-970 | whatever is read has integers in range, well-escaped strings and keys, and keys in order |
| JsonText.NormalForm | src/Common/JsonValue.cpp:595-679 | printing what was read from any text and reading that gives the same value |
| JsonText.DecimalIsValue | src/Common/JsonValue.cpp:642-644 | decimal notation has the right value and no leading zero |
| JsonText.IntRead | src/Common/JsonValue.cpp:842-855 | a printed 64-bit integer is read back as an integer, not refused for leading zeros |
| JsonText.TokenRead | src/Common/JsonValue.cpp:703-723 | a well-escaped string is read back up to its closing quote |
| JsonText.ReadValue | src/Common/JsonValue.cpp:728-750 | every successful read consumes at least one character and stays inside the text |
| JsonGrammar.SpaceIsWhite | src/Common/JsonValue.cpp:693-701 | white space is exactly the six characters of isspace |
| JsonGrammar.DecimalDigitExact | src/Common/JsonValue.cpp:842-858 | a digit has the value of its place in 0123456789, when read and when printed |
| JsonGrammar.NearestIsNearest | src/Common/JsonValue.cpp:904-911 | an integer out of range is read as the nearest 64-bit integer |
| JsonGrammar.CollectedIsMap | src/Common/JsonValue.cpp:915-957 | an object has its keys in order and for each the last value written |
| JsonGrammar.TokenIsRead | src/Common/JsonValue.cpp:799-913 | every word, string and numeral of the grammar is read as its value, up to its end |
| JsonGrammar.TokenFound | src/Common/JsonValue.cpp:799-913 | whatever is read as a scalar is such a token: no leading zeros, one dot, digits in an exponent |
| JsonGrammar.DocIsRead | src/Common/JsonValue.cpp:728-970 | every document of the grammar, with any white space before any of its tokens, is read as its meaning wherever it stands in a text |
| JsonGrammar.DocFound | src/Common/JsonValue.cpp:728-970 | whatever is read is such a document |
| JsonGrammar.ReadsExactly | src/Common/JsonValue.cpp:728-970 | from any text at any position the reader returns a value and a position if and only if a document with that meaning stands there and is over at that position |
| JsonGrammar.FromStringExact | src/Common/JsonValue.cpp:595-604 | fromString succeeds if and only if the text starts with a document and does not end there in a real without exponent |
| JsonGrammar.WordsExact | src/Common/JsonValue.cpp:799-840 | true, false and nil are read if and only if white space and then true, false or null stands there |
| JsonGrammar.WhiteSpaceInFront | src/Common/JsonValue.cpp:693-701 | any text, readable or not, is read behind any white space as it is without, the position shifted by its length |
| JsonGrammar.WhiteSpaceIgnored | src/Common/JsonValue.cpp:768-957 | white space around brackets, commas and colons makes no difference |
| JsonGrammar.PrintsADocument | src/Common/JsonValue.cpp:623-679 | the printed form of a value is a document of the grammar without white space that means this value |
| JsonStreams.Input.ReadNonWsChar | src/Common/JsonValue.cpp:684-701 | the next character that is not one of the six white-space characters (JsonGrammar.SpaceIsWhite), or an error at the end |
| JsonStreams.Input.ReadStringToken | src/Common/JsonValue.cpp:703-723 | the loop collects exactly the text up to the first unescaped quote |
| JsonStreams.Input.ReadNumber | src/Common/JsonValue.cpp:842-913 | scanning with a count of dots reads the same number as the grammar, with the same errors, and makes the stream fail exactly after a real without exponent at the end of the text |
| JsonStreams.Input.ReadArray | src/Common/JsonValue.cpp:768-797 | the loop refines the recursive reading of arrays |
| JsonStreams.Input.ReadObject | src/Common/JsonValue.cpp:915-957 | the loop refines the recursive reading of objects |
| JsonStreams.Input.ReadValue | src/Common/JsonValue.cpp:728-750 | the whole reader on a stream refines the reading of texts: value, errors, position and the fail flag |
| JsonStreams.FromString | src/Common/JsonValue.cpp:595-604 | the value at the start of the text as the grammar gives it (JsonGrammar.ReadsExactly), or an error when there is none or the stream has failed |
| JsonStreams.Output.Write | src/Common/JsonValue.cpp:623-679 | the printer appends exactly the printed form, arrays and objects by loops |
| JsonStreams.ToString | src/Common/JsonValue.cpp:617-621 | the printed form |
| ChunkedBody.Size32IsNumber | external/miniupnpc/miniwget.c:264-270 | the size computed in 32 bits is the hexadecimal number modulo 2^32; ChunkedText.HexDigitExact and HexTextNumber tie that number to the notation |
| ChunkedPackets.PassMoved | external/miniupnpc/miniwget.c:242-313 | one pass moves the decoder to the place in the body that its packet ends at, conserving content plus content due, unless it reads a wrong size, which only cuts that do not keep the sizes can cause |
| ChunkedPackets.PacketMoved | external/miniupnpc/miniwget.c:242-313 | so does a whole packet |
| ChunkedPackets.SizesExact | external/miniupnpc/miniwget.c:239-315 | for every well-formed body and every cut into packets, the decoder reads the sizes the body announces if and only if the digits collected over the packets of each line have its size |
| ChunkedPackets.InStepDecodes | external/miniupnpc/miniwget.c:239-315 | and then it reaches the end with exactly the data of the chunks |
| ChunkedPackets.PacketIndependence | external/miniupnpc/miniwget.c:239-315 | for every well-formed body without hex digits in its extensions and every cut into packets, the decoder reaches the end with exactly the data of the chunks |
| ChunkedText.HexDigitExact | external/miniupnpc/miniwget.c:252-270 | a byte is a hex digit of a value if and only if it stands at that index in 0123456789abcdef or 0123456789ABCDEF |
| ChunkedText.HexTextNumber | external/miniupnpc/miniwget.c:264-270 | writing a number in hex and reading it gives the number |
| ChunkedText.CaseIsIgnored | external/miniupnpc/miniwget.c:266-270 | the case of each letter does not matter |
| ChunkedText.ServedIsReceived | external/miniupnpc/miniwget.c:239-315 | for all pieces of data, each announced by its length in hex in any mixture of cases, and every cut of that text into packets, the decoder ends with exactly these data |
| ChunkedPackets.CutExtension | external/miniupnpc/miniwget.c:252-260 | an extension cut once: the hex digits behind the cut are added to the digits of the size as far as there is room |
| ChunkedPackets.CutBeforeDigit | external/miniupnpc/miniwget.c:252-270 | one hex digit behind a cut leaves the size the same if and only if 15 times the size plus the digit is 0 modulo 2^32 |
| ChunkedPackets.ReceivedContent | external/miniupnpc/miniwget.c:346-353 | with a Content-Length the content is complete or a prefix no shorter than that length |
| ChunkedPackets.ContentLengthExact | external/miniupnpc/miniwget.c:346-353 | the content is complete for every cut into packets if and only if there is no positive Content-Length below its length |
| ChunkDecoders.ChunkDecoder.FeedPacket | external/miniupnpc/miniwget.c:239-315 | the loop over one packet, with both buffers in place and never overrun, computes the specified state |
| ChunkDecoders.ChunkDecoder.FeedPackets | external/miniupnpc/miniwget.c:239-353 | the loop over the packets stops at the end of the stream or at the Content-Length, as specified |
| ChunkDecoders.ChunkDecoder.TakeDigits | external/miniupnpc/miniwget.c:252-258 | digits are collected as long as the size buffer has room |
| ChunkDecoders.ChunkDecoder.SizeOfDigits | external/miniupnpc/miniwget.c:264-270 | the size loop, with its own arithmetic on digits and letters, computes the 32-bit value of the collected digits |
| ChunkDecoders.ChunkDecoder.CopyBytes | external/miniupnpc/miniwget.c:291-313 | the content buffer is enlarged in time and receives exactly the bytes of the chunk in the packet |
| ChunkDecoders.ReceiveBody | external/miniupnpc/miniwget.c:239-353 | the decoder in place returns the content of the body, or a prefix no shorter than a Content-Length, for every cut that keeps the sizes |
| Base58.AlphabetIsSymbols | src/Common/Base58.cpp:54-55 | the alphabet string, symbol by symbol |
| Base58.BuildReverseAlphabet | src/Common/Base58.cpp:61-84 | the table finds the digit of every symbol and -1 for every other character |
| Base58.BuildDecodedSizes | src/Common/Base58.cpp:88-109 | the table inverts the encoded block sizes |
| Base58.BlockFits | src/Common/Base58.cpp:56-58 | 256^k is at most 58 to the encoded size of k, so a block never overflows its place |
| Base58.EncodedSizeIsLeast | src/Common/Base58.cpp:56-58 | and 58 to one symbol less is below 256^k, so no encoded size could be smaller |
| Base58.ReadBigEndian | src/Common/Base58.cpp:113-132 | the number the bytes stand for |
| Base58.Mul128 | src/Common/int-util.h:85-109 | the two halves are the exact 128-bit product |
| Base58.EncodeBlock | src/Common/Base58.cpp:142-155 | writes the padded base-58 digits of the block in place and nothing outside it |
| Base58.Accumulate | src/Common/Base58.cpp:165-180 | succeeds if and only if all symbols are known and the mathematical value is below 2^64, although every step wraps |
| Base58.DecodeBlock | src/Common/Base58.cpp:157-188 | succeeds if and only if the length is valid, the symbols are known and the value is below 256 to the decoded size; then writes the bytes and nothing outside |
| Base58.BlockRoundTrip | src/Common/Base58.cpp:142-188 | decoding an encoded block gives the block |
| Base58.BlockCanonical | src/Common/Base58.cpp:142-188 | encoding a decoded block gives the symbols back |
| Base58.RoundTrip | src/Common/Base58.cpp:191-244 | decode(encode(d)) = d for every byte string |
| Base58.Canonical | src/Common/Base58.cpp:191-244 | whenever decode(s) succeeds, encoding the result gives s |
| Base58.EncodeString | src/Common/Base58.cpp:191-212 | the block loop computes the encoding |
| Base58.DecodeString | src/Common/Base58.cpp:214-244 | the block loop computes the decoding, with the same errors |
| StreamTools.Read | src/Common/StreamTools.cpp:45-55 | exactly the requested bytes however they come in, or an error if and only if there are too few |
| StreamTools.Write | src/Common/StreamTools.cpp:194-204 | all bytes however they are taken, or an error after a proper prefix |
| StreamTools.WriteVarint | src/Common/StreamTools.cpp:252-268 | writes the varint of the value, or fails after a proper prefix of it |
| StreamTools.ReadVarint | src/Common/StreamTools.cpp:106-192 | success means that exactly the varint of a value of the width was consumed; failure means that no value of the width has a varint at the start of the stream |
| StreamTools.TakePiece | src/Common/StreamTools.cpp:108-123 | one byte is refused, ends the varint or extends it, exactly as the width allows |
| StreamTools.PrefixFree | src/Common/StreamTools.cpp:261-268 | no varint is a prefix of another |
| StreamTools.VarintLength | src/Common/StreamTools.cpp:261-268 | a varint of width W has at most ceil(W/7) bytes |
| StreamTools.VarintPieces | src/Common/StreamTools.cpp:252-268 | byte i of a varint holds the seven bits from 7i on, and its top bit says whether bits are left beyond |
| StreamTools.ReadWhatWasWritten | src/Common/StreamTools.cpp:106-268 | reading a written varint gives the value and leaves the rest |
| ShuffleGenerators.ShuffleGenerator.constructor | src/Common/ShuffleGenerator.h:47-48 | starts as the identity on 0..N-1 |
| ShuffleGenerators.ShuffleGenerator.Next | src/Common/ShuffleGenerator.h:50-76 | the sparse map does one step of the dense shuffle: it returns the chosen element and moves the last one into its place; an empty generator only reports that |
| ShuffleGenerators.ShuffleGenerator.Reset | src/Common/ShuffleGenerator.h:82-85 | the identity again |
| ShuffleGenerators.Draw | src/Common/ShuffleGenerator.h:50-76 | any run of calls returns what the dense shuffle draws |
| ShuffleGenerators.DrawsConserve | src/Common/ShuffleGenerator.h:50-76 | drawn elements and those left are the elements there were |
| ShuffleGenerators.FullRunIsPermutation | src/Common/ShuffleGenerator.h:50-76 | N calls return a permutation of 0..N-1 |
| ShuffleGenerators.UniformlyShuffled | src/Common/ShuffleGenerator.h:50-76 | every permutation comes from exactly one sequence of choices |

## Left out

- The initial creation of a vector at its final path, CREATE mode, `rename` and `swap` of vectors,
  switching auto-flush during a run, and elements, prefix or suffix written directly through
  references: not covered by the update protocol.
- A flush that fails in place, and vectors whose file would reach 2^64 bytes (the source's sum wraps).
- MappedDisk.Disk.Flush: never fails; TryFlush is the flush that may, and the temporary file uses it.
- Name collisions of temporary files, error codes and the mapping itself: the disk model takes their place.
- FileMappedVectors.Open: returns no vector for an accepted file whose capacity wraps, because the source then reads outside the file.
- FileMappedVectors.FileMappedVector.Attach: is only called on files that hold a vector; Open covers the others.
- VectorLayout.OpenExact: excludes prefix sizes from 2^64 - 16 on, for which the first check of the source wraps and its words lie outside the file; Open does the same.
- FileMappedVectors.FileMappedVector.BuildTemporary: the stores into the temporary file are one write followed by the flush; no crash can show the difference, because nothing refers to that file yet.
- FileMappedVectors.FileMappedVector.Insert: values are given as a sequence, not as iterators into the vector itself.
- BlockUpdate.ChainMirror.RequestHeights: excludes height 2^32 - 1, for which the loop of the source does not end.
- The explorer's exception paths, its observer counter, its logging and the data builder.
- Fairness: the queue theorems say that a waiting thread is woken in time, not that it is scheduled.
- GroupCloses.ClosedExactlyOnce: fewer than 2^64 calls beyond the group size, because the counter wraps there.
- GroupCloses.ClosedByTheLastCall: the same bound.
- JSON reals: they are read as their text and not printed, because a double printed to 11 digits loses precision.
- The tagged union behind a JSON value (placement, destruction, conversion) and reading with white space kept.
- JsonStreams.Input.ReadArray: returns the value instead of overwriting an existing one in place.
- Response headers, bodies that are not chunked, sockets, and failing allocation.
- ChunkDecoders.ChunkDecoder.FeedPacket: requires that the content stays below 2^32 bytes, where the counters of the source wrap.
- ChunkedPackets.SizesExact: is about the sizes read; whether a wrong size may by coincidence still give the right bytes is not settled.
- Addresses (tag and checksum around base-58), because the hash is not part of this model; the Base64 encoder.
- StreamTools.ReadVarint: shifted pieces are added instead of or-ed; their bits are disjoint.
- The other readers and writers of the stream tools, formatting, console, network and command-line code: they would only add easy members.
