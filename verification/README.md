# Four state machines, proved

The repository holds course projects in C. This project models the four parts of it that
carry real state, and proves what they keep over every run:

- **The debate** (`prj2`): a moderator, `n` commentators and a breaking-news thread over
  five global locks, two lock arrays and a shared ring buffer, in every interleaving.
- **Virtual memory** (`prj3`): a translation buffer of sixteen entries in front of a page
  table, with demand paging (`part1.c`) and page replacement (`part2.c`).
- **The configuration store** (`prj1/config.h`): a linked list used as a map from hashes,
  saved to and loaded from a text file.
- **The command parser** (`prj1/seashell.c`, `parse_command`): a recursive tokeniser that
  cuts its buffer in place.

`dafny verify dfyconfig.toml` checks everything.

## How it is built

`RingQueue` has the queue twice: as a value (`Ring`, `Push`, `Pop`) and as the struct
updated in place (`Queue`). `Debate` is the transition system: one program counter for each
thread, one action for each lock, unlock, access to a shared global, or critical section of
the queue; the comments of its `ModPc`, `ComPc` and `NewsPc` give the line of `main.c` each
counter stands for. `enqueue` and `dequeue` check in one action and act in another.
`DebateInvariant` is the invariant, `DebateHistory` relates what was recorded along a run to
the state at its end, and `DebateSafety` has the safety results. `DebateHang` says exactly when
the moderator can get past the line where it waits for answers, and `DebateProgress` when it can
take another step wherever it is. `DebateAnswers` records who answers which question.
`DebateRuns` has stretches of runs, and `DebateWitnesses` puts them together into the runs that
show what can go wrong, `DebateEnd` into whole debates that come to their end. `DebateActs` is
what one thread does alone: breaking news, a speech, the calls of the queue.

`TlbModel` is the buffer. `DemandPaging` finds which traces `part1.c` translates correctly,
`DemandPagingResults` says which values it prints and has the program on its arrays, and
`DemandAddresses` is about the physical addresses.
`PagingAsWritten` is `part2.c` exactly as written. `RepairedPaging`, `RepairedLru` and
`RepairedFifo` are **not** the code: they are the replacement that the code means, with the repairs listed at
the head of the module, and their rows below say "meant".

`ConfigModel` is the list and the map it stands for, `ConfigKeys` what its hashes tell apart,
`ConfigText` the file format and its round trip, `ConfigFormat` that format character by
character, `ConfigReload` what loading does to a list that has elements, `ConfigSweep` the removal
of a whole type, and `ConfigStore` the linked nodes. `CommandParser` is the meaning of a line,
`CommandWords` the reference it is compared with, in terms of words, `CommandLines` what holds of
every line, `CommandPrinting` what becomes of printed pipelines, and `CommandBuffer` the buffer
with its `strtok` state.

Each class method is tied by its `ensures` to a function of the old state, and what the code
is for is proved about those functions.

## What the code does not do

These came out of the proofs.

- The debate can stop for good, if and only if a question is to be asked at all
  (`DebateProgress.HangsIffAsked`). In every reachable state in which the moderator has not
  returned, some continuation takes it on if and only if the state is stuck neither at line 94
  nor at line 105 of `main.c` (`DebateProgress.MovesIffNotStuck`).
  - Stuck at line 94: `mutex1` is taken, no commentator is about to unlock it, and none has
    queued an answer whose position will compare equal to `currentSize - 1`. Nobody answers in
    time (`DebateHang.DebateCanHang`), or an answer that comes late compares with the size of
    the round before and wakes the moderator too early, after which the next question hangs
    although an answer to it was counted (`DebateWitnesses.AnsweredHangs`).
  - Stuck at line 105: the called commentator takes itself for the one that wakes the moderator
    and needs `question_mutex`, which another one took at line 163 and only the moderator would
    release. A late answer leads there as well (`DebateWitnesses.CallHangs`).
- With nobody to answer, a debate that has a question never ends, and the moderator never returns;
  in every other case some run ends with every thread returned (`DebateEnd.EndsIff`).
- Rounds are not separate: a commentator can answer the same question twice, if and only if
  there are at least two commentators and two questions
  (`DebateWitnesses.RoundsAreSeparateIff`).
- `clear` empties only queues of at most one element (`RingQueue.ClearEmptiesOnlyShortQueues`).
- `part1.c` keeps page numbers of the buffer and `free_page` in one byte. Which traces still
  come out right is settled exactly (`DemandPagingResults.CorrectIffSafe`): each page, where
  it stands, must not share its low byte with another page of the last sixteen misses, and
  must not have been followed by 256 new pages since it first came up. Both can happen
  (`DemandPagingResults.AliasedPagesGoWrong`, `DemandPagingResults.ReplacedPageGoesWrong`).
- `part2.c` never copies a page in, never uses frame 255, never unmaps a page, and its "least
  recently used" gives a new page the frame used last. Two pages share a frame as soon as 256
  have come up, and not before (`PagingAsWritten.OneToOneIffFew`).
- A saved configuration is read back if and only if every field is non-empty and free of `:`
  and newline, hashes are distinct, and every stored hash is the key of its element's type and
  name (`ConfigText.SaveLoadsBack`). `shortdir set a:b`, or a directory with `:` in its path,
  breaks the first condition (`ConfigText.ColonIsNotReadBack`). The key adds two hashes, so type
  and name can be exchanged, and an element overwritten in this way breaks the last
  (`ConfigText.ExchangeIsNotReadBack`); the shell itself stores one type only, so that takes an
  edited file.
- `rm_config` without a name leaves elements behind if and only if two of the type stand side by
  side behind an element of another type (`ConfigSweep.SweepIff`): the scan keeps the node it has
  just taken out as its predecessor. A store of one type, such as the shell has, is emptied
  (`ConfigSweep.OneTypeIsSwept`).
- Two names get in each other's way if and only if their hashes are equal (`ConfigKeys.TwoNames`).
  Names that differ in one character never do (`ConfigKeys.OneCharacterTells`); names that differ
  in two neighbouring characters do when what the first gains, 33 times, the second loses
  (`ConfigKeys.TwoCharactersTell`).
- Quotes do not protect blanks: `echo "a b"` is taken apart at the blank
  (`CommandPrinting.QuotedBlankIsSplit`), and no text that is parsed ever has a blank
  (`CommandLines.ParsedIsTidy`). A pipeline can be printed with its arguments bare, in quotes or in
  apostrophes. It is read back if and only if all names are non-empty, no name, argument or file
  name has a blank, every token fits its buffer of 1024 characters, no argument is empty, no
  output file starts with `>`, and every bare argument starts with neither `<` nor `>`, is not
  `|` or `&`, and is not itself wrapped in quotes or apostrophes (`CommandPrinting.ParseUndoesPrint`).

## Assumptions

- `unlock` makes a lock free whichever thread took it, and `lock` waits until it is free. The
  debate needs this, because its threads unlock what others have locked; POSIX.1-2017
  (System Interfaces, `pthread_mutex_lock`) leaves it undefined for normal mutexes.
- The lock arrays have `n` members, as many as there are commentators, and the thread ids of
  commentators are 1 to `n` (the moderator is created first). In `main.c` the arrays have four.
- The outcome of `probabilityCheck`, and whether a slice of speaking time is left, are free
  choices at each step. Locks need not be fair.
- The clock of `part2.c` enters as a number with each access, never negative. That "least
  recently used" takes the frame used last needs a clock that does not run backwards; it may
  stand still. The meant policy needs one that increases.
- Backing store, trace and configuration file are sequences. Characters of the configuration
  file are never NUL.
- A command made for the stage behind a `|` starts zeroed, as the first one does.

## Model

| member | source | states |
|---|---|---|
| RingQueue.PushAppends | prj2/src/queue.c:38-43 | the update half of `enqueue`, with a slot free, appends to the queued sequence and keeps `end` at `front + size - 1` modulo the capacity |
| RingQueue.PopRemovesHead | prj2/src/queue.c:51-56 | the update half of `dequeue` returns and removes exactly the oldest value |
| RingQueue.PushOnFullBreaksQueue | prj2/src/queue.c:36-43 | an update that was not checked keeps the queue consistent if and only if a slot is free, so the bound has to come from the callers |
| RingQueue.ApplyRefines | prj2/src/queue.c:21-80 | each operation, `clear` as it is written included, gives the result and the contents that a bounded first-in first-out sequence gives |
| RingQueue.ClearFromLeaves | prj2/src/queue.c:70-74 | from round `i` on, the loop of `clear` leaves the newest half of what exceeds `i` |
| RingQueue.RunRefines | prj2/src/queue.c:21-80 | for any capacity, zero included, no sequence of calls can tell the ring buffer from a bounded sequence |
| RingQueue.FirstInFirstOut | prj2/src/queue.c:35-57 | over every run without `clear`, what was queued at first and what was put in since is what was taken out and what is left, in that order |
| RingQueue.ClearEmptiesOnlyShortQueues | prj2/src/queue.c:70-74 | `clear` does what its name says if and only if at most one value is queued |
| RingQueue.Queue.constructor | prj2/src/queue.c:5-13 | a new queue is empty, has the capacity asked for, and an array of its own |
| RingQueue.Queue.IsFull | prj2/src/queue.c:21-26 | true exactly when the contents fill the capacity |
| RingQueue.Queue.IsEmpty | prj2/src/queue.c:28-33 | true exactly when there are no contents |
| RingQueue.Queue.Enqueue | prj2/src/queue.c:35-45 | in place, appends and returns the old length, or changes nothing and returns -1 on a full queue |
| RingQueue.Queue.Dequeue | prj2/src/queue.c:48-57 | in place, removes the head and returns it, or changes nothing and returns -1 on an empty queue |
| RingQueue.Queue.Front | prj2/src/queue.c:59-63 | the oldest value, or -1 |
| RingQueue.Queue.End | prj2/src/queue.c:65-69 | the newest value, or -1 |
| RingQueue.Queue.GetSize | prj2/src/queue.c:75-80 | the number of values queued |
| RingQueue.Queue.Clear | prj2/src/queue.c:70-74 | removes half of the values, rounded up, from the front: the loop tests its counter against the size it shrinks |
| DebateInvariant.ModKeepsInv | prj2/main.c:83-118 | every line of the moderator keeps the invariant: tokens, queue, `mutex3`, breaking news and `curr_com_id` |
| DebateInvariant.ComKeepsInv | prj2/main.c:120-178 | every line of every commentator keeps it |
| DebateInvariant.NewsKeepsInv | prj2/main.c:181-196 | every line of breaking news keeps it |
| DebateInvariant.InitInv | prj2/main.c:51-64 | it holds at the start, with both lock arrays locked |
| DebateInvariant.RunKeepsInv | prj2/main.c:83-196 | it holds after every interleaving: a waiting commentator has exactly one token (queued, popped, or gate open), and once called exactly one of gate open, speaking, done signalled |
| DebateHistory.RunKeepsOrder | prj2/main.c:99-107 | after every interleaving the records of queueing, dequeueing, turns begun and turns ended fit the queue and the counters |
| DebateHistory.RunKeepsRound | prj2/main.c:86-93 | the same for the answers given between `lock(mutex3)` and `getSize`; nobody of a round is left undecided when the next one starts |
| DebateSafety.OneSpeaker | prj2/main.c:166-170 | at most one commentator is between passing its gate and releasing `mutex_2`, and it is the one dequeued last; the argument rests on the gates, not on `mutex2` |
| DebateSafety.QueueNeverOverflows | prj2/src/queue.c:35-45 | in every interleaving the check never finds the queue full, the update always finds a slot free, no id is queued twice, and no more are queued than wait |
| DebateSafety.NoSignalLost | prj2/main.c:99-107 | every unlock of a gate or of `mutex_2[i]` finds it locked, and every id dequeued is 1 to `n`, never the -1 of an empty queue |
| DebateSafety.NewsInterruptsNobody | prj2/main.c:137-145 | while breaking news is on nobody is inside a slice of speaking and the moderator is not asking; nor are two commentators inside slices |
| DebateSafety.CurrentIsSpeaker | prj2/main.c:141-146 | `curr_com_id` is -1 or the id of the one commentator that has the turn, and is that id during a slice |
| DebateSafety.AnswersInOrder | prj2/main.c:99-107 | ids queued = ids dequeued followed by the queue; turns begin and end in that order, each behind by at most one, and level when the moderator holds nobody: no answer is lost, repeated or reordered |
| DebateSafety.PositionsAreConsecutive | prj2/main.c:157-161 | those that answer in a round have consecutive positions, and until all have compared, `currentSize` stays one above the last of them |
| DebateSafety.OneLeaderPerRound | prj2/main.c:161-164 | of those exactly one, the last, takes the branch that wakes the moderator, if there is any |
| DebateHang.RunKeepsKnown | prj2/main.c:92-94 | after every interleaving also: from `getSize` to line 94 the queue is no shorter than `currentSize`, and a taken `mutex3` has a holder |
| DebateHang.StuckIsForever | prj2/main.c:94 | once stuck, every continuation leaves the moderator at line 94 and the state stuck |
| DebateHang.PassIffNotStuck | prj2/main.c:94 | in every reachable state with the moderator at line 94, some continuation takes it past that line if and only if the state is not stuck |
| DebateHang.DebateCanHang | prj2/main.c:83-95 | for every `n` and every positive number of questions, nine steps of the moderator alone can be taken, and after them the debate is stuck |
| DebateProgress.RunKeepsAll | prj2/main.c:92-105 | after every interleaving also: a taken `mutex1` has a holder, and while the moderator waits at line 105 a taken `mutex2` is with the called speaker |
| DebateProgress.StuckAtCallIsForever | prj2/main.c:105 | once stuck at a call, every continuation leaves the moderator where it is and the state stuck |
| DebateProgress.CallReturnsIffNotStuck | prj2/main.c:105 | in every reachable state with the moderator at line 105, some continuation takes it off that line if and only if the state is not stuck there |
| DebateProgress.MovesIffNotStuck | prj2/main.c:109-118 | in every reachable state before the moderator returns, wherever it is, some continuation takes it on if and only if the state is stuck neither at line 94 nor at line 105 |
| DebateProgress.HangsIffAsked | prj2/main.c:112-115 | for every number of commentators, some run hangs the moderator if and only if at least one question is to be asked |
| DebateWitnesses.AnsweredHangs | prj2/main.c:157-164 | for at least two commentators and questions, a reachable state is stuck at line 94 with one answer counted and still queued |
| DebateWitnesses.CallHangs | prj2/main.c:161-168 | for at least two commentators, a reachable state is stuck at line 105 and not at line 94 |
| DebateWitnesses.AnswersTwice | prj2/main.c:162-163 | for at least two commentators and questions, some run has a commentator queue two answers while one question was asked; it was called for the first and is queued again |
| DebateAnswers.AnswersAreDistinct | prj2/main.c:154-163 | with at most one commentator or at most one question, no run ever has a commentator queue two answers to one question |
| DebateWitnesses.RoundsAreSeparateIff | prj2/main.c:154-163 | no commentator can answer a question twice if and only if there is at most one commentator or at most one question |
| DebateActs.RunningUntilDone | prj2/main.c:112-117 | after every interleaving `_running` is true exactly until the moderator has returned |
| DebateActs.NewsAirs | prj2/main.c:182-194 | in every reachable state with breaking news at the head of its loop: before the moderator has returned it waits or, with `bnews_mutex` free, two of its steps put it on the air and two more leave the state as it was; afterwards every step ends it |
| DebateActs.NewsCanComeFirst | prj2/main.c:182-190 | for any numbers, breaking news can be on the air before anything else has happened |
| DebateActs.CanSpeak | prj2/main.c:137-145 | in every reachable state, a commentator with speaking time left and `bnews_mutex` free can by itself come into the middle of a slice with `curr_com_id` its own id, and out of it with the lock free again |
| DebateActs.ManySlices | prj2/main.c:137-145 | and so for any number of slices one after the other |
| DebateActs.SpeechEnds | prj2/main.c:146-170 | when no time is left, `curr_com_id` is cleared, `mutex2` and the own member of `mutex_2` are released, and it is back at its loop |
| DebateActs.EnqueueIsOneCall | prj2/src/queue.c:35-45 | check and update with nobody in between are one call of `enqueue`, full or not |
| DebateActs.DequeueIsOneCall | prj2/src/queue.c:48-57 | the same for `dequeue`, empty or not |
| DebateActs.RunKeepsCounted | prj2/main.c:112-154 | after every interleaving no loop was taken more than `q` times, and whoever has left its loop took it exactly `q` times, or not at all when `q` is negative |
| DebateEnd.SomebodySpeaks | prj2/main.c:137-142 | with a commentator and a question there is a reachable state in the middle of a slice, with `curr_com_id` the speaker |
| DebateEnd.SomeRunEnds | prj2/main.c:109-178 | unless there is a question and nobody to answer it, some run ends with every thread returned; with questions there is one in which the first commentator answers each of them once, in order |
| DebateEnd.EndsIff | prj2/main.c:109-196 | some run ends with every thread returned, and equally some run has the moderator return, if and only if there is a commentator or no question |
| TlbModel.Tlb.Search | prj3/part1.c:52-64 | the scan down to position 0, which sees slots again, returns what a search of the last sixteen entries returns, newest first |
| TlbModel.Tlb.Add | prj3/part1.c:67-76 | overwrites the oldest of sixteen entries: the list of everything added grows by one |
| TlbModel.FindNewest | prj3/part1.c:54-61 | of several entries for a page the newest decides |
| TlbModel.FoundIffListed | prj3/part1.c:52-64 | the buffer finds a page if and only if it is among the last sixteen that entered |
| TlbModel.WindowIsDistinct | prj3/part1.c:122-141 | a list that only misses enter never holds a page twice among its last sixteen |
| TlbModel.SixteenAreListed | prj3/part1.c:52-76 | of distinct pages exactly the last sixteen are listed: after sixteen the first is a hit, after seventeen it is not |
| Addresses.SplitAddress | prj3/part1.c:115-117 | page and offset together are the address modulo 2^20, also for negative addresses |
| DemandPaging.StepIsRightIffSafe | prj3/part1.c:122-141 | the next access is sent to a frame that holds its page if and only if the page is safe, a condition on the trace so far alone |
| DemandPaging.RightIffSafe | prj3/part1.c:109-147 | the same for all accesses of a trace |
| DemandPagingResults.CorrectIffSafe | prj3/part1.c:109-147 | for a trace, every value printed is the byte of the store at its address, whatever the store holds, if and only if all pages are safe |
| DemandPagingResults.SmallPagesAreCorrect | prj3/part1.c:109-147 | this holds on every trace with pages below 256, hits, table hits and faults alike |
| DemandPagingResults.FramesAreEnough | prj3/part1.c:107-134 | such a trace needs at most 256 frames, which is what an 8-bit `free_page` can number |
| DemandPagingResults.TableNumbersPages | prj3/part1.c:128-141 | the k-th distinct page is in frame k, the frames in use are 0 to `page_faults` - 1, each holds its backing page, `page_faults` is the number of distinct pages, and other pages are unmapped |
| DemandPagingResults.TlbRefinesByteList | prj3/part1.c:52-76 | on every trace the entries added are the misses of a first-in first-out list of sixteen low bytes, in order, and the hits are exactly its hits |
| DemandPagingResults.HitIffListed | prj3/part1.c:122-141 | on safe traces that is a list of pages: a safe access hits exactly when its page is among the last sixteen misses, and those are the entries kept, in order, without duplicates |
| DemandPagingResults.AliasedPairIsUnsafe | prj3/part1.c:26-29 | any two pages with the same low byte, one directly after the other, are unsafe |
| DemandPagingResults.ReplacedIsUnsafe | prj3/part1.c:130-138 | after 273 to 512 new pages the first of them is unsafe though no listed page shares its byte: its frame was given away; all accesses before are safe |
| DemandPagingResults.ReplacedPageGoesWrong | prj3/part1.c:130-138 | 273 new pages are printed right whatever the store; the first of them, accessed again, is not |
| DemandPagingResults.AliasedPagesGoWrong | prj3/part1.c:52-76 | a byte of page 300, then one of page 44: for some store the wrong values are printed |
| DemandPagingResults.Simulator.constructor | prj3/part1.c:92-107 | nothing mapped, buffer empty, memory zero |
| DemandPagingResults.Simulator.CopyIn | prj3/part1.c:137-138 | the frame then holds the page, and every other frame what it held |
| DemandPagingResults.Simulator.Fault | prj3/part1.c:130-139 | the new state of table, memory and counters, with `free_page` wrapping at 256 |
| DemandPagingResults.Simulator.Translate | prj3/part1.c:122-141 | on the arrays, one access has the frame and the new state of the specification |
| DemandPagingResults.Simulator.Step | prj3/part1.c:109-146 | the address and the value printed are those of the specification |
| DemandPagingResults.Simulator.Run | prj3/part1.c:109-147 | so is everything the loop prints, for every trace |
| DemandAddresses.OffsetIsKept | prj3/part1.c:143-146 | on every trace each physical address printed lies in memory and has the offset of its address |
| DemandAddresses.FramesInOrder | prj3/part1.c:133-143 | on every safe trace each access to the page that came up as number i is printed with frame i mod 256 |
| DemandAddresses.OneFrameForEach | prj3/part1.c:133-143 | that is frame i itself when no two pages share their low byte |
| DemandAddresses.ValueIsOfSomePage | prj3/part1.c:138-146 | on every trace, safe or not, each value printed is the byte at the right offset of some page accessed so far |
| PagingAsWritten.AccessIsLookup | prj3/part2.c:168-229 | one access with the buffer gives the frame and the state, buffer aside, that the page table alone gives |
| PagingAsWritten.TlbIsTransparent | prj3/part2.c:158-235 | under both policies, for every trace and any clock, all frames are those without the buffer, and every entry agrees with the page table |
| PagingAsWritten.TlbRefinesList | prj3/part2.c:62-85 | the entries added are the misses of a first-in first-out list of sixteen pages, in order, and the hits are exactly its hits |
| PagingAsWritten.RunCounts | prj3/part2.c:188-227 | mapped pages are exactly those accessed, `page_faults` counts them, and `free_page` and `free_frame` follow from that number |
| PagingAsWritten.FramesAreFinal | prj3/part2.c:178-202 | a page is never unmapped or moved: each access went where the table points at the end |
| PagingAsWritten.FramesInOrderOfFirstAccess | prj3/part2.c:194-225 | `page_faults` is the number of distinct pages; under FIFO the k-th of them gets frame k mod 255, under the other policy the first 255 get frames 0 to 254 |
| PagingAsWritten.LruTakesLatestFrame | prj3/part2.c:207-215 | once 255 pages have come up, each new page gets a frame that was used at the latest clock reading, even when readings repeat |
| PagingAsWritten.LruTakesMostRecentFrame | prj3/part2.c:207-215 | so, when the clock had moved, the frame of the access just before it |
| PagingAsWritten.LastFrameIsNeverUsed | prj3/part2.c:195-223 | no access of any trace goes to frame 255, for any clock readings that are not negative |
| PagingAsWritten.OneToOneIffFew | prj3/part2.c:194-225 | distinct pages have distinct frames if and only if at most 255 pages have come up, under both policies |
| PagingAsWritten.Simulator.constructor | prj3/part2.c:136-155 | nothing mapped, buffer empty, all stamps zero, every part its own |
| PagingAsWritten.Simulator.FindLastRecentlyUsed | prj3/part2.c:87-97 | the first index of the largest stamp |
| PagingAsWritten.Simulator.PageFault | prj3/part2.c:188-227 | on the arrays, the frame and the state that the specification gives a page without one |
| PagingAsWritten.Simulator.Step | prj3/part2.c:158-232 | one turn of the loop has the frame and state of the specification, and reads 0 whatever the backing store holds |
| PagingAsWritten.Simulator.Translate | prj3/part2.c:158-235 | the physical addresses of a whole trace are those of the specification |
| PagingAsWritten.EventAt | prj3/part2.c:163-173 | the event of an address has its page and its clock reading |
| RepairedPaging.TouchKeepsResident | prj3/part2.c:168-229 | meant: every access keeps buffer, table and frames in agreement and is served by a frame that holds its page |
| RepairedPaging.TouchIsBuffered | prj3/part2.c:168-229 | meant: the page just accessed is in the buffer, and its frame alone is stamped |
| RepairedPaging.EveryAccessReadsItsByte | prj3/part2.c:168-232 | meant: for any number of frames, both policies and every trace, an access returns the byte of the store at its address |
| RepairedPaging.ResidentPagesHaveOwnFrames | prj3/part2.c:188-228 | meant: resident pages are mapped injectively, and the buffer lists resident pages only, with their frames |
| RepairedFifo.ResidentAreFaultedLast | prj3/part2.c:194-203 | meant: under FIFO the resident pages are exactly the k pages faulted last, and the fault counter counts all that were |
| RepairedFifo.VictimCameFirst | prj3/part2.c:194-203 | meant: in full memory the page that goes is the one that came first |
| RepairedFifo.LargerMemoryCanFaultMore | prj3/part2.c:194-203 | meant: on a trace of twelve accesses four frames fault ten times under FIFO and three frames nine times |
| RepairedLru.TopPromotes | prj3/part2.c:205-225 | meant: the k most recently used pages after an access depend only on the k before it |
| RepairedLru.VictimIsLast | prj3/part2.c:87-97 | meant: in full memory the smallest stamp is that of the page used longest ago |
| RepairedLru.TouchPromotes | prj3/part2.c:205-225 | meant: an access moves its page to the front, lets the last one go, and faults exactly when the page was not resident |
| RepairedLru.ResidentAreMostRecent | prj3/part2.c:205-225 | meant: after any trace the resident pages are exactly the k most recently used distinct ones |
| RepairedLru.LargerMemoryIncludes | prj3/part2.c:205-225 | meant: a larger memory holds all that a smaller one holds |
| RepairedLru.LargerMemoryFaultsLess | prj3/part2.c:205-225 | meant: so it never faults more often |
| ConfigModel.HashStepWraps | prj1/config.h:63-64 | shifting and adding in 64 bits, wrapping each time, is multiplication by 33 modulo 2^64 |
| ConfigModel.HashStr | prj1/config.h:58-67 | the loop computes the unbounded djb2 value, reduced once |
| ConfigKeys.HashOfNext | prj1/config.h:58-67 | the hash starts at 5381, and each character makes it 33 times as large plus the character, modulo 2^64 |
| ConfigKeys.SameEndTellsNothing | prj1/config.h:63-64 | a common end neither makes two strings collide nor tells them apart |
| ConfigKeys.OneCharacterTells | prj1/config.h:58-67 | two strings that differ in one character, anywhere, have different hashes |
| ConfigKeys.TwoCharactersTell | prj1/config.h:58-67 | two strings that differ in two neighbouring characters collide if and only if 33 times the first plus the second is the same |
| ConfigKeys.KeyTells | prj1/config.h:69-75 | the keys of two names of a type are equal if and only if the hashes of the names are; likewise for two types |
| ConfigKeys.KeyOfLetters | prj1/config.h:69-75 | the key of type `a` and name `b` is 355341 |
| ConfigKeys.GetAfterAdd | prj1/config.h:86-102 | after an add, a name of that type has the new value if its hash is the same, and what it had before if not |
| ConfigKeys.GetAfterRemove | prj1/config.h:278-302 | after a removal a name of that type is gone if its hash is the same, and has what it had before if not |
| ConfigKeys.TwoNames | prj1/config.h:86-102 | two adds of one type leave two elements, each answered with its own value, if and only if the hashes of the names differ; otherwise one element with the second's arguments |
| ConfigKeys.ListingAliases | prj1/config.h:86-102 | the aliases `ll` and `la` are both kept and both found |
| ConfigModel.AddRefines | prj1/config.h:86-102 | an add keeps hashes distinct and changes the map at the one key |
| ConfigModel.RemoveRefines | prj1/config.h:278-302 | a removal by name keeps hashes distinct and takes the one key out |
| ConfigModel.ListRefinesMap | prj1/config.h:86-102 | over every run of adds, look-ups and removals the list has distinct hashes, holds what the map holds and answers as it answers |
| ConfigModel.ExchangedNamesCollide | prj1/config.h:69-75 | type and name can be exchanged: the second element overwrites the first |
| ConfigText.LoadOfSave | prj1/config.h:131-149 | loading a saved list, into any list, adds its elements in order |
| ConfigText.LoadKeepsPlain | prj1/config.h:131-148 | whatever the file, what is loaded has non-empty fields without `:` and newline, and distinct hashes |
| ConfigText.SaveLoadsBack | prj1/config.h:202-204 | for every list: loading its saved text gives it back if and only if its fields are not empty and free of `:` and newline, its hashes are distinct, and each is the key of its element's type and name |
| ConfigText.ColonIsNotReadBack | prj1/config.h:139-148 | a name with `:` is added and saved, and read back cut short, with the rest of it as the value |
| ConfigFormat.FieldsAre | prj1/config.h:139-148 | the fields of a line are its first three non-empty texts between colons, whatever number of colons stands in front and between and whatever follows |
| ConfigFormat.FieldsAreNot | prj1/config.h:139-145 | with fewer than three there is no element |
| ConfigFormat.LoadReads | prj1/config.h:131-149 | an empty line is skipped, a line with its fields is an add whether or not a newline ends it, any other line fails |
| ConfigFormat.SaveWrites | prj1/config.h:202-204 | each element is written as type, `:`, name, `:`, value and newline, in order |
| ConfigReload.LoadIsAddAll | prj1/config.h:131-149 | loading any file adds what its lines say, in order, and fails exactly when a line has fewer than three fields |
| ConfigReload.LoadIffSettled | prj1/config.h:131-149 | loading any file into a list with distinct hashes, as every store has, leaves it as it is if and only if every line has three fields and finds an element to write to, and the last line for each element writes what is there |
| ConfigReload.ReloadIffSettled | prj1/seashell.c:46-47 | the same for the file saved from the list itself, whatever its fields |
| ConfigReload.ReloadChangesNothing | prj1/seashell.c:46-47 | that is so whenever fields survive the format and stored hashes are fresh |
| ConfigText.AddKeepsFresh | prj1/config.h:97-100 | an add keeps stored hashes fresh unless it overwrites an element of another type |
| ConfigText.RemoveKeepsFresh | prj1/config.h:278-302 | a removal keeps them fresh |
| ConfigText.ExchangeIsNotReadBack | prj1/config.h:97-100 | a list whose element was overwritten through an exchanged type and name is not read back |
| ConfigSweep.SweepKeepsOthers | prj1/config.h:253-277 | removing a type never loses an element of another type, nor changes their order |
| ConfigSweep.SweepIff | prj1/config.h:253-277 | it removes all elements of the type if and only if no two of them stand side by side behind an element of another type |
| ConfigSweep.OneTypeIsSwept | prj1/seashell.h:194 | a list of one type is emptied |
| ConfigSweep.NextIsMissed | prj1/config.h:253-277 | of an element of another type and two of the type, the last stays |
| ConfigStore.Node.constructor | prj1/config.h:77-84 | the hash is taken from type and name once, when the node is made |
| ConfigStore.HashElm | prj1/config.h:69-75 | the two hashes are computed character by character and added in 64 bits |
| ConfigStore.Store.Save | prj1/config.h:200-204 | the file is the text of the list, one line for each element |
| ConfigStore.Store.Seek | prj1/config.h:95-96 | the walk ends at the node with the hash, or at the last node when no other has it |
| ConfigStore.Store.Insert | prj1/config.h:89-100 | on the nodes: arguments overwritten in place, or one node appended, and nothing else |
| ConfigStore.Store.AddElm | prj1/config.h:86-102 | the same, and the file is the text of the new list |
| ConfigStore.Store.GetByName | prj1/config.h:234-242 | the value of the element with the key, none when there is none |
| ConfigStore.Store.UnlinkHead | prj1/config.h:283-294 | taking out the first node, the only one or not |
| ConfigStore.Store.UnlinkAfter | prj1/config.h:286-296 | taking out a node in the middle or the last one |
| ConfigStore.Store.RemoveByName | prj1/config.h:278-303 | the scan, which goes on after a removal, takes out exactly the element with the key, in every case, and saves |
| ConfigStore.Store.Unlink | prj1/config.h:256-273 | behind the first node: taken out if the predecessor is in the list, and nothing changed if that was taken out itself |
| ConfigStore.Store.RemoveType | prj1/config.h:249-303 | on the nodes, the scan without a name leaves exactly what `Sweep` says, and saves |
| ConfigStore.Store.LoadConfig | prj1/config.h:131-149 | every line is added in order while each add rewrites the file; the file is then the text of the list, or untouched when it had no line; failure exactly when a line has fewer than three fields |
| CommandLines.ParsedIsTidy | prj1/seashell.c:287-394 | whatever the line, no text in the result has a blank, and no name is empty |
| CommandLines.EveryStageHasFlags | prj1/seashell.c:298-301 | whatever the line, if it is parsed: every stage is in the background if the line ends in `&`, blanks aside, and none if it does not; likewise for `?` |
| CommandLines.AmpersandMarksEveryStage | prj1/seashell.c:300-301 | a trailing `&` puts every stage in the background |
| CommandWords.EveryLineIsLaid | prj1/seashell.c:291-326 | every line is words with gaps of spaces and tabs around them |
| CommandWords.ParseIsReadLine | prj1/seashell.c:291-394 | such a line is parsed to what its words mean |
| CommandWords.LayoutDoesNotMatter | prj1/seashell.c:291-326 | lines of the same words are parsed alike, whatever the gaps |
| CommandWords.ArgumentOf | prj1/seashell.c:385-389 | an argument in quotes or apostrophes, with something between them, is what is between; any other is itself |
| CommandWords.WordsMean | prj1/seashell.c:359-392 | whatever the order of the words before a pipe: arguments are collected in order, and of several `<`, `>` or `>>` files the last of each kind is taken |
| CommandWords.PipeSplits | prj1/seashell.c:346-357 | what stands before a `\|` belongs to the command there, what stands behind it is a command of its own |
| CommandWords.LongWordFails | prj1/seashell.c:322-333 | a word of 1024 characters or more, before any pipe, leaves no result |
| CommandWords.FirstAndLast | prj1/seashell.c:298-312 | the first word is the name; the last character of the line says whether the command runs in the background and whether it is to be completed |
| CommandPrinting.ParsePrinted | prj1/seashell.c:291-394 | what a printed pipeline is parsed to, with bare, quoted and apostrophed arguments and no blanks in its texts: its stages, except that quotes around nothing stay, a bare wrapped argument loses its wrapping, and an output file that starts with `>` is appended to; no result exactly when a token does not fit |
| CommandPrinting.ParseUndoesPrint | prj1/seashell.c:291-394 | for every pipeline: it is read back (names, arguments in each form, `<`, `>` and `>>` files, the chain behind each `\|`) if and only if names are non-empty, no text has a blank, every token fits, no argument is empty, no output file starts with `>`, and every bare argument can stand bare |
| CommandPrinting.PlainArgument | prj1/seashell.c:385-392 | `ls -la` has the one argument `-la` |
| CommandPrinting.QuotedBlankIsSplit | prj1/seashell.c:323-326 | `echo "a b"` becomes two arguments that keep one quote each |
| CommandBuffer.Line.Trim | prj1/seashell.c:291-296 | what stands between the new ends is the text without blanks at either end, and the buffer is changed only behind it |
| CommandBuffer.Line.StrTok | prj1/seashell.c:325-326 | the next token stands terminated at its place, the saved position is behind it, and one character at most has changed |
| CommandBuffer.Line.ParsePiped | prj1/seashell.c:346-357 | restoring the separator, parsing the rest in place and cutting again gives the command that the rest stands for |
| CommandBuffer.Line.ParseTokens | prj1/seashell.c:323-394 | the loop over one shared `strtok` state gives what the rest of the line stands for, though nested calls cut the same buffer |
| CommandBuffer.Line.ParseCommand | prj1/seashell.c:274-396 | parsing in place gives the command that the text stood for before it was cut, and changes nothing outside it |

## Left out

- Deadlock freedom of the debate: not true of the code. When the moderator can go on is settled exactly; when each commentator can is not.
- That the moderator does go on: the results say that some continuation takes it on, which is not fairness.
- Separation of rounds: not true of the code with two commentators and two questions, as `DebateWitnesses.RoundsAreSeparateIff` shows.
- Update in place in prj2/main.c: the threads' shared globals are fields of a state value, because each step of an interleaving is a function of the state; the queue itself is also modelled in place.
- Threads that read the queue's fields without its lock (`front` and `end` behind their check): modelled for sequential use only.
- `Simulator` of the repaired models: they are values, since there is no code to follow.
- Lengths beyond 2^31 of a trace, where `tlbindex` would overflow: the index is unbounded.
- The write one past the end of `physicalPageCount` at prj3/part2.c:141-143: the array has its 256 members.
- Counting and printing of totals, and the hit and fault rates in floating point.
- Sleeping, random numbers, wall-clock time and logging.
- Opening and mapping files, `fgets`, `atoi`, `fcntl` locks and `stat` checks; the end of the process when they fail.
- `get_conf` with a null name, which collects a type in an array of fixed size.
- Allocation and freeing of memory, and the leaked argument arrays of `add_conf_elm`.
- CommandBuffer.Line.ParseCommand: the command is built as a value rather than filled in place; where C leaves the outcome undefined (no first token, a token that does not fit 1024 bytes, a `|` with nothing behind it) the result is None.
- Merge-conflict markers in prj1/seashell.c: both sides have the same `parse_command`, which is what is modelled.
- The prompt, `process_command`, search of the path, and the built-in commands of the shell.
- The programs of hw1 and hw2.
