# NetProgServ4 verification model

A Dafny model of the concurrent file service and the shell server of NetProgServ4, with proofs of what they
guarantee.  It covers three connected parts.

**The reader/writer lock and its clients.**  `LockProtocol.dfy` has the lock of `readerWriter.cpp` as micro-steps
of any number of threads over any number of locks: a mutex, a condition variable and a reader counter per lock,
with `pthread_cond_wait` releasing and parking in one step, `pthread_cond_signal` unblocking at least one parked
thread, and spurious wake-ups (entries `pthread_cond_wait` and `pthread_cond_signal` in section 3 of the System
Interfaces volume of IEEE Std 1003.1-2017).  `LockSafety.dfy` proves the inductive invariant, `LockTheorems.dfy` the
whole-run safety results, `LockLiveness.dfy` termination and deadlock freedom.  `ReaderWriter.dfy` is the class itself;
its methods are proved to perform exactly these micro-steps.  `FileClients.dfy` has the lock calls of the public
file operations, including the supervisor's lock taken inside an accessor's lock, and the service they make up;
`LeakExactness.dfy` says exactly for which clients that service completes with the FAIL path and the double lock as
written.  Clients are threads that open and close sections in bracketed order; liveness also needs the lock order,
which the operations respect up to a double lock.

**The replicated read.**  `Vote.dfy` states the status quorum and the bytewise plurality vote of
`SyncFileAccessor::read_w` without its loops and proves what the vote guarantees; `SyncRead.dfy` has the loops and
proves that they compute it, together with the lock calls and the repair request of each path; `Agreement.dfy`
puts them together with the peers' replies and with the lock.

**The registry, the message text and the stream loops.**  `Registry.dfy` (supervisor, accessors, descriptors),
`DescriptorTable.dfy` (what any sequence of lookups, opens and closes does to names and descriptors),
`SplitCalls.dfy` (the two registry calls whose test and effect are separate lock sections, in any interleaving),
`MessageText.dfy` (text form of messages), `Streams.dfy` and `LineReader.dfy` (`readline`), `Shell.dfy` (`split`,
`receive_full_message`, the session).  `Messages.dfy` and `Options.dfy` are shared.

## Where the code leaves its evident intent

Each of these is modelled in both forms where the difference has consequences worth proving; a parameter selects one.

- The FAIL path of `SyncFileAccessor::read_w` returns without releasing its read section
  (`SyncFileAccessor.cpp:113-117`): `Variant.releaseOnFail`.  As written the property "every run completes" is false;
  `LeakExactness.RunIntoConflict` builds a run that does not complete, `LeakExactness.ServiceCompletesExactly` gives the
  exact condition on the clients' calls, `LockTheorems.FinishedFailStopsWriters` says what a refused read does to the
  other clients, and `LockTheorems.ReaderConservation` counts the leaked reads.
- `setFileDescriptor` calls a function that takes the lock it already holds (`FileSupervisor.cpp:35-36`):
  `Variant.lookupUnlocked`.  As written a client with an open that registers a descriptor never finishes, wherever
  that open is among its calls (`FileClients.OpenAsWrittenNeverReturns`), and
  `LeakExactness.AsWrittenCompletesExactly` is the exact condition for the service with both places as written.
  `LeakExactness.SomeOpenBlocks` and `FileClients.BlockedOpenStopsService` say what one such open does to the other
  clients.  A default mutex locked again by its owner is taken to block for ever.
- `readSyncClient` overwrites its OK reply with SYNC_FAIL (`SyncFileAccessor.cpp:207-209`): `Agreement.PeerReply`.
  `Agreement.RepliesAsWritten` says exactly when a read still succeeds.
- `CHECKOPEN` tests the function `open`, not the field (`FileAccesser.cpp:13-15`, `SyncFileAccessor.cpp:11-13`), and a
  failed open is tested with `< -1` (`FileAccesser.cpp:67`): the parameters `guarded` and `strict`.
  `Registry.BalanceAsWritten` and the last `ensures` of `IOpen` and `RwClose` say exactly when the code still does the
  right thing; `Registry.UnbalancedAsWritten`, `Registry.CloseTwice` and `Registry.OpenRefused` are inputs where it
  does not.
- An entry of the descriptor index is never removed (`FileSupervisor.cpp:34-48`), so a close of a descriptor that no
  file holds can close a file that was opened again on another one (`DescriptorTable.StaleClose`).
  `DescriptorTable.UnheldClose` and `DescriptorTable.SafeExactlyWhenSole` say exactly when that cannot happen.
- `rw_close` tests before it takes the write lock (`FileAccesser.cpp:25-26`), and `getSyncFileAccessorStr` adds a
  missing accessor after it has given up its read lock (`FileSupervisor.cpp:22-29`).  `SplitCalls` says exactly when
  calls that come in between do harm, the tests themselves being as intended.
- `toCString` drops the concatenated parts (`Server.cpp:118-119`): `MessageText.CString`, `MessageText.TruncatedCString`.
- `.at(k) = v` is used where an insertion is meant (`FileSupervisor.cpp:36`, `FileSupervisor.cpp:52`).  Only the
  insertion is modelled: as written every insertion under a new key throws and the maps stay empty.

## Model

| member | source | states |
|---|---|---|
| ReaderWriter.ReaderWriter.RwlockStartRead | readerWriter.cpp:22-28 | the three statements are the three micro-steps of a read entry, one reader more and the mutex free again; with the mutex taken the call blocks and changes nothing |
| ReaderWriter.ReaderWriter.RwlockEndRead | readerWriter.cpp:30-37 | the statements are the micro-steps of a read exit, one reader less, with a signal exactly when none is left; with the mutex taken the call blocks and changes nothing |
| ReaderWriter.ReaderWriter.RwlockStartWrite | readerWriter.cpp:39-44 | blocks on a taken mutex and changes nothing; otherwise enters with the mutex kept exactly when no reader is in, and else parks with the mutex released |
| ReaderWriter.ReaderWriter.RwlockEndWrite | readerWriter.cpp:46-49 | signal and unlock as two micro-steps; the mutex is free afterwards and the counter unchanged |
| ReaderWriter.ReaderWriter.constructor | readerWriter.cpp:7-14 | a new lock is free, with no readers |
| ReaderWriter.ReaderWriter.Copy | readerWriter.cpp:16-20 | a copy shares mutex, condition variable and counter with its original |
| LockSafety.StepKeepsInv | readerWriter.cpp:22-49 | every micro-step of any bracketed clients keeps mutex ownership, the counter as a sum, what holders know about it, and that no wake-up is lost |
| LockSafety.RunKeepsInv | readerWriter.cpp:22-49 | the same over every run, spurious wake-ups included |
| LockTheorems.NoLostWakeUp | readerWriter.cpp:30-49 | in every reachable state with a parked writer a reader is in, or some thread is in the write section, about to enter it, or about to signal |
| LockTheorems.WakeUps | readerWriter.cpp:34-47 | a parked thread may wake without a signal, a signal may wake any parked threads but not none, and all of them have to take the mutex again |
| LockTheorems.MutualExclusion | readerWriter.cpp:22-49 | in every reachable state a thread in a write section is the only thread in any section of that lock, and the counter is zero |
| LockTheorems.ReaderConservation | SyncFileAccessor.cpp:95-149 | in every reachable state the counter is the sum of the nesting depths plus the number of FAIL returns, which is what the programs have used up |
| LockTheorems.NoFailsNoLeak | SyncFileAccessor.cpp:113-148 | when no read leaves through FAIL unreleased, nothing is ever leaked |
| LockTheorems.LeakStopsWriters | SyncFileAccessor.cpp:113-117 | after one leaked read no write section of that lock is entered again, and a thread that has to enter one never finishes |
| LockTheorems.FinishedFailStopsWriters | SyncFileAccessor.cpp:113-117 | once a thread with a FAIL return is done, no thread is in a write section of that lock again, and threads that have to enter one never finish |
| LockTheorems.SelfDeadlock | FileSupervisor.cpp:34-38 | a thread that asks for a lock it holds in a write section never moves again, no other thread ever gets that lock or another one it is writing, and every thread that still has to take one of them never finishes |
| LockLiveness.RunsAreFinite | readerWriter.cpp:30-49 | a run is no longer than a budget fixed by its first state plus four steps per spurious wake-up |
| LockLiveness.RelockingNeverFinishes | FileSupervisor.cpp:34-38 | in any run, a thread whose program comes to a lock call inside its own write section of that lock never finishes, and only such a thread is ever blocked by its own section |
| LockLiveness.QuietStates | readerWriter.cpp:22-49 | for clients that respect the lock order, a final state is unfinished exactly if a thread is parked on a leaked lock or blocked by its own write section |
| LockLiveness.RunsComplete | readerWriter.cpp:22-49 | without FAIL returns and double locks every run that cannot go on has finished all threads |
| LockLiveness.DeadlockFreedom | readerWriter.cpp:22-49 | without FAIL returns and double locks an unfinished reachable state always has a step that is not a spurious wake-up |
| LeakExactness.RunIntoConflict | SyncFileAccessor.cpp:113-117 | whenever a write can come after a FAIL return from the same lock, some run ends with a thread that never finishes |
| LeakExactness.CompletesExactlyWithoutHazard | SyncFileAccessor.cpp:113-117 | with FAIL returns and double locks as written, ordered clients finish in every maximal run exactly if no such pair exists and no thread locks twice |
| LeakExactness.ServiceCompletesExactly | SyncFileAccessor.cpp:113-149 | the same for the service in all four variants, as a condition on the clients' calls: reads are released, or no open, close, write or seek comes after a refused replicated read of the same lock, by another client or later by the same one; and the lookup does not lock again, or no client makes an open that registers |
| LeakExactness.AsWrittenCompletesExactly | FileSupervisor.cpp:34-38 | the service as written completes in every maximal run exactly if there is no such pair of calls and no open that registers |
| LeakExactness.SomeOpenBlocks | FileSupervisor.cpp:34-38 | with the double lock as written and an open among the calls, every maximal run that no leak stops ends with a client blocked inside its own open, holding the supervisor's lock |
| FileClients.ProgramOk | FileAccesser.cpp:17-54 | any sequence of file and supervisor calls is a bracketed client and respects the lock order, at least up to a double lock |
| FileClients.CallLocks | FileAccesser.cpp:17-54 | exactly how often each call takes and gives back each lock: the accessor's to write or read, twice for a replicated read with its local one, the supervisor's to look up, to insert and to register, and the FAIL return of a refused read |
| FileClients.CallNesting | FileSupervisor.cpp:21-54 | the supervisor's lock is taken inside the accessor's write section in an open, and the local read inside the replicated one; every other lock is taken outside all sections |
| FileClients.ProgramRelocks | FileSupervisor.cpp:34-38 | a client locks twice exactly if, as written, one of its calls is an open that registers, and the lock is the supervisor's |
| FileClients.ServiceNeverDeadlocks | FileSupervisor.cpp:21-54 | the intended service with accessor locks and the supervisor's lock inside them never deadlocks, for any clients and calls |
| FileClients.ServiceCompletes | FileSupervisor.cpp:57-84 | every maximal run of the intended service finishes all calls, within the budget |
| FileClients.CopiesExclude | readerWriter.cpp:16-20 | after any sequence of copies and copies of copies, two accessors have the same lock exactly if they stem from the same original, and then their sections exclude each other |
| FileClients.OpenAsWrittenNeverReturns | FileSupervisor.cpp:34-38 | as written, a client with an open that gets a descriptor, anywhere among its calls, never finishes, in any run with any other clients |
| FileClients.BlockedOpenStopsService | FileSupervisor.cpp:34-38 | once a client is blocked in its own open, no other client gets the supervisor's lock or a lock that the first is writing, and one that still has to take such a lock never finishes |
| SyncRead.IRead | FileAccesser.cpp:102-111 | OK with the data read, its number, and NUL up to the request or 1024 bytes; FAIL with errno and its text exactly if the read fails |
| SyncRead.FileReadW | FileAccesser.cpp:40-46 | OK exactly when the test passes and the read succeeds, and then the data read with its number; ERR exactly when the call makes no lock calls; the lock calls otherwise |
| SyncRead.Survey | SyncFileAccessor.cpp:101-111 | the first loop counts the good and the failed replies and finds the longest text |
| SyncRead.CountAt | SyncFileAccessor.cpp:121-129 | the counter array holds the votes for each byte at an index |
| SyncRead.MostCommon | SyncFileAccessor.cpp:131-139 | the argmax loop finds the smallest byte with the most votes |
| SyncRead.SyncReadW | SyncFileAccessor.cpp:95-150 | the loops return exactly the declared answer: OK unless refused, with the merged text and the number of its bytes, else FAIL with the number asked for; with the lock calls of each path and a repair that carries the local reply |
| Vote.MergeUnique | SyncFileAccessor.cpp:118-149 | the declarative vote has exactly one outcome |
| Vote.PointwiseFaultTolerance | SyncFileAccessor.cpp:118-147 | a NUL-free text of the longest length that leads at every index is the outcome |
| Vote.NoReplyIsRight | SyncFileAccessor.cpp:118-147 | three or more replies, as many as bytes, each wrong in its own byte, merge to a text that none of them carries |
| Vote.TieGoesToSmaller | SyncFileAccessor.cpp:131-139 | a tie goes to the smaller byte: two NUL-free replies of one length merge to their bytewise minimum |
| Vote.OrderIndependence | SyncFileAccessor.cpp:98-149 | the answer depends only on the multiset of replies and the request size |
| Vote.MajorityPrefix | SyncFileAccessor.cpp:106-147 | a strict majority text is a prefix of the outcome, and the outcome exactly when no reply is longer |
| Vote.OkQuorum | SyncFileAccessor.cpp:103-117 | OK exactly when at least half of the replies with data are OK; a good answer carries the number of its bytes, a refusal the number asked for |
| Vote.CrashTolerance | SyncFileAccessor.cpp:180-205 | replies with empty data never change the merged bytes |
| Agreement.ReplicasAgree | SyncFileAccessor.cpp:194-207 | when all answering replicas hold the same NUL-free text the read returns it and its length, with one NUL and one more when it does not fill the request, unless the silent peers win the quorum |
| Agreement.RepliesAsWritten | SyncFileAccessor.cpp:206-210 | as written, a read succeeds exactly with at most one peer and a good local read, and returns the local text through its first NUL with the number of its bytes; otherwise it is the refusal |
| Agreement.ReadSyncClient | SyncFileAccessor.cpp:177-210 | OK with the number received and the buffer as a C string if connecting, sending and receiving succeed, else SYNC_FAIL; always SYNC_FAIL as written |
| Agreement.RefusedReadFails | SyncFileAccessor.cpp:113-117 | as written, a refused replicated read anywhere among a client's calls makes its program leave a read section without releasing it |
| Registry.BalanceAsMeant | FileAccesser.cpp:60-90 | over every sequence of opens and closes, opened means one owner, and opens minus closes equals owners |
| Registry.BalanceAsWritten | FileAccesser.cpp:60-90 | as written, the balance is off by the number of closes while not open and refused opens, so it holds exactly when there were none |
| Registry.UnbalancedAsWritten | FileAccesser.cpp:60-90 | as written, one close without an open, and one refused open, each leave a new accessor unbalanced |
| Registry.CloseTwice | FileAccesser.cpp:24-30 | as written, opening and closing a file, opening another one on the same descriptor and closing the first again leaves the second open on a closed descriptor |
| Registry.OpenRefused | FileAccesser.cpp:65-72 | as written, a refused open leaves the registered accessor marked open without a descriptor |
| Registry.FileAccessor.IOpen | FileAccesser.cpp:60-75 | the new owner state, registered descriptor and reply; agreement is kept exactly if the accessor was open before, the failure test is the intended one, the system gave a descriptor, or the accessor is not registered |
| Registry.FileAccessor.RwOpen | FileAccesser.cpp:17-22 | the open with its lock calls, the supervisor's inside the accessor's, and exactly when it keeps agreement |
| Registry.FileAccessor.IClose | FileAccesser.cpp:77-90 | the owner and descriptor state after a close; agreement is lost exactly when another accessor held the descriptor |
| Registry.FileAccessor.RwClose | FileAccesser.cpp:24-30 | the guarded close with its lock calls, and exactly when it keeps agreement |
| Registry.FileSupervisor.GetSyncFileAccessorStr | FileSupervisor.cpp:21-32 | the registered accessor of a name, or a new one that is then registered |
| Registry.FileSupervisor.SetFileDescriptor | FileSupervisor.cpp:34-38 | maps a descriptor to the accessor registered for the name, and nothing else |
| Registry.FileSupervisor.AddFileAccessor | FileSupervisor.cpp:50-54 | registers a new accessor under the name |
| Registry.FileSupervisor.GetSyncFileAccessorInt | FileSupervisor.cpp:40-48 | the entry for the descriptor exactly if there is one; it is the accessor that holds the descriptor open whenever there is one, and otherwise does not hold it |
| Registry.ServeAll | FileSupervisor.cpp:21-54 | any sequence of lookups, opens and closes has exactly the effect of DescriptorTable.Served on names, descriptors and index, and keeps both indexes in agreement with the open descriptors |
| DescriptorTable.OpenEffect | FileAccesser.cpp:60-75 | an open takes the descriptor exactly if the file is closed and the descriptor free; a refused open changes no descriptor, and no open changes another file |
| DescriptorTable.CloseEffect | FileAccesser.cpp:77-90 | a close of a held descriptor frees it, closes its file and changes no other file |
| DescriptorTable.UnheldClose | FileSupervisor.cpp:40-48 | a close of a descriptor that no file holds changes nothing exactly if the file last opened on it is not open; otherwise it closes that file's other descriptor |
| DescriptorTable.StaleClose | FileSupervisor.cpp:40-48 | a file opened, closed and opened again on another descriptor is closed by a close of its first one |
| DescriptorTable.RegisteredNames | FileSupervisor.cpp:21-32 | after any requests a name is registered exactly if it was before or is looked up or opened |
| DescriptorTable.DescriptorsConserved | FileAccesser.cpp:60-90 | after any requests the open descriptors are exactly those that files hold |
| DescriptorTable.OpenLasts | FileAccesser.cpp:60-75 | after an open on a free descriptor, anywhere in any requests, the file holds it exactly until a close gets to the file, which on its first open is exactly until its descriptor is closed |
| DescriptorTable.SafeExactlyWhenSole | FileSupervisor.cpp:34-48 | closes of other descriptors never end a file's hold exactly if the index leads to the file from no other descriptor |
| DescriptorTable.CloseLasts | FileAccesser.cpp:77-90 | after a close of a held descriptor, anywhere in any requests, the descriptor is free exactly until an open is answered with it, and the file closed exactly until it is opened again |
| SplitCalls.TestThenClose | FileAccesser.cpp:24-30 | test and section done at once are the guarded close of the registry |
| SplitCalls.DoubleCloses | FileAccesser.cpp:24-30 | with test and section of a close apart, in any schedule, the accessor is out of balance by the number of sections that find it closed, and balanced exactly if there is none |
| SplitCalls.BalancedExactlyWithoutOverlap | FileAccesser.cpp:24-30 | balance holds wherever the pending closes are done exactly if no close passes its test while another one that passed is pending |
| SplitCalls.NoOverlapNoLateSections | FileAccesser.cpp:24-30 | without such an overlap no close section ever finds the accessor closed |
| SplitCalls.OverlapMayBalance | FileAccesser.cpp:17-30 | one schedule with an overlap can still end in balance, when an open comes between the two sections |
| SplitCalls.ProbeThenInsert | FileSupervisor.cpp:21-32 | probe and insertion done at once are the lookup of the registry: a new accessor exactly if the name had none |
| SplitCalls.OneAccessorPerName | FileSupervisor.cpp:21-32 | with test and insertion apart, in any interleaving, the accessor of a name is never replaced exactly if no two misses of that name overlap |
| MessageText.GetMessageSize | Server.cpp:39-57 | one more than the length of the text; zero for a message without data |
| MessageText.DecodeText | Server.cpp:113-124 | every message is read back from its text by a reader that knows only the ASCII codes: the status name, a space, the decimal code, a space, the data |
| MessageText.TextInjective | Server.cpp:17-57 | the text determines status, signed code and data |
| MessageText.ToStringUnique | Server.cpp:50-50 | the code is written as its decimal numeral without leading zeros, with a minus exactly if it is negative |
| MessageText.CompleteCString | Server.cpp:113-124 | as intended, the C string is the whole text exactly if the data is NUL-free |
| MessageText.TruncatedCString | Server.cpp:117-122 | as written the peer gets the status name alone, and two messages have the same C string exactly if their status is the same |
| MessageText.UnframeWrite | SyncFileAccessor.cpp:229-246 | a SYNC_WRITE text determines the file name and the payload, which is all of the data exactly if that is NUL-free |
| LineReader.Readline | tcp-utils.cpp:141-165 | what is consumed, returned and written for every stream: a line and its NULs within the buffer, end of stream, or a failed read |
| LineReader.StreamConservation | tcp-utils.h:123-134 | repeated error-free calls with max at least 3 deliver the stream in order without its CR and LF |
| LineReader.LineShape | tcp-utils.h:123-134 | no delivered line contains a line end or exceeds max - 2 bytes |
| LineReader.NoRoomNoProgress | tcp-utils.cpp:145-145 | with max 2 nothing is ever consumed |
| Shell.Split | ShellServ.cpp:22-72 | overwrites exactly the spaces of the command with NUL and records the start of each word and a null entry; two slots more than spaces are enough, so the 100 slots of `exec` serve 98 spaces |
| Shell.SplitYieldsWords | ShellServ.cpp:22-37 | the C string at each recorded start is the word, in order |
| Shell.JoinWords | ShellServ.cpp:22-37 | the words joined with single spaces give back the command |
| Shell.WordsHaveNoSpace | ShellServ.cpp:25-34 | no word contains a space |
| Shell.ReceiveFullMessage | ShellServ.cpp:39-62 | the next segment up to CR, LF or a failed recv, or "closed" at the end of the stream, and what is left |
| Shell.SegmentsAreLines | ShellServ.cpp:39-62 | the segments of a stream are exactly the lines sent; an unfinished line is dropped |
| Shell.Start | ShellServ.cpp:131-183 | for every stream, the commands run and the replies sent are those of the requests before "closed" or the end |
| Shell.UntilSpec | ShellServ.cpp:140-144 | the requests are the segments before the first occurrence of the word "closed", or all of them |
| Shell.CommandsAreRequests | ShellServ.cpp:146-181 | after any number of requests, the commands run are as a multiset the requests other than CPRINT |
| Shell.CommandsInOrder | ShellServ.cpp:146-181 | the commands of two sequences of requests one after the other are those of the first, then those of the second, and one request gives itself or nothing |
| Shell.PrintAfterCommand | ShellServ.cpp:150-165 | CPRINT is answered from the result of the latest command before it |
| Shell.PrintWithoutCommand | ShellServ.cpp:148-149 | CPRINT is answered by the no-command error exactly if no command came before |
| Shell.CommandAnswered | ShellServ.cpp:166-181 | every request but CPRINT is answered by running its own text, as the execution numbered by the commands before it, and CPRINT never is |
| Shell.CommandReplyReads | ShellServ.cpp:171-179 | the reply to a command starts with OK, ERR or FAIL exactly if its status is 0, -1 or any other; status and message can be read back from it |
| Shell.PrintReplyReads | ShellServ.cpp:150-165 | the reply to CPRINT is the output and the success line for status 0, and otherwise FAIL with the status and the output, which can be read back |
| Shell.ControlWords | ShellServ.cpp:142-146 | the words compared with are "closed" and "CPRINT" |
| Shell.ErrorIsRecognisable | ShellServ.cpp:148-149 | the no-command error is the 27 bytes with the NUL, and differs from every answer to a command or a CPRINT |

## Left out

- Sockets, poll, connect, bind, `recv_nonblock`, `non_blocking_send`, `Server::start` and `acceptSock`: plumbing over the operating system; their results are parameters.
- `fork`, `peerFork` and `waitPeers`: the parent never sees what its child processes write, so the replies of the peers are an arbitrary sequence.
- Receivers of SYNC messages: the repository has none, so nothing is said about replicas after a repair.
- The body of `exec` after `split`: a function of the number of commands run and the command, giving a message and a status.
- File contents behind `read`, `write` and `lseek`, and the bodies of `i_write` and `i_seek`: of `write_w` and `seek_w` only the lock calls are modelled.
- `shell_part.cpp`, `main.cpp`, `SyncServ`, `FileServ` and `Worker`: not in the build, unfinished, or setup only.
- Exceptions: a negative read size makes the buffer resize throw; sizes are natural numbers here.
- The width of `int`: the reader counter, the reply counters and message codes are unbounded, so an overflow after 2^31 leaked reads is not modelled.
- Memory accesses that the source makes outside its locks (the `at` lookups in FileSupervisor.cpp:25, FileSupervisor.cpp:31 and FileSupervisor.cpp:44): supervisor calls are atomic in the registry.
- Registry.FileAccessor.RwClose: makes test and section one step, where the source tests before it takes the lock; SplitCalls has them apart.  It speaks of registered accessors only, because a copy that opened a file is not in the registry and its descriptor is not tracked there.
- Registry.BalanceAsMeant: makes test and section of a close one step; with the two apart balance holds as SplitCalls.BalancedExactlyWithoutOverlap says.
- Registry.FileSupervisor.GetSyncFileAccessorStr: makes test and insertion one step, where the source uses two lock sections; SplitCalls.OneAccessorPerName has them apart.
- SyncRead.SyncReadW: does not say what happens when the vote looks into a reply without data, because the source dereferences an empty optional there.
- LineReader.Readline: requires max to be at least 2, because the source's unsigned max - 2 wraps around below that and the buffer has no usable bound.
- Shell.Split: requires the command to be NUL-terminated and argv to have room for the words and the null entry, because the source writes past them otherwise.
