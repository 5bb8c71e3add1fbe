# ig-libs, verified

A Dafny model of the parts of the `ig-libs` C++ backend libraries that keep state or compute
something delicate, with proofs of what they promise. `dafny verify dfyconfig.toml` checks all
of it.

The centre is the lock-free queue between one producer thread and one consumer thread. It is
modelled twice. `RingBuffers` and `SharedQueues` are the classes, with the source's own fields: a
byte array, two 64-bit indices that run freely and wrap, and a notification pipe; two ghost
counters that never wrap say what the fields stand for. `Spsc` and `Wakeup` are the same code as a
machine of small steps (sample the other side's index, copy one byte, publish the own index,
notify, clear), run in every interleaving of the two threads. `Bits` has the arithmetic both rest
on: bitwise "and" is defined digit by digit, so masking, `n & (n - 1)` and the leading-zero count
are handled by induction for words of any value.

The other modules are one each for the remaining components with behaviour over whole runs: the
send and receive loops (`TcpClients`), round robin over connections (`TcpClientMgrs`), periodic
timers (`Timers`), configuration files with includes (`Configs`), string scanners (`StringUtils`),
log rotation (`Loggers`) and the handler table (`ProtoDispatchers`). Where the source updates
fields or a buffer in place, a class does the same and each method is proved equal to a function
on values; the theorems are about runs of those functions.

What the kernel, the allocator, the clock, a callback or the file system answers is a parameter: a
script, a boolean, a function or a map. The theorems hold for all of them.

## What the code does that its comments do not say

The model follows the code. Where its documentation, or a natural reading of it, says otherwise,
a lemma shows the difference, and where the code meets the promise only under a condition, the
condition is proved to be exact.

- `utils.h` says `roundup_pow_of_two` rounds up. It rounds down (`RoundupRoundsDown`,
  `RoundupIsNotUp`), so a queue asked for 5 bytes has 4.
- `TcpClient::send` promises the length on success, zero on a timeout and -1 on a failure. The
  result is an `int`. For an open connection and any answers of the kernel, the length means
  success exactly if the message is shorter than 2^31 bytes (`CodeIsLengthIff`); zero means a
  timeout exactly if its length is not a multiple of 2^32 (`TimeoutCodeIff`); and -1 means a
  failure exactly if its length is not one less than such a multiple (`ErrorCodeIff`).
- `TcpClient::recv` can time out after taking bytes from the stream, with the socket left open;
  `send` closes the socket in that situation. A timeout is sure to have taken nothing if and only
  if one byte is asked for (`RecvTimeoutTookNothingIff`, with `RecvTimeoutLosesBytes` as the
  counterexample for every other length).
- The round-robin cursor is 32 bits wide and is reduced modulo the connection count. A selection
  finds a live connection whichever one is alive if and only if the cursor does not wrap during it
  or the count divides 2^32 (`FindsLiveIff`, with `WrapLosesConnection` as an instance). Selections
  are spread evenly, whatever the cursor and however long the run, if and only if the count divides
  2^32 (`FairIff`); otherwise each wrap of the cursor can make the difference larger by one
  (`FairUpToWraps`).
- For frames of one size, and callers that notify on every write and clear on every read, a
  wake-up is never lost if and only if the pipe holds more bytes than the ring holds frames
  (`WakeupThreshold`). Nothing in `SharedQueue` checks this.
- Archive names have a resolution of one second. With limit k, the logs keep what they promise
  after every call if and only if no two of any k consecutive rotations fall in the same second
  (`Retention`); otherwise a listed archive is replaced and its name listed twice
  (`SameSecondOverwrites`).
- `log_base.h` describes the limit as the most log files kept, the oldest being deleted beyond it.
  Each rotation deletes at most one archive and adds one, so a list within the limit stays within
  it and one that is longer, because the limit has been lowered, never gets shorter
  (`RotatedLength`, `LengthOverRun`).
- A limit of zero means no limit: an archive made then is entered on no list (`TurnTidyIff`), and
  unless its name is used again it is never deleted, whatever the limit is set to later
  (`UnlistedStays`). With any other limits, no archive that is not listed is on disk
  (`DiskBounded`).

## Model

| member | source | states |
|---|---|---|
| `Bits.IsPowerOf2Correct` | utils.h:31-38 | the test by `n & (n - 1)` holds exactly on the values 2^k, for every natural number |
| `Bits.MaskIsMod` | ring_buffer.cpp:71-72 | masking with a power of two less one is reduction modulo that power |
| `Bits.MaskedIndex` | ring_buffer.cpp:71-72 | a masked index that has wrapped at 2^64 any number of times is the unbounded counter modulo the size |
| `Bits.ClzBrackets` | utils.h:53-59 | the leading-zero count brackets the value between two consecutive powers of two |
| `Bits.RoundupRoundsDown` | utils.h:40-60 | the result is the power of two p with p <= n < 2p, and equals n exactly when n is a power of two |
| `Bits.RoundupIsNotUp` | utils.h:40-47 | an input for which the comment's "up" is false |
| `RingBuffers.HeldAmount` | ring_buffer.h:38-41 | the word subtraction of the wrapped indices is the exact number of bytes held, however long the run |
| `RingBuffers.FreeAmount` | ring_buffer.cpp:62 | both ways of computing the free space in wrapping words give the exact amount |
| `RingBuffers.WriteKeepsWindow` | ring_buffer.cpp:70-75 | a two-piece copy at any offset puts the data behind the bytes held and leaves every byte held as it was |
| `RingBuffers.ReadDelivers` | ring_buffer.cpp:101-106 | a two-piece copy out from any offset delivers the oldest bytes in order |
| `RingBuffers.AfterWrite` | ring_buffer.cpp:58-86 | copying and then bumping the wrapping index keeps the correspondence with the unbounded history, extended by the data |
| `RingBuffers.AfterRead` | ring_buffer.cpp:88-106 | the cells a read copies hold the front of the unbounded history |
| `RingBuffers.AdvanceRead` | ring_buffer.cpp:112-116 | bumping the wrapping read index keeps the correspondence, past 2^64 bytes as well |
| `RingBuffers.Scatter` | ring_buffer.cpp:70-75 | the two copies on the array in place have the effect of the two-piece function |
| `RingBuffers.Collect` | ring_buffer.cpp:101-106 | the two copies out of the array fill the caller's buffer and leave its rest alone |
| `RingBuffers.RingBuffer.Alloc` | ring_buffer.cpp:15-45 | every nonzero size yields an empty ring of the power of two just at or below it; size zero changes nothing; a refused allocation leaves no buffer |
| `RingBuffers.RingBuffer.Free` | ring_buffer.cpp:47-56 | indices reset, buffer gone, size and sharing flag kept |
| `RingBuffers.RingBuffer.SetShared` | ring_buffer.h:48-53 | the flag changes only while nothing is allocated |
| `RingBuffers.RingBuffer.ReadableSize` | ring_buffer.h:38-41 | the number of bytes in the FIFO |
| `RingBuffers.RingBuffer.Write` | ring_buffer.cpp:58-86 | appends exactly the first min(len, free) bytes to the FIFO and keeps the rest |
| `RingBuffers.RingBuffer.Read` | ring_buffer.cpp:88-117 | removes and delivers exactly the first min(len, held) bytes and keeps the rest |
| `Spsc.StepsMakeTwoPieces` | ring_buffer.cpp:70-75 | copying byte by byte in any order does what the two `memcpy` calls do, in and out |
| `Spsc.ProducerStable` | ring_buffer.cpp:62-68 | the consumer's steps cannot spoil what the producer has sampled or filled |
| `Spsc.ConsumerStable` | ring_buffer.cpp:92-99 | the producer's steps cannot spoil what the consumer has sampled or drained |
| `Spsc.CopyInKeeps` | ring_buffer.cpp:70-75 | filling one cell touches neither a byte held nor a byte already filled |
| `Spsc.PublishInKeeps` | ring_buffer.cpp:77-83 | publishing extends the history by exactly the bytes filled, under the consumer's interference |
| `Spsc.PublishOutKeeps` | ring_buffer.cpp:108-114 | the bytes drained one at a time are the next bytes of the history |
| `Spsc.StepKeeps` | ring_buffer.cpp:58-117 | every step of either thread keeps the inductive invariant |
| `Spsc.DeliveredIsPrefix` | ring_buffer.cpp:58-117 | in every interleaving the bytes delivered are a prefix of those published, at most a buffer behind, and no access strays outside the buffer |
| `Spsc.RegionsDisjoint` | ring_buffer.cpp:70-75 | the region being filled and the region being drained share no cell |
| `Spsc.Linearizes` | ring_buffer.cpp:83-114 | contents change only at the index updates, and there as in a bounded FIFO |
| `Spsc.WholeWrite` | ring_buffer.cpp:58-86 | a whole write, made on the ring or through the queue, with or without notifying, and interleaved in any way: what is published grows by exactly the first min(len, free) bytes of the data given, with the room it sampled; a notification follows if and only if it was asked for and bytes were written |
| `Spsc.WholeRead` | ring_buffer.cpp:88-117 | a whole read in the same generality: it hands over and removes exactly the oldest min(len, held) bytes, with the amount it sampled; clearing follows if and only if it was asked for and bytes were read |
| `Spsc.NeverStuck` | ring_buffer.cpp:58-117 | a call in progress never waits for the other thread |
| `Spsc.WaitFree` | ring_buffer.cpp:58-117 | in every interleaving, a call lasts for at most three own steps more than it has bytes to transfer |
| `Spsc.AllOrNothing` | shared_queue.cpp:35-71 | under interference a call is refused exactly when there is too little at its check, and otherwise transfers its whole request; -1 leaves the ring unchanged |
| `Wakeup.FramedPublishOut` | shared_queue.cpp:35-52 | a read that publishes returns the oldest frame not yet read, whole |
| `Wakeup.ReadsRecoverFrames` | shared_queue.cpp:35-71 | in every interleaving, reads of the agreed sizes return the written frames one for one |
| `Wakeup.PipeKeepsLevel` | shared_queue.cpp:45-68 | with a large enough pipe, the bytes in it less notified writes plus completed reads are always 0 or 1 |
| `Wakeup.NoLostWakeup` | shared_queue.cpp:45-68 | with a large enough pipe no schedule, whatever the frame sizes, ends with an empty pipe, no call in progress and a nonempty queue |
| `Wakeup.SmallPipeLosesWakeup` | shared_queue.cpp:45-68 | with a smaller pipe, a schedule of legal calls that ends with an empty pipe and waiting frames |
| `Wakeup.WakeupThreshold` | shared_queue.cpp:35-71 | no reachable state has lost a wake-up if and only if the pipe's capacity exceeds size / frame |
| `SharedQueues.SharedQueue.Init` | shared_queue.cpp:8-25 | the result for every combination of failures; nothing changes when already initialised or without a pipe; descriptors closed when allocation fails |
| `SharedQueues.SharedQueue.Uninit` | shared_queue.cpp:27-33 | descriptors and buffer gone |
| `SharedQueues.SharedQueue.WriteableSize` | shared_queue.h:37-40 | the free space of the FIFO |
| `SharedQueues.SharedQueue.Read` | shared_queue.cpp:35-52 | delivers the oldest `size` bytes and clears one notification, or returns -1 and changes nothing |
| `SharedQueues.SharedQueue.Write` | shared_queue.cpp:54-71 | appends all the data and adds one notification, or returns -1 and changes nothing |
| `TcpClients.TcpClient.SendAll` | tcp_client.cpp:137-176 | the loop has, on the connection and the result, the effect of the `Send` function for every script of kernel answers |
| `TcpClients.Framing` | tcp_client.cpp:133-176 | over a connection's life the kernel took the completed messages whole and in order, then a proper prefix of at most one more; if that is nonempty the socket is closed or the call still running |
| `TcpClients.SendLoopEnds` | tcp_client.cpp:144-175 | what every script of answers leads to: complete exactly if the kernel takes the whole before it refuses, else as the refusal says, a timeout only if nothing was taken; interruptions change nothing |
| `TcpClients.SendPuts` | tcp_client.cpp:137-176 | one call on an open connection takes the wire on by exactly what the kernel takes before it refuses, and leaves the socket open if and only if it has not failed; any other call changes nothing |
| `TcpClients.OpenUntilFailure` | tcp_client.cpp:165-167 | over a connection's life, with nonempty messages, the socket is open if and only if no call has failed |
| `TcpClients.TimeoutTookNothing` | tcp_client.cpp:149-163 | a timeout leaves the wire and the socket as they were |
| `TcpClients.ClosedStaysClosed` | tcp_client.cpp:139-140 | after a failure every later call fails and sends nothing |
| `TcpClients.CodeIsLengthIff` | tcp_client.cpp:133-175 | over all answers of the kernel, the result is the length exactly on success, if and only if the length is below 2^31 |
| `TcpClients.ErrorCodeIff` | tcp_client.cpp:135-175 | over all answers of the kernel, the result is -1 exactly on a failure, if and only if the length is not one less than a multiple of 2^32 |
| `TcpClients.TimeoutCodeIff` | tcp_client.cpp:135-175 | over all answers of the kernel, the result is zero exactly on a timeout, if and only if the length is not a multiple of 2^32 |
| `TcpClients.TcpClient.RecvAll` | tcp_client.cpp:242-281 | what is stored is what was taken from the stream, in order, nothing else in the buffer changes, and the socket closes exactly on failure |
| `TcpClients.RecvLoopEnds` | tcp_client.cpp:249-280 | what every script of answers leads to on every stream: complete exactly if enough arrives before an answer that brings nothing, else as that answer says; interruptions change nothing |
| `TcpClients.RecvTimeoutLosesBytes` | tcp_client.cpp:260-264 | for every length of two or more, answers that end in a timeout after a byte was taken, with the socket open |
| `TcpClients.RecvTimeoutTookNothingIff` | tcp_client.cpp:249-278 | over all streams and answers, a timeout has taken nothing, if and only if one byte was asked for |
| `TcpClientMgrs.SelectIsFirstLive` | tcp_client_mgr.cpp:110-118 | the wrapping loop finds what a search with an unbounded cursor finds |
| `TcpClientMgrs.SelectionComplete` | tcp_client_mgr.cpp:100-119 | a steady selection is the first live connection in cyclic order, and -1 if and only if none is live |
| `TcpClientMgrs.FindsLiveIff` | tcp_client_mgr.cpp:107-118 | a live connection is found whichever it is, if and only if the cursor does not wrap or the count divides 2^32 |
| `TcpClientMgrs.WrapLosesConnection` | tcp_client_mgr.cpp:112 | three connections, one alive, and a wrap: it is not found |
| `TcpClientMgrs.ResultTells` | tcp_client_mgr.cpp:112-118 | the `int` result is -1 only when nothing was found, for any 32-bit count |
| `TcpClientMgrs.SelectedWhenPassed` | tcp_client_mgr.cpp:107-118 | over a run with fixed live connections, each is selected as often as the cursor passes it |
| `TcpClientMgrs.HitsEven` | tcp_client_mgr.cpp:112 | any stretch of cursor positions meets any two connections equally often, give or take one |
| `TcpClientMgrs.Fair` | tcp_client_mgr.cpp:107-118 | before the first wrap, or for a count that divides 2^32, any two live connections' selection counts differ by at most one |
| `TcpClientMgrs.FairIff` | tcp_client_mgr.cpp:107-118 | over all live sets, cursors and runs, past any wrap, they differ by at most one if and only if the count divides 2^32 |
| `TcpClientMgrs.FairUpToWraps` | tcp_client_mgr.cpp:107-118 | for every count and run, two live connections' selection counts differ by at most one plus the number of wraps |
| `TcpClientMgrs.TcpClientMgr.SelectConnection` | tcp_client_mgr.cpp:100-119 | the loop's result and new cursor are those of the `Select` function |
| `TcpClientMgrs.TcpClientMgr.GetAvailableConnection` | tcp_client_mgr.cpp:128-147 | agrees with `select_connection` from the same state, in what it picks and where the cursor ends |
| `TcpClientMgrs.TcpClientMgr.Init` | tcp_client_mgr.cpp:26-73 | exactly one client for each `;` segment that splits on `:` into two pieces and whose allocation succeeds, in order, each alive or not as its own connecting went; the count is the length of the list |
| `TcpClientMgrs.ClientsAreHosts` | tcp_client_mgr.cpp:40-64 | when no allocation fails, the clients are the hosts named, in order |
| `TcpClientMgrs.ClientsAt` | tcp_client_mgr.cpp:40-64 | whichever allocations fail, each client has the host, port and timeout of its own segment and is alive as its own connecting went |
| `TcpClientMgrs.HostOfIff` | tcp_client_mgr.cpp:43-49 | a segment is taken for a host and port if and only if these have no colon and one stands between them, and perhaps one more at the end, without which the port is not empty |
| `TcpClientMgrs.TcpClientMgr.Uninit` | tcp_client_mgr.cpp:75-88 | no connection left, cursor at zero, send type kept |
| `TcpClientMgrs.HostListRoundTrip` | tcp_client_mgr.cpp:21-45 | a host list written in the documented form is parsed back to its hosts |
| `StringUtils.SplitInto` | string_utils.cpp:5-15 | the `getline` loop pushes exactly the pieces |
| `StringUtils.JoinSplit` | string_utils.cpp:5-15 | joining the pieces, plus one delimiter exactly when the input ends in one, gives the input back |
| `StringUtils.PieceIsClean` | string_utils.cpp:5-15 | no piece contains the delimiter |
| `StringUtils.SplitJoin` | string_utils.cpp:5-15 | pieces free of the delimiter, the last not empty, are recovered from their join |
| `StringUtils.Trim` | string_utils.cpp:31-59 | what remains is a middle piece with only listed characters around it and none of them at its ends |
| `StringUtils.TrimmedUnique` | string_utils.cpp:31-59 | only one string fits that description |
| `StringUtils.IsUtf8` | string_utils.cpp:91-120 | the two nested loops decide `Accepts` |
| `StringUtils.LeadMasks` | string_utils.cpp:96-103 | the lead-byte masks are ranges of bytes |
| `StringUtils.TrailMask` | string_utils.cpp:113 | the trail-byte mask is a range of bytes |
| `StringUtils.AcceptsIffGroups` | string_utils.cpp:84-120 | accepted are exactly the concatenations of well-formed groups of one to four bytes |
| `StringUtils.Compositional` | string_utils.cpp:91-120 | after an accepted string the rest alone decides |
| `StringUtils.EncodingsAccepted` | string_utils.cpp:84-90 | the encoding of every sequence of code points up to 0x1FFFFF is accepted |
| `StringUtils.OnlyOverlongIsExtra` | string_utils.cpp:84-120 | a group accepted beyond that is overlong: it encodes its own value if and only if the value needs that many bytes |
| `Timers.FiresDueOnce` | timer.cpp:37-54 | a pass calls exactly the due timers, each once, in list order |
| `Timers.KeptStays` | timer.cpp:45-50 | the survivors are exactly the timers not called or whose callback did not return 1, in order |
| `Timers.PassKeepsOrder` | timer.cpp:37-54 | the list after a pass is those survivors, the ones called with their clock set |
| `Timers.RemovalIsExact` | timer.h:50-55 | on a list of valid timers, removal deletes exactly the matching triples |
| `Timers.PassFires` | timer.cpp:37-54 | a pass calls each due timer once, at its clock value, and no other |
| `Timers.RecordIsComplete` | timer.cpp:6-54 | over any run, every timer accepted is numbered in order, and the callbacks recorded under the numbers are exactly those the passes over the real list make, in order |
| `Timers.ReachableListIsValid` | timer.cpp:6-35 | in every reachable state there are at most 1000 timers, all valid, so removal never meets one that equals everything |
| `Timers.FiringRate` | timer.h:66-76 | for any calls and clock values, every timer that a run accepts is called at times at least its interval apart, at most (b - a) / interval + 1 times in [a, b] |
| `Timers.CalledWhenDue` | timer.h:66-76 | in every reachable state a pass calls a listed timer if and only if its interval has gone by since its last callback, counted from zero if there is none |
| `Timers.ReachableRemoval` | timer.cpp:20-30 | in every reachable state removal deletes exactly the timers with the same interval, callback and argument |
| `Timers.TimerManager.AddTimer` | timer.cpp:6-18 | appends, or refuses when full or invalid |
| `Timers.TimerManager.RemoveTimer` | timer.cpp:20-30 | the erasing loop leaves the list without all that compare equal |
| `Timers.TimerManager.ProcessTimer` | timer.cpp:37-54 | the scan that erases as it goes has the effect of one pass, and calls in that order |
| `Configs.FirstWins` | conf.cpp:67-81 | without overwriting, a key already there is kept and a new one gets its first value |
| `Configs.LastWins` | conf.cpp:67-81 | with overwriting, a key gets its last value |
| `Configs.FirstIsLastReversed` | conf.cpp:67-81 | into an empty table, first-wins on a sequence is last-wins on its reverse |
| `Configs.IncludeIsInline` | conf.cpp:84-91 | an include has the effect of the included file's pairs in its place, failures included |
| `Configs.IncludeLineIsPaste` | conf.cpp:45-103 | in the text, an include line has the effect of pasting the file |
| `Configs.EntriesAppend` | conf.cpp:47-103 | whole lines in front contribute their own pairs first |
| `Configs.PrintParse` | conf.cpp:47-103 | any map of printable keys and values, printed and loaded, is the same map, overwriting or not |
| `Configs.TokenIsFirst` | conf.cpp:59-60 | the token taken is the one section 7.24.5.8 of ISO C11 describes: the longest run of other characters after the delimiters in front |
| `Configs.HasFirstToken` | conf.cpp:59-60 | every string fits that description |
| `Configs.LineStores` | conf.cpp:55-95 | a line stores exactly its first two tokens, by the standard's description, unless it starts with `#`; it stores nothing if and only if it starts with `#` or has no two tokens |
| `Configs.CommentStoresNothing` | conf.cpp:55 | a comment line contributes nothing, wherever it stands |
| `Configs.DocumentedForms` | conf.h:13-16 | the three documented forms of a line, with blanks, with `=` and with a tab, store the key and the value |
| `Configs.LastLine` | conf.cpp:95-102 | the last line need not end in a newline |
| `Configs.NothingAfterNul` | conf.cpp:49-102 | nothing after a NUL in the file is read |
| `Configs.MissingEnds` | conf.cpp:84-91 | an include of a file that does not open ends the parse after the pairs before it |
| `Configs.SucceedsIffAllOpen` | conf.cpp:20-24 | parsing succeeds if and only if the file, and every file that a path of includes leads to, opens |
| `Configs.Strtok` | conf.cpp:59-60 | the in-place tokenizer finds the token and the rest of section 7.24.5.8 of ISO C11, and touches nothing outside its line |
| `Configs.TakeLine` | conf.cpp:49-53 | `strchr` and the NUL over the newline cut off the first line and leave the text after it as it was |
| `Configs.Config.Parse` | conf.cpp:15-112 | the scan over the buffer stores exactly the flattened pairs of the file, up to the first include that fails |
| `Configs.Config.Load` | conf.cpp:115-121 | the same into an empty table |
| `Configs.Config.Reload` | conf.cpp:123-128 | the same onto the old table, overwriting |
| `Loggers.ArchiveKeepsIff` | log_base.cpp:210-237 | one rotation leaves the last min(n, k) archives listed in order, as different files each with its own segment, if and only if its name is not among those that stay listed |
| `Loggers.TurnedMain` | log_base.cpp:210-261 | rotating both logs keeps the promise of the main log, untouched by what happens to the warning log |
| `Loggers.TurnedWarn` | log_base.cpp:223-261 | and the promise of the warning log |
| `Loggers.Retention` | log_base.cpp:161-262 | after every call of a run with limit k, both logs keep exactly the last min(n, k) of n archives, listed and on disk, each holding exactly what was logged between its rotations, and the active file what was logged since: if and only if no two of any k consecutive rotations share a second |
| `Loggers.DiskIsList` | log_base.cpp:210-234 | then an archive ever made is on disk if and only if it is listed |
| `Loggers.TurnTidyIff` | log_base.cpp:210-237 | a rotation leaves no unlisted archive on disk if and only if the limit is positive or its name is listed already |
| `Loggers.DiskBounded` | log_base.cpp:210-237 | over any run whose limit is never zero, however it changes and stamps repeat, neither log has an unlisted archive on disk, nor more archives than the largest limit |
| `Loggers.UnlistedStays` | log_base.cpp:210-237 | over any run, an archive that is not listed stays on disk unless its name is used again |
| `Loggers.SegmentsAreLogged` | log_base.cpp:155-160 | the segments and the active text are, one after the other, everything the run logged |
| `Loggers.NothingLost` | log_base.cpp:161-262 | after such a run the archives and the active file of either log are the end of everything logged to it, and all of it while there have been at most k rotations |
| `Loggers.SameSecondOverwrites` | log_base.cpp:203-222 | for every limit and either log, a rotation under a name still listed lists it twice and replaces what that archive held |
| `Loggers.ListsBounded` | log_base.cpp:210-234 | however the limit is changed, no list outgrows the largest limit ever in force |
| `Loggers.RotatedLength` | log_base.cpp:210-234 | a rotation leaves a list within the limit if and only if it was within it |
| `Loggers.LengthOverRun` | log_base.cpp:210-234 | over any run with a fixed limit, both lists' lengths: a shorter one grows up to the limit, a longer one never shrinks |
| `Loggers.NeverOver1024` | log_base.cpp:302-312 | whatever limits are asked for, no run lists more than 1024 archives of a log |
| `Loggers.SizeIsHonoured` | log_base.cpp:161-172 | after any message the active file is shorter than the size asked for, or than a gigabyte if that was out of range; zero turns rotation by size off |
| `Loggers.RotatesAtLimitInRuns` | log_base.cpp:161-170 | after any run, a message rotates if and only if the limit is positive and what has been logged since the last rotation, with it, has reached the limit |
| `Loggers.SegmentsReachLimit` | log_base.cpp:161-170 | over messages with one size limit, every archive's text is at least that long and the active text shorter |
| `Loggers.NothingToRotate` | log_base.cpp:186-261 | without an active file a rotation only opens new files |
| `Loggers.Logger.RotateLog` | log_base.cpp:175-262 | pops, unlinks, pushes and renames for both logs have the effect of the `Rotated` function |
| `Loggers.Logger.LogMessage` | log_base.cpp:155-172 | the text goes to the logs it belongs to, and a rotation follows exactly when the active file has reached the size limit |
| `ProtoDispatchers.ReachableIsBalanced` | proto_dispatcher.cpp:5-93 | in every state reachable by registering, unregistering and clearing, a handler's successful inits less uninits are the number of ids it serves |
| `ProtoDispatchers.ServedByFirst` | proto_dispatcher.cpp:5-93 | after any run, an id is served by the handler of the first successful registration since the id was last freed, and by none if there is no such registration |
| `ProtoDispatchers.DuplicateRefused` | proto_dispatcher.cpp:15-21 | registering a taken id leaves the table alone and adds an init and an uninit of the handler offered |
| `ProtoDispatchers.FailureRefused` | proto_dispatcher.cpp:7-13 | a handler whose init fails is not entered and its init is all that is called; a null handler changes nothing |
| `ProtoDispatchers.RegisterUnregister` | proto_dispatcher.cpp:5-46 | unregistering a new registration restores the table and every balance |
| `ProtoDispatchers.ProtoDispatcher.RegisterProto` | proto_dispatcher.cpp:5-30 | result, table and handler calls in every case, keeping the balance |
| `ProtoDispatchers.ProtoDispatcher.UnregisterProto` | proto_dispatcher.cpp:32-46 | result, table and handler calls, keeping the balance |
| `ProtoDispatchers.ProtoDispatcher.ClearProtos` | proto_dispatcher.cpp:83-93 | it visits every id in some order and has the effect of `Clear` with that order: the table ends empty, the calls made before stay as they were, one uninit of a handler of the table is added for each id, and every balance is zero |

## Left out

- Weak memory: the barriers appear as the order of the steps, and a step is atomic and seen at once by the other thread.
- Use of the ring or the queue before allocation or after it has been freed: `m_buffer != null`, or an open descriptor, is required.
- RingBuffers.RingBuffer.Alloc: which allocator is called, and that the memory may be shared between processes, are not modelled; the allocator's answer is a parameter.
- SharedQueues.SharedQueue.Init: the two descriptors are values handed in, and the pipe is the number of bytes in it.
- Spsc.DeliveredIsPrefix: `init`, `uninit` and a reset are not steps of the machine; both threads are started on an allocated, empty ring.
- Wakeup.PipeKeepsLevel: speaks of callers that agree on the frame sizes, always notify and always clear.
- TcpClients.TcpClient.SendAll: `writev`, `readv`, `connect`, `reconnect`, `is_real_alive` and socket options are left out; a null buffer is an empty message.
- TcpClientMgrs.TcpClientMgr.Init: how a client connects is not modelled; what comes of each attempt is a parameter.
- TcpClientMgrs.TcpClientMgr.SelectConnection: the connection count is unbounded, so a host list of 2^32 or more segments is not modelled.
- The forwarding members of `TcpClientMgr` (`send`, `recv`, `check_connection`, `close_connection`) and the request function that is commented out.
- Timers.TimerManager.ProcessTimer: callbacks that add or remove timers during the pass are excluded; their answers are a parameter.
- Timers.FiringRate: clock values are unbounded integers, so overflow of `time_t` is not modelled.
- Configs.Config.Parse: cyclic includes are excluded by the rank in the precondition; a null name is one that does not open; a failing allocation or read, files of 2 GB and more and the message about a repeated key are not modelled.
- Configs.Strtok: the pointer the C library remembers between two calls is passed explicitly.
- The typed getters of `Config`, `str2int`, `is_all_digit` and `parse_str_time`, which rest on library parsing.
- StringUtils.Trim: the result is returned instead of replacing the string in place.
- Loggers.Logger.RotateLog: the case without arguments on a named log whose files can be renamed and opened; another file name or time format, names cut at 256 characters, descriptors and locks are not modelled.
- Loggers.Logger.LogMessage: formatting, levels and `check_file` are not modelled; the formatted text and whether it is severe are inputs.
- Loggers.Retention: speaks of runs that leave the limit alone; renaming, unlinking and opening succeed.
- Loggers.SizeIsHonoured: the same; a rotation whose renaming fails would leave the active file long.
- ProtoDispatchers.ProtoDispatcher.RegisterProto: handlers that call back into the dispatcher are not modelled; nor are `dispatch`, `timer_event` and the listing of protocols, which change nothing.
- `plugin_loader`, `daemon`, `filelister`, `fs_utils`, `thread`, `singleton` and `event_handler`: system calls, or nothing beyond one body.
