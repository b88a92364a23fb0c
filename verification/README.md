# Verified models of eight firmware routines

This project models eight routines of the repository in Dafny and proves what they do on every input, run or reachable
state. Each routine has a specification on values (states, steps, whole runs) with the theorems about it, and, where the
original updates state in place, a class or a method over arrays that is proved to do exactly what the specification
says. `dafny verify dfyconfig.toml` checks everything.

## What is modelled

**IP fragment reassembly** (`HoleList`, `HoleTable`, `HoleRuns`, `Reassembly`). The hole list of RFC 815, whose
descriptors live in the same byte buffer that the fragments are copied into. `HoleList` is the algorithm of section 3 of
RFC 815 on a list of holes, `HoleTable` the doubly linked table of section 4, `HoleRuns` whole runs over an arbitrary
cut of a datagram and an arbitrary order of arrival with repeats, and `Reassembly` the code over the bytes. Block number
0 means both "none" and "block 0" in the links. The consequence is stated exactly: the hole list is right after every
fragment if and only if no fragment ever begins at the second hole while block 0 is still missing
(`TracksIffClashFree`), and that is a condition on the pieces that have arrived (`ClashIffSecondGap`). The first piece
arriving first, or descending order, meets it; `MiddleThenLastCompletesTooEarly` is a three-piece run that does not. The
bound check of the code admits payloads up to byte 16364, but a descriptor that begins at byte 16360 lies behind the
buffer: `DescriptorFitsBehind` shows that in the runs of a datagram this happens exactly if a piece other than the last
ends there, and those are the only cuts within the code's bound that the theorems about the bytes leave out. What
arrives is given byte by byte in the layout of section 3.1 of RFC 791 (`CarriesPiece`), and `IsFragmentIff` says that
the parser takes exactly these packets for pieces. The code stores the payload length alone, without the header's 20
bytes, as the total length of the packet it returns, and so does the model.

**Watchdog keepalive scheduling** (`WatchdogState`, `WatchdogTiming`, `WatchdogLife`, `WatchdogDevice`). Times are
integers in nanoseconds, timers fire when they are due, and what a driver operation returns is an argument. A driver's
ping or successful start is taken to feed the hardware at that moment whatever the ping returns, as the code too records
it: the timing theorems are about drivers whose pings do feed. `WatchdogLife` is about every run of open, write, ioctl,
release and timer calls, and `WatchdogTiming` about when the hardware expires in such runs, from the call that activates
the watchdog on. `Heard` lists the calls by which the user shows to be alive: a write that hands over all its bytes, the
keep-alive and set-timeout ioctls, a restart, and a close that does not stop the watchdog. Where an expected property
does not hold the exact condition is given: the magic character may come from an earlier session
(`SilentSessionStoppedIff`), an open that fails to start running hardware gives back a reference it never took
(`ReferencesExactIff`), and stopping a device whose driver cannot stop keeps it alive only within a bound
(`StopHandsOverIff`).

**Unzip buffered input and text output** (`ZipInput`, `ZipText`, `ZipVms`). The block window of the archive agrees with
a plain cursor over the file: any sequence of reads, seeks and skips gives what the cursor gives (`Input.PerformAll`),
as long as nothing follows a read behind the end of the file. `ReadBuf` states exactly when the window stays right, and
`ReadBehindEndSpoilsSeek` is a run after which the buffer offers bytes that the file does not have. The deferred window
hands out exactly the member's bytes; `UndeferInput` states where the cursor then is. Both text converters give the same
output for every way of cutting the input into chunks. `LinesComeOut` says what that is: every byte sequence is lines
closed by CR LF, a lone CR or a lone LF, with ^Z anywhere (`EveryTextHasLines`), and each line comes out in the system's
code with one line end of the system. `TextOutput.FlushAll` and `VmsOutput.FlushAll` are that for a sequence of calls of
the code. For VMS records there is one condition on a call: the state left between two chunks is right if and only if
the chunk does not lose count (`VmsOutput.Flush`, `LosesCount`), that is, fill the translation buffer while a line is
under way and keep pace with it. With line ends of one byte this is a full chunk in the middle of one line
(`LosesCountInOneLine`), and `FullChunksLoseCount` is an input that comes out wrong. `AllLineEndsIff` states when the
last line end comes out.

**Memory tests** (`MemTest`). Sound cells behind an arbitrary address decoder, with a record of all writes. What each
modelled phase writes is stated literally, its error count is given exactly as a function of the decoder, and zero
errors are reported exactly for the decoders that keep the tested words apart.

**One-time passwords** (`OtpEncoding`, `OtpNormal`, `OtpSpacer`, `OtpPassword`, `OtpSpelled`, `OtpList`, `OtpShuffle`).
Bit packing into characters and words, the Bresenham loop that shifts a buffer apart over itself, the normalizer that
compacts in place, and the list that is filled page by page and printed in random order. The main result connects them:
what is hashed of a password has the advertised number of characters and carries exactly the advertised number of input
bits, for all three password types. The character tables are spelled out (`Tables`), each character and word is given by
the input bits it stands for (`Base64Spelled`, `WordsSpelled`), and `NormalizeAlikeIff` says which strings are taken for
the same password. The random order is always a permutation but not every permutation, because a draw never takes the
last entry left; `ExactlyCyclicOrders` says which ones come out.

**Buzzer and LED cadences** (`CadenceState`, `CadenceRuns`, `CadenceProgress`, `CadenceRequests`, `CadenceDriver`). A
priority table of finite and never-ending jobs with preemption. From any state a request plays the bits of its entry in
the tables, its number of cycles or round and round, however it is preempted (`RequestPlays`). In every run the least
busy row plays, nothing of a finite job is lost or repeated by preemption, and the first never-ending row comes up after
an exactly known number of ticks. `ClearedLed` and `ClearedBuzzer` state what each output has left to play after any way
of clearing. A cleared LED is switched off, but not if the same call clears the buzzer of the row and the other LED is
dark or cleared too.

**USB block transfer** (`UsbCommands`, `UsbTransfer`). Chunks, retries and the shared command block over a transport
that may fail and leave anything in the chunk. The device does what the bytes of the command block say
(`Storage.Transport`): direction, unit, address and count are read from there. The blocks that a call reports as moved
are the right ones as long as block addresses fit the four bytes of the command; `CommandReachesBlockIff` says that this
is exactly when they are reached.

**UDP checksum** (`UdpChecksum`). The word sum over pseudo-header and segment, its folding, what it accepts, and which
changes of one word of a datagram it notices. `DatagramIsAcceptedIff` says the same in terms of the fields.

Every method of a class is proved against its specification; the specification's lemmas hold for all inputs. What the
code asks of its callers appears as `requires`: a destination outside the input window, room for the password, a chunk
no larger than the translation buffer. For `make_passwd` with a buffer it includes that the final NUL does not go in
front of the buffer; `WordsNeedEntropy` says that this happens exactly for words with no entropy.

## Model

| member | source | states |
|---|---|---|
| HoleList.Find | Source/cpu/RK3568/uboot/u-boot/net/net.c:934-941 | finds the first hole that ends beyond an offset, and all earlier holes end at or before it |
| HoleList.HitsIsMissing | Source/cpu/RK3568/uboot/u-boot/net/net.c:934-947 | an offset lies in a hole of the list exactly when its byte is missing |
| HoleList.PunchMissing | Source/cpu/RK3568/uboot/u-boot/net/net.c:949-1004 | taking a fragment out of its hole removes exactly its bytes from the missing ones, and for the last fragment everything behind it |
| HoleList.StepConsistent | Source/cpu/RK3568/uboot/u-boot/net/net.c:934-1004 | every fragment keeps the list sorted, disjoint, non-empty holes on 8-byte borders |
| HoleList.StepMissing | Source/cpu/RK3568/uboot/u-boot/net/net.c:934-1004 | one fragment removes its own bytes from the missing ones and nothing else, except that a clash also forgets the first hole |
| HoleList.StepLost | Source/cpu/RK3568/uboot/u-boot/net/net.c:963-1001 | the hole at block 0 is forgotten by a clash and by nothing else |
| HoleList.StepOpenEnded | Source/cpu/RK3568/uboot/u-boot/net/net.c:949-953 | the end of the datagram stays open until the last fragment arrives for the first time |
| HoleList.StepClearsFragment | Source/cpu/RK3568/uboot/u-boot/net/net.c:955-1007 | the holes that are left, descriptors included, avoid the bytes about to be copied |
| HoleTable.DropMiddle | Source/cpu/RK3568/uboot/u-boot/net/net.c:973-977 | unlinking a middle hole by its two neighbours leaves the table encoding the shorter list |
| HoleTable.Move | Source/cpu/RK3568/uboot/u-boot/net/net.c:983-993 | moving a descriptor behind the fragment and relinking its neighbours encodes the shortened hole |
| HoleTable.Split | Source/cpu/RK3568/uboot/u-boot/net/net.c:995-1004 | splitting a hole in two links both parts with their neighbours, next and prev inverse to each other |
| HoleTable.ForgetBlockZero | Source/cpu/RK3568/uboot/u-boot/net/net.c:961-977 | a predecessor at block 0 reads as none, so the list then starts at the second hole |
| HoleTable.CutListIsStep | Source/cpu/RK3568/uboot/u-boot/net/net.c:949-1004 | each of the four branches gives the list that the specification gives, a repeated fragment changes nothing |
| HoleTable.SearchResult | Source/cpu/RK3568/uboot/u-boot/net/net.c:934-947 | where the search stops and the repeat test decides: the fragment changes nothing, or its hole is found |
| HoleTable.RoomBehind | Source/cpu/RK3568/uboot/u-boot/net/net.c:983-1004 | the new descriptor behind a fragment lies inside the remaining hole and before the next one |
| HoleTable.OverwriteOutsideHoles | Source/cpu/RK3568/uboot/u-boot/net/net.c:1006-1007 | overwriting payload that no hole claims leaves every live descriptor intact |
| HoleRuns.HolesAreDueBytes | Source/cpu/RK3568/uboot/u-boot/net/net.c:934-1004 | as long as no clash occurs the holes are exactly the bytes that have not arrived, in any order with repeats |
| HoleRuns.CompleteExactlyWhenAllArrived | Source/cpu/RK3568/uboot/u-boot/net/net.c:1008-1013 | without a clash completion is reported exactly when every piece has arrived |
| HoleRuns.TracksIffClashFree | Source/cpu/RK3568/uboot/u-boot/net/net.c:891-1004 | the list is right after every fragment if and only if no fragment begins at the second hole while block 0 is missing |
| HoleRuns.ClashIffSecondGap | Source/cpu/RK3568/uboot/u-boot/net/net.c:963-1001 | when that happens, in terms of the pieces that have arrived |
| HoleRuns.LostIffClash | Source/cpu/RK3568/uboot/u-boot/net/net.c:963-1001 | a hole has been forgotten exactly when a clash has happened |
| HoleRuns.ClashForgetsByteZero | Source/cpu/RK3568/uboot/u-boot/net/net.c:963-1001 | the first clash takes byte 0 off the list though it is still due |
| HoleRuns.FirstPieceFirst | Source/cpu/RK3568/uboot/u-boot/net/net.c:896-1004 | if the first piece arrives first, no order of the others clashes |
| HoleRuns.DescendingOrder | Source/cpu/RK3568/uboot/u-boot/net/net.c:896-1004 | pieces in descending order, with repeats, never clash |
| HoleRuns.MiddleThenLastCompletesTooEarly | Source/cpu/RK3568/uboot/u-boot/net/net.c:963-1004 | a concrete run reported complete although its first piece never arrived |
| HoleRuns.FirstCompletion | Source/cpu/RK3568/uboot/u-boot/net/net.c:1008-1013 | a run that stops at its first completion stops with the piece that completes the datagram |
| Reassembly.DescriptorFitsBehind | Source/cpu/RK3568/uboot/u-boot/net/net.c:911-1004 | in all runs of a datagram every descriptor lies inside the buffer exactly if no piece but the last ends at byte 16360 |
| Reassembly.IsFragmentIff | Source/cpu/RK3568/uboot/u-boot/net/net.c:896-915 | which packets are taken for a piece of a datagram, in the bytes of the IP header: total length, more-fragments bit 20 and offset in blocks of 8; and exactly those |
| Reassembly.Reassembler.Walk | Source/cpu/RK3568/uboot/u-boot/net/net.c:934-941 | the walk over the links stops at the first hole that does not end before the fragment |
| Reassembly.Reassembler.Unlink | Source/cpu/RK3568/uboot/u-boot/net/net.c:961-977 | removes a hole from the linked list and touches no byte outside the descriptors |
| Reassembly.Reassembler.MoveHole | Source/cpu/RK3568/uboot/u-boot/net/net.c:983-993 | moves a descriptor behind the fragment, links included, and touches nothing else |
| Reassembly.Reassembler.SplitHole | Source/cpu/RK3568/uboot/u-boot/net/net.c:995-1004 | splits a hole around the fragment and touches nothing else |
| Reassembly.Reassembler.FixList | Source/cpu/RK3568/uboot/u-boot/net/net.c:949-1004 | the bytes encode the list that the specification gives, and no received byte changes, for every fragment that leaves room behind it or is the last |
| Reassembly.Reassembler.CopyIn | Source/cpu/RK3568/uboot/u-boot/net/net.c:1006-1007 | the payload copy writes the fragment and keeps the list valid |
| Reassembly.Reassembler.Deliver | Source/cpu/RK3568/uboot/u-boot/net/net.c:1008-1013 | the packet is the buffered header with the payload length in bytes 2 and 3, high byte first, and the datagram |
| Reassembly.Reassembler.Defragment | Source/cpu/RK3568/uboot/u-boot/net/net.c:896-1013 | one call makes exactly one step of the specification; a packet comes back exactly when the list is empty; a packet that reaches beyond the buffer changes nothing |
| Reassembly.Reassembler.ReceiveUntilComplete | Source/cpu/RK3568/uboot/u-boot/net/net.c:896-1013 | for the packets, given in bytes, of any cut of a datagram in any clash-free arrival order with repeats: a packet exactly when the last missing piece arrives, with the first header, the length and the bytes of the datagram |
| WatchdogState.PingHardware | Source/cpu/RK3568/kernel/kernel/drivers/watchdog/watchdog_dev.c:154-181 | the hardware is fed only now, and not before its minimum heartbeat has passed since the last feeding |
| WatchdogState.PostponedPingComes | Source/cpu/RK3568/kernel/kernel/drivers/watchdog/watchdog_dev.c:154-235 | a ping that comes too early feeds nothing but leaves the timer armed, which feeds at the earliest time allowed |
| WatchdogTiming.WorkerInterval | Source/cpu/RK3568/kernel/kernel/drivers/watchdog/watchdog_dev.c:111-138 | the worker runs at half the maximum heartbeat but never beyond the last ping that still meets the deadline |
| WatchdogTiming.EventKeepsSchedule | Source/cpu/RK3568/kernel/kernel/drivers/watchdog/watchdog_dev.c:107-903 | every call that leaves the watchdog active, and every worker firing, keeps the hardware from expiring before the deadline |
| WatchdogTiming.ApplyTracksUser | Source/cpu/RK3568/kernel/kernel/drivers/watchdog/watchdog_dev.c:195-903 | what each call does to the last keepalive and the timeout: a write of all its bytes, a keep-alive, a new timeout, a restart and a close that does not stop count as a ping, and nothing else does |
| WatchdogTiming.ActivatesIff | Source/cpu/RK3568/kernel/kernel/drivers/watchdog/watchdog_dev.c:708-834 | an inactive watchdog is activated by an open or an enabling ioctl whose start succeeds and by nothing else |
| WatchdogTiming.TimerProgress | Source/cpu/RK3568/kernel/kernel/drivers/watchdog/watchdog_dev.c:154-181 | every firing feeds the hardware or is the one postponement before it is fed |
| WatchdogTiming.SilentUserExpires | Source/cpu/RK3568/kernel/kernel/drivers/watchdog/watchdog_dev.c:107-181 | if the user stays silent the hardware expires at the deadline, or less than the minimum heartbeat later |
| WatchdogTiming.ExpiresTimeoutAfterLastPing | Source/cpu/RK3568/kernel/kernel/drivers/watchdog/watchdog_dev.c:107-903 | from the open or ioctl that activates the watchdog on, over all calls and firings, with a driver whose pings feed: not before the timeout after the user was last heard of, by write, ioctl or close, then exactly, or within the minimum heartbeat |
| WatchdogTiming.IdleIsKeptAlive | Source/cpu/RK3568/kernel/kernel/drivers/watchdog/watchdog_dev.c:88-181 | hardware that nobody has open but that runs is kept alive for ever |
| WatchdogTiming.IdleWorker | Source/cpu/RK3568/kernel/kernel/drivers/watchdog/watchdog_dev.c:88-138 | the worker of running hardware that nobody has open: none without a timeout, else after half the shorter of timeout and hardware limit |
| WatchdogTiming.ShortTimeoutNeedsNoWorker | Source/cpu/RK3568/kernel/kernel/drivers/watchdog/watchdog_dev.c:88-152 | no worker while the hardware itself covers the timeout |
| WatchdogTiming.StopLeavesAlone | Source/cpu/RK3568/kernel/kernel/drivers/watchdog/watchdog_dev.c:286-312 | a stop by the driver ends all feeding and disarms the worker |
| WatchdogTiming.StoppedIsNotFed | Source/cpu/RK3568/kernel/kernel/drivers/watchdog/watchdog_dev.c:154-903 | and no call but an activation feeds the hardware after that |
| WatchdogTiming.StoppedByReleaseIsNotPinged | Source/cpu/RK3568/kernel/kernel/drivers/watchdog/watchdog_dev.c:855-903 | a close after which the watchdog is inactive has not pinged it |
| WatchdogTiming.StopHandsOverIff | Source/cpu/RK3568/kernel/kernel/drivers/watchdog/watchdog_dev.c:286-312 | when a stop that the driver does not support still leaves the hardware alive |
| WatchdogLife.Effects | Source/cpu/RK3568/kernel/kernel/drivers/watchdog/watchdog_dev.c:623-903 | what each call may do to handles, references, flags and activity |
| WatchdogLife.OneOpenerAlways | Source/cpu/RK3568/kernel/kernel/drivers/watchdog/watchdog_dev.c:787-834 | in every run at most one file handle is open, and the release flag is set only after a write with the magic character |
| WatchdogLife.ReferencesAlwaysExact | Source/cpu/RK3568/kernel/kernel/drivers/watchdog/watchdog_dev.c:801-901 | module and device references are held exactly while the device is open or its hardware runs, in runs whose opens of running hardware start it |
| WatchdogLife.ReferencesExactIff | Source/cpu/RK3568/kernel/kernel/drivers/watchdog/watchdog_dev.c:801-901 | in exactly those runs |
| WatchdogLife.NextKeepsRefsIff | Source/cpu/RK3568/kernel/kernel/drivers/watchdog/watchdog_dev.c:801-833 | a call upsets the references exactly if an open fails to start hardware that is already running |
| WatchdogLife.NoWayOutNeverStops | Source/cpu/RK3568/kernel/kernel/drivers/watchdog/watchdog_dev.c:286-312 | an active watchdog with nowayout never becomes inactive |
| WatchdogLife.StoppedByReleaseHadMagic | Source/cpu/RK3568/kernel/kernel/drivers/watchdog/watchdog_dev.c:639-883 | when release stops a magic-close watchdog, the latest non-empty write contained the magic character |
| WatchdogLife.SilentSessionStoppedIff | Source/cpu/RK3568/kernel/kernel/drivers/watchdog/watchdog_dev.c:787-883 | a session that writes nothing is stopped by its close exactly if it inherited the release flag |
| WatchdogLife.MagicOutlivesItsSession | Source/cpu/RK3568/kernel/kernel/drivers/watchdog/watchdog_dev.c:639-903 | a run in which the flag survives its own session |
| WatchdogDevice.Watchdog.constructor | Source/cpu/RK3568/kernel/kernel/drivers/watchdog/watchdog_dev.c:934-1017 | a registered device; hardware that already runs holds the references, and is pinged at once if handle_boot_enabled is set |
| WatchdogDevice.Watchdog.UpdateTimer | Source/cpu/RK3568/kernel/kernel/drivers/watchdog/watchdog_dev.c:140-152 | arms or cancels the timer as the specification says, nothing else changes |
| WatchdogDevice.Watchdog.FeedHardware | Source/cpu/RK3568/kernel/kernel/drivers/watchdog/watchdog_dev.c:154-181 | refines PingHardware, and returns the driver result unless the ping is postponed |
| WatchdogDevice.Watchdog.UserPing | Source/cpu/RK3568/kernel/kernel/drivers/watchdog/watchdog_dev.c:195-206 | a user ping; it returns what the driver returns, or 0 if the driver is not asked |
| WatchdogDevice.Watchdog.TimerExpired | Source/cpu/RK3568/kernel/kernel/drivers/watchdog/watchdog_dev.c:215-235 | the worker ping when the timer fires |
| WatchdogDevice.Watchdog.StartWatchdog | Source/cpu/RK3568/kernel/kernel/drivers/watchdog/watchdog_dev.c:248-272 | start by pinging running hardware or by the driver, with its failure left in place and returned |
| WatchdogDevice.Watchdog.StopWatchdog | Source/cpu/RK3568/kernel/kernel/drivers/watchdog/watchdog_dev.c:286-312 | stop, refused by nowayout, handed to the worker if the driver cannot stop |
| WatchdogDevice.Watchdog.WriteData | Source/cpu/RK3568/kernel/kernel/drivers/watchdog/watchdog_dev.c:623-662 | the magic scan stops at a fault, which is returned as -14; a complete write pings and returns its length or the error of the ping |
| WatchdogDevice.Watchdog.SetOptionsIoctl | Source/cpu/RK3568/kernel/kernel/drivers/watchdog/watchdog_dev.c:708-741 | disable, and then enable unless that failed, with their results |
| WatchdogDevice.Watchdog.SetTimeoutIoctl | Source/cpu/RK3568/kernel/kernel/drivers/watchdog/watchdog_dev.c:356-379 | a new timeout pings and rearms the worker |
| WatchdogDevice.Watchdog.OpenDevice | Source/cpu/RK3568/kernel/kernel/drivers/watchdog/watchdog_dev.c:787-834 | open with all its error paths |
| WatchdogDevice.Watchdog.ReleaseDevice | Source/cpu/RK3568/kernel/kernel/drivers/watchdog/watchdog_dev.c:855-903 | release with the magic rule and the reference counts |
| ZipInput.Input.ReadBuf | Source/package/unzip60/patch_work/fileio.c:573-606 | returns the bytes and the count that a plain read at the cursor gives; the window stays right exactly unless something is read with the cursor beyond the end of the file |
| ZipInput.Input.SeekZipf | Source/package/unzip60/patch_work/fileio.c:710-769 | which result for which request; after success the requested byte is next and the window agrees with the file, after PK_EOF the buffer counts as used up |
| ZipInput.Input.Skip | Source/package/unzip60/patch_work/fileio.c:2274-2279 | moves the cursor by the length; when it does not succeed, and the window it then leaves |
| ZipInput.Input.Perform | Source/package/unzip60/patch_work/fileio.c:573-769 | one read, seek or skip gives what a plain cursor gives |
| ZipInput.Input.PerformAll | Source/package/unzip60/patch_work/fileio.c:573-769 | any sequence of reads, seeks and skips gives what a plain cursor gives, as long as nothing follows a read behind the end of the file |
| ZipInput.ReadBehindEndSpoilsSeek | Source/package/unzip60/patch_work/fileio.c:573-769 | a run after such a read: the buffer offers more bytes than the file has |
| ZipInput.Input.MemberLeftIsExact | Source/package/unzip60/patch_work/fileio.c:523-563 | csize plus incnt is what remains of the member |
| ZipInput.Input.DeferLeftoverInput | Source/package/unzip60/patch_work/fileio.c:550-563 | only the member is left in the window |
| ZipInput.Input.UndeferInput | Source/package/unzip60/patch_work/fileio.c:523-540 | the cursor is just behind the last byte taken, one too far for each earlier read behind the end |
| ZipInput.Input.ReadByte | Source/package/unzip60/patch_work/fileio.c:616-664 | the next byte of the member, or end of file; at the end of the member it forgets what the buffer still holds |
| ZipInput.Input.FillInBuf | Source/package/unzip60/patch_work/fileio.c:676-698 | the next block of the member, its count and its bytes; at the end of the member nothing, and the cursor moves on to the next block |
| ZipInput.Input.TakeByte | Source/package/unzip60/patch_work/fileio.c:616-664 | a buffered byte is the archive byte at the cursor |
| ZipText.ConvertConcat | Source/package/unzip60/patch_work/fileio.c:1008-1048 | converting a text in two chunks is converting it at once, given whether the first ended in CR |
| ZipText.TextOutput.Flush | Source/package/unzip60/patch_work/fileio.c:889-1049 | one call appends the conversion of its chunk, what that is being LinesComeOut, and remembers a trailing CR |
| ZipText.TextOutput.FlushAll | Source/package/unzip60/patch_work/fileio.c:889-1049 | a sequence of calls writes the conversion of the whole in one pass |
| ZipText.LinesComeOut | Source/package/unzip60/patch_work/fileio.c:1008-1048 | of lines closed by CR LF, a lone CR or a lone LF, with ^Z anywhere, every line comes out as its native bytes and one line end of the system, and ^Z as nothing |
| ZipText.EveryTextHasLines | Source/package/unzip60/patch_work/fileio.c:1008-1048 | every byte sequence is such a text |
| ZipText.FlushText | Source/package/unzip60/patch_work/fileio.c:889-1049 | what the calls write for a text in any number of chunks: its lines in the form of the system |
| ZipText.ChunkingDoesNotMatter | Source/package/unzip60/patch_work/fileio.c:1008-1048 | for every cut into chunks the conversions chunk by chunk make up that of the whole |
| ZipText.ConvertedTextIsPlain | Source/package/unzip60/patch_work/fileio.c:1008-1048 | on Unix no CR and no control-Z remain |
| ZipText.ConvertIsIdempotent | Source/package/unzip60/patch_work/fileio.c:1008-1048 | on Unix converting twice changes nothing more |
| ZipVms.ConvertConcat | Source/package/unzip60/patch_work/fileio.c:902-997 | cutting records anywhere, in the length word, the line or before the pad byte, makes no difference |
| ZipVms.ChunkingDoesNotMatter | Source/package/unzip60/patch_work/fileio.c:902-997 | for every sequence of chunks the conversions one after the other make up that of the whole |
| ZipVms.RecordsComeOut | Source/package/unzip60/patch_work/fileio.c:902-997 | every record comes out as its line and a line end, a last one of even length without it |
| ZipVms.AllLineEndsIff | Source/package/unzip60/patch_work/fileio.c:902-997 | all line ends come out exactly if there is no record or the last has odd length |
| ZipVms.VmsOutput.ReadLength | Source/package/unzip60/patch_work/fileio.c:911-931 | the length word, whole or in two calls |
| ZipVms.VmsOutput.CopyLine | Source/package/unzip60/patch_work/fileio.c:933-968 | the bytes of the line, and the count left for the next chunk: wrong, by the room that was left, exactly if the line goes on to the end of the chunk and fills a buffer that was not full |
| ZipVms.VmsOutput.Flush | Source/package/unzip60/patch_work/fileio.c:902-997 | what is written is always right; the state for the next chunk is right if and only if the chunk does not lose count, and which state it is otherwise |
| ZipVms.LosesCountInOneLine | Source/package/unzip60/patch_work/fileio.c:933-968 | with line ends of at most one byte a chunk loses count exactly if it is full and lies within one line |
| ZipVms.LastLineIsTooLong | Source/package/unzip60/patch_work/fileio.c:933-968 | a chunk that loses count leaves the length of the current line too large |
| ZipVms.VmsOutput.FlushAll | Source/package/unzip60/patch_work/fileio.c:902-997 | a sequence of calls of which none but the last loses count writes the conversion of the whole in one pass |
| ZipVms.SmallChunksKeepCount | Source/package/unzip60/patch_work/fileio.c:902-997 | chunks smaller than the translation buffer never lose count |
| ZipVms.FullChunksLoseCount | Source/package/unzip60/patch_work/fileio.c:902-997 | two records in full chunks that come out wrong, and what they should give |
| MemTest.NoLineErrorsIff | Source/cpu/RK3568/uboot/u-boot/cmd/mem.c:678-730 | no line error exactly if 0 and the powers of two select different cells |
| MemTest.StuckLineIsFound | Source/cpu/RK3568/uboot/u-boot/cmd/mem.c:678-730 | every single stuck address line in range is found |
| MemTest.ShortedLinesAreFound | Source/cpu/RK3568/uboot/u-boot/cmd/mem.c:678-730 | every pair of shorted address lines in range is found |
| MemTest.Memory.CountBad | Source/cpu/RK3568/uboot/u-boot/cmd/mem.c:690-706 | counts exactly the lines that share the probed cell |
| MemTest.Memory.AddressLineTest | Source/cpu/RK3568/uboot/u-boot/cmd/mem.c:678-730 | the writes of the phase, and the exact error count: the lines that select the cell of offset 0 and the ordered pairs of lines that share a cell; zero exactly for decoders that keep the lines apart |
| MemTest.Memory.DeviceTest | Source/cpu/RK3568/uboot/u-boot/cmd/mem.c:744-791 | the writes of the three passes; two errors for every word that shares its cell with another one, none exactly for injective decoders; every word is left zero |
| MemTest.Memory.QuickTest | Source/cpu/RK3568/uboot/u-boot/cmd/mem.c:796-853 | what is written, counting up from the pattern or down from its negative or complement; for every pattern and iteration one error for each word overwritten later, none exactly for injective decoders |
| MemTest.OverwrittenIff | Source/cpu/RK3568/uboot/u-boot/cmd/mem.c:827-850 | no word is overwritten exactly if the decoder is injective |
| MemTest.OverwrittenIsExcess | Source/cpu/RK3568/uboot/u-boot/cmd/mem.c:827-850 | the error count is the number of words in excess of the cells they use |
| OtpEncoding.Digit64Bits | Source/package/otpw/otpwPatch/otpw-gen.c:413-430 | each base-64 index is the next six bits of the input |
| OtpEncoding.DigitsDetermineBits | Source/package/otpw/otpwPatch/otpw-gen.c:413-455 | digits of any width determine the bits they are made from, and are determined by them |
| OtpEncoding.EncodingDeterminesBits | Source/package/otpw/otpwPatch/otpw-gen.c:413-455 | equal encodings exactly for equal leading bits |
| OtpEncoding.Tables | Source/package/otpw/otpwPatch/otpw-gen.c:413-455 | the characters of both encodings, in order |
| OtpEncoding.ConvBase64 | Source/package/otpw/otpwPatch/otpw-gen.c:413-430 | fills the buffer with the encoding of the first 6 * chars bits and a NUL, nothing else changes |
| OtpEncoding.ConvBase32 | Source/package/otpw/otpwPatch/otpw-gen.c:440-455 | the same for 5 * chars bits, with the int that collects bytes wrapping at 32 bits |
| OtpNormal.CleanStays | Source/package/otpw/otpwPatch/otpw-gen.c:462-488 | strings of password characters are left alone |
| OtpNormal.FixedIsClean | Source/package/otpw/otpwPatch/otpw-gen.c:462-488 | and only those are |
| OtpNormal.CleanIff | Source/package/otpw/otpwPatch/otpw-gen.c:462-488 | which characters these are |
| OtpNormal.NormalizeAlikeIff | Source/package/otpw/otpwPatch/otpw-gen.c:462-488 | which strings normalize alike: those whose letters, digits and seven marks, all else dropped, are one by one the same or easily confused glyphs |
| OtpNormal.NormalizeIsIdempotent | Source/package/otpw/otpwPatch/otpw-gen.c:462-488 | normalizing twice changes nothing, for every string |
| OtpNormal.PwNorm | Source/package/otpw/otpwPatch/otpw-gen.c:462-488 | compacts in place to the normal form and its NUL, and leaves what is behind alone |
| OtpSpacer.SpacedLength | Source/package/otpw/otpwPatch/otpw-gen.c:529-540 | exactly pwlen - pwchars spaces |
| OtpSpacer.SpacedKeepsText | Source/package/otpw/otpwPatch/otpw-gen.c:572-583 | no character is lost, repeated or moved |
| OtpSpacer.SpacedGroups | Source/package/otpw/otpwPatch/otpw-gen.c:572-583 | more than five characters stand in groups of three or four |
| OtpSpacer.SpacedAt | Source/package/otpw/otpwPatch/otpw-gen.c:572-583 | where each character comes to stand |
| OtpSpacer.ShortStays | Source/package/otpw/otpwPatch/otpw-gen.c:529-540 | up to five characters get no space |
| OtpSpacer.StepOnLine | Source/package/otpw/otpwPatch/otpw-gen.c:572-583 | the error term stays in range, and places all spaces before the first character is reached |
| OtpSpacer.Space | Source/package/otpw/otpwPatch/otpw-gen.c:572-583 | the loop that shifts the buffer over itself gives exactly the spaced form of what it held, and leaves what is behind alone |
| OtpPassword.EntropyFits | Source/package/otpw/otpwPatch/otpw-gen.c:528-568 | at least the requested entropy is used, and a request is accepted exactly up to the reported maximum |
| OtpPassword.PasswordLength | Source/package/otpw/otpwPatch/otpw-gen.c:528-552 | the password has the announced length |
| OtpPassword.NormalizedPassword | Source/package/otpw/otpwPatch/otpw-gen.c:565-583 | normalizing gives exactly the unspaced encoding |
| OtpPassword.PasswordCarriesBits | Source/package/otpw/otpwPatch/otpw-gen.c:518-602 | the normalized password has pwchars characters and is determined by, and determines, exactly the used input bits, for all three types |
| OtpPassword.QueriesAnswer | Source/package/otpw/otpwPatch/otpw-gen.c:518-563 | the four queries answer the length of the password, its length without spaces, the number of bits it carries and the largest entropy accepted |
| OtpSpelled.Base64Spelled | Source/package/otpw/otpwPatch/otpw-gen.c:413-583 | character i of a base-64 password is the table entry that input bits 6i to 6i+5 number, counted from the highest bit of each byte |
| OtpSpelled.Base32Spelled | Source/package/otpw/otpwPatch/otpw-gen.c:440-583 | the same in groups of five bits for base 32 |
| OtpSpelled.WordsSpelled | Source/package/otpw/otpwPatch/otpw-gen.c:585-594 | word i is the one that input bits 11i to 11i+10 number, counted from the lowest bit of each byte |
| OtpPassword.WordNumber | Source/package/otpw/otpwPatch/otpw-gen.c:586-589 | the eleven bits that choose a word |
| OtpPassword.WordPassword | Source/package/otpw/otpwPatch/otpw-gen.c:585-594 | the words with single spaces, the last one replaced by the NUL |
| OtpPassword.WordsNeedEntropy | Source/package/otpw/otpwPatch/otpw-gen.c:585-594 | the final NUL goes in front of the buffer exactly for words with no entropy, otherwise right behind the password |
| OtpPassword.MakePasswd | Source/package/otpw/otpwPatch/otpw-gen.c:518-602 | every return code and query, -1 to -4 for the errors, and the password in the buffer with nothing behind it changed |
| OtpPassword.HashedText | Source/package/otpw/otpwPatch/otpw-gen.c:1162-1185 | the pwchars characters hashed for a list entry are the whole normalized password |
| OtpList.TurnsAreUnique | Source/package/otpw/otpwPatch/otpw-gen.c:1142-1147 | places of the list and turns of the loops correspond one to one |
| OtpList.TurnInRange | Source/package/otpw/otpwPatch/otpw-gen.c:1142-1147 | every place has its turn |
| OtpList.Fill | Source/package/otpw/otpwPatch/otpw-gen.c:1142-1190 | every place is filled, as one line of one column of one page, with its own challenge number and the hash made in its turn |
| OtpShuffle.ShuffledIsPermutation | Source/package/otpw/otpwPatch/otpw-gen.c:1263-1269 | every entry is printed exactly once, whatever the random numbers |
| OtpShuffle.Folded | Source/package/otpw/otpwPatch/otpw-gen.c:1263-1269 | a draw takes the random number itself, folded into the range |
| OtpShuffle.ExactlyCyclicOrders | Source/package/otpw/otpwPatch/otpw-gen.c:1263-1269 | which orders can come out: those that make one single cycle with the order of the list |
| OtpShuffle.ComesOutIsCyclic | Source/package/otpw/otpwPatch/otpw-gen.c:1263-1269 | every order that comes out is one of these |
| OtpShuffle.CyclicComesOut | Source/package/otpw/otpwPatch/otpw-gen.c:1263-1269 | random numbers for each of them |
| OtpShuffle.NeverInMirroredPlace | Source/package/otpw/otpwPatch/otpw-gen.c:1263-1269 | no entry is printed in its mirrored place |
| OtpShuffle.PrintShuffled | Source/package/otpw/otpwPatch/otpw-gen.c:1263-1269 | the loop over the buffer prints that permutation |
| CadenceState.ResponsesAreSound | Source/cpu/RK3568/drivers/MxGpio/MxGpioDrv.c:153-238 | every table cadence has bits to play, and a finite one ends with its pin off |
| CadenceRuns.EffectIsValid | Source/cpu/RK3568/drivers/MxGpio/MxGpioDrv.c:815-1297 | every request, clear and tick keeps the least busy row playing |
| CadenceRuns.Run | Source/cpu/RK3568/drivers/MxGpio/MxGpioDrv.c:1147-1297 | and so does every run |
| CadenceRuns.OnlyLeastBusyRowPlays | Source/cpu/RK3568/drivers/MxGpio/MxGpioDrv.c:1236-1269 | a pin is driven only for the least busy row |
| CadenceRuns.PlayFirst | Source/cpu/RK3568/drivers/MxGpio/MxGpioDrv.c:1238-1269 | a tick drives the first of the bits that a finite job still has to drive |
| CadenceRuns.NothingIsLost | Source/cpu/RK3568/drivers/MxGpio/MxGpioDrv.c:1231-1297 | driven bits and pending bits together stay the bits of the job, across any preemptions, unless it is set again or cleared |
| CadenceRuns.FiniteResponse | Source/cpu/RK3568/drivers/MxGpio/MxGpioDrv.c:1181-1297 | a finite response drives its pin with exactly its bits, its number of cycles times |
| CadenceRuns.WholeEndsOff | Source/cpu/RK3568/drivers/MxGpio/MxGpioDrv.c:153-238 | and leaves the pin off |
| CadenceRuns.EndlessCyclesOn | Source/cpu/RK3568/drivers/MxGpio/MxGpioDrv.c:1238-1269 | a never-ending job plays its bits round and round and continues after preemption where it was |
| CadenceRequests.RequestSetsCell | Source/cpu/RK3568/drivers/MxGpio/MxGpioDrv.c:1005-1206 | a request puts its job into the row of its priority and touches no other row |
| CadenceRequests.RequestPlays | Source/cpu/RK3568/drivers/MxGpio/MxGpioDrv.c:705-1297 | from any state a request plays the bits of its table entry, low bit first, however it is preempted: its number of cycles and no more, or round and round |
| CadenceRequests.NothingWhileFilling | Source/cpu/RK3568/drivers/MxGpio/MxGpioDrv.c:1231-1237 | ticks between a request and the synchronization drive nothing |
| CadenceRequests.RequestThenTicks | Source/cpu/RK3568/drivers/MxGpio/MxGpioDrv.c:705-1297 | after a request and the synchronization n ticks drive the first n bits of the response, if no busier row is in the way |
| CadenceRequests.NothingAfterClear | Source/cpu/RK3568/drivers/MxGpio/MxGpioDrv.c:815-929 | after a clear, too, nothing is driven until the synchronization |
| CadenceRequests.ClearThenTicks | Source/cpu/RK3568/drivers/MxGpio/MxGpioDrv.c:815-1297 | and then one tick drives one bit of what the clear left of a job, if no busier row is in the way |
| CadenceRequests.ClearedLedGoesOff | Source/cpu/RK3568/drivers/MxGpio/MxGpioDrv.c:815-1297 | a cleared LED goes off with the first tick, in the cases in which it is switched off at all |
| CadenceProgress.TickCountsDown | Source/cpu/RK3568/drivers/MxGpio/MxGpioDrv.c:1231-1297 | without requests every tick brings the first never-ending row one tick nearer |
| CadenceProgress.EndlessRowIsReached | Source/cpu/RK3568/drivers/MxGpio/MxGpioDrv.c:1231-1297 | it plays from exactly the tick on that the remaining cycles of the rows before it add up to |
| CadenceProgress.IdleRowIsEndless | Source/cpu/RK3568/drivers/MxGpio/MxGpioDrv.c:1681-1682 | with the idle row uncleared there is such a row |
| CadenceProgress.EndlessStays | Source/cpu/RK3568/drivers/MxGpio/MxGpioDrv.c:1231-1297 | a never-ending job stays one until it is set again or cleared |
| CadenceProgress.ElsewhereSpares | Source/cpu/RK3568/drivers/MxGpio/MxGpioDrv.c:815-929 | requests and clears that concern other rows or other pins leave a job alone |
| CadenceProgress.ClearedLed | Source/cpu/RK3568/drivers/MxGpio/MxGpioDrv.c:815-929 | the bits that any LED has left after any way of clearing: a cleared one exactly one, off, unless the same call clears the buzzer and the other LED is dark or cleared: then none; a dropped one none |
| CadenceProgress.ClearedBuzzer | Source/cpu/RK3568/drivers/MxGpio/MxGpioDrv.c:815-929 | the same for the buzzer |
| CadenceDriver.Driver.constructor | Source/cpu/RK3568/drivers/MxGpio/MxGpioDrv.c:1637-1682 | the driver comes up with the idle response |
| CadenceDriver.Driver.UpdateCadPriority | Source/cpu/RK3568/drivers/MxGpio/MxGpioDrv.c:1147-1168 | finds the least busy row, or leaves the current one |
| CadenceDriver.Driver.FillStructOfLedBuz | Source/cpu/RK3568/drivers/MxGpio/MxGpioDrv.c:1181-1206 | sets one job from the tables: the cell that RequestPlays is about |
| CadenceDriver.Driver.SetLedCad | Source/cpu/RK3568/drivers/MxGpio/MxGpioDrv.c:1005-1014 | both LEDs, with what they then play in RequestPlays, or an error code |
| CadenceDriver.Driver.SetBuzzerCad | Source/cpu/RK3568/drivers/MxGpio/MxGpioDrv.c:705-713 | the buzzer, with what it then plays in RequestPlays, or an error code |
| CadenceDriver.Driver.ClearCadence | Source/cpu/RK3568/drivers/MxGpio/MxGpioDrv.c:815-929 | the three ways of clearing LEDs and buzzer |
| CadenceDriver.Driver.SyncBuzLedCad | Source/cpu/RK3568/drivers/MxGpio/MxGpioDrv.c:1217-1220 | ticks count again after a request |
| CadenceDriver.Driver.ProcBuzLedCad | Source/cpu/RK3568/drivers/MxGpio/MxGpioDrv.c:1231-1297 | one tick: the pins driven and the new table |
| UsbCommands.CommandReachesBlockIff | Source/cpu/RK3568/uboot/u-boot/common/usb_storage.c:1080-1112 | the command asks for the right count, and for the right block exactly if its address fits four bytes |
| UsbCommands.CommandReachesUnitIff | Source/cpu/RK3568/uboot/u-boot/common/usb_storage.c:1080-1112 | the unit is in the upper three bits of byte 1, the right one exactly if it is below 8, and the unused bytes are zero |
| UsbCommands.OnlyRequestedBlocks | Source/cpu/RK3568/uboot/u-boot/common/usb_storage.c:1176-1212 | every attempt addresses requested blocks only, at most max_xfer_blk of them |
| UsbCommands.CompleteIffLastSucceeds | Source/cpu/RK3568/uboot/u-boot/common/usb_storage.c:1176-1217 | all blocks are moved exactly if the last attempt succeeded; otherwise it was the third failure in a row |
| UsbCommands.AttemptsAreBounded | Source/cpu/RK3568/uboot/u-boot/common/usb_storage.c:1176-1212 | at most three attempts for each chunk |
| UsbCommands.TransferConcat | Source/cpu/RK3568/uboot/u-boot/common/usb_storage.c:1176-1212 | full chunks followed by a transfer are a transfer |
| UsbTransfer.Storage.RequestSense | Source/cpu/RK3568/uboot/u-boot/common/usb_storage.c:1011-1029 | sends 03, puts the data pointer of the shared command block back, and moves no block |
| UsbTransfer.Storage.Transport | Source/cpu/RK3568/uboot/u-boot/common/usb_storage.c:1011-1112 | the device does what the bytes of the command block say: 28 moves blocks to memory, 2A to the device, anything else neither |
| UsbTransfer.Storage.Read10 | Source/cpu/RK3568/uboot/u-boot/common/usb_storage.c:1080-1095 | one attempt: the device is told to read the addressed blocks |
| UsbTransfer.Storage.Write10 | Source/cpu/RK3568/uboot/u-boot/common/usb_storage.c:1097-1112 | one attempt: the device is told to write the addressed blocks |
| UsbTransfer.Storage.ReadChunk | Source/cpu/RK3568/uboot/u-boot/common/usb_storage.c:1185-1203 | up to three tries at reading one chunk; nothing is written to the device |
| UsbTransfer.Storage.WriteChunk | Source/cpu/RK3568/uboot/u-boot/common/usb_storage.c:1271-1289 | up to three tries at writing one chunk; memory stays as it is |
| UsbTransfer.Storage.Read | Source/cpu/RK3568/uboot/u-boot/common/usb_storage.c:1142-1218 | the number of blocks returned have arrived in order at the right offsets, nothing outside the buffer changes and nothing on the device; the attempts, with unit and direction as the device sees them, follow the protocol |
| UsbTransfer.Storage.Write | Source/cpu/RK3568/uboot/u-boot/common/usb_storage.c:1224-1304 | the number of blocks returned are on the device in order, no other block and no memory changes, the attempts, with unit and direction as the device sees them, follow the protocol |
| UdpChecksum.PaddingIsZero | Source/cpu/RK3568/uboot/u-boot/net/net.c:1284-1290 | an odd segment counts as if a zero byte followed |
| UdpChecksum.WordSumConcat | Source/cpu/RK3568/uboot/u-boot/net/net.c:1266-1283 | pseudo-header and segment may be summed one after the other |
| UdpChecksum.Folded | Source/cpu/RK3568/uboot/u-boot/net/net.c:1291-1294 | folding ends within 16 bits with the same residue modulo 65535, and gives 0 only for 0 |
| UdpChecksum.Accept | Source/cpu/RK3568/uboot/u-boot/net/net.c:1261-1298 | accepted exactly without a checksum or with a word sum that is a multiple of 65535 |
| UdpChecksum.DatagramIsAcceptedIff | Source/cpu/RK3568/uboot/u-boot/net/net.c:1261-1298 | the same in terms of addresses, ports, length, checksum and data of a datagram |
| UdpChecksum.SentIsAccepted | Source/cpu/RK3568/uboot/u-boot/net/net.c:1261-1298 | a datagram with the checksum that RFC 768 has a sender compute in its checksum field is accepted |
| UdpChecksum.OneWordChangeIsNoticedIff | Source/cpu/RK3568/uboot/u-boot/net/net.c:1261-1298 | a change of one word of an accepted datagram is noticed exactly unless it is between 0 and 65535 or makes the checksum 0 |
| UdpChecksum.AddressChangeIsNoticedIff | Source/cpu/RK3568/uboot/u-boot/net/net.c:1261-1298 | the same for a word of the addresses in the IP header |

## Left out

- Reassembly: datagrams with a piece other than the last that ends at byte 16360, for which a descriptor does not fit
  into the buffer (`DescriptorFitsBehind`); fragments that overlap unequally or are empty; fragments with the same
  identification after completion; other IP header fields.
- Reassembly.Reassembler.FixList: does not model a fragment that ends at byte 16360 and is not the last.
- Watchdog: pretimeouts, governors, sysfs, the restart handler and the latency of real timers; module unloading; drivers
  whose pings fail to feed the hardware. In the timing runs the driver's stop operation returns 0 or a negative error
  number, as drivers do.
- WatchdogState.PingHardware: its contract is the rate limit only; the postponed ping is `PostponedPingComes`, the
  rearming of the worker is part of `EventKeepsSchedule`.
- WatchdogDevice.Watchdog.SetTimeoutIoctl: does not model a driver's own set_timeout, the validity test or the
  adjustment of the pretimeout; it is for timeouts that the core accepts.
- Unzip: decryption, the extra-field parsers, errors of read and write, output to memory or to a pipe, and the NEXTBYTE
  macro, whose header is not part of this model; the CRC is not computed.
- ZipInput.Input.constructor: the code that opens an archive and reads its first block (process.c) is not part of this
  model; the object starts with the first block in the buffer.
- ZipInput.Input.PerformAll: stops at the first PK_EOF, and does not model what reads give in a window that a read
  behind the end of the file has spoilt.
- ZipInput.Input.ReadByte: does not model decryption.
- ZipVms.VmsOutput.Flush: a chunk is assumed to be no larger than the translation buffer, as in the callers.
- Memory tests: the data-line phase, which sound cells always pass, the interactive loop and its abort by ctrl-c, and
  faults of single cells.
- One-time passwords: hashing, the entropy pool, AES, prompts and files; the word table is any table of 2048 different
  lower-case four-letter words, as the one in the source is.
- OtpPassword.MakePasswd: does not model a negative entropy, or the write in front of the buffer for words with no
  entropy.
- OtpList.Fill: the hash of a password is an arbitrary string for each turn; what is printed and the password file are
  not modelled.
- Cadences: the pins are a log of what they are driven with; ticks that fall in the 10 ms after a request do nothing,
  and their rescheduling in real time is not modelled. The initialisation loop of the table never runs in the source;
  the table is zero anyway. The input pins and their sampling, the ioctl that reads the table back and all other
  outputs.
- USB: probing, inquiry, capacity, the transport protocols and the asynchronous mode; a transport is one that moves the
  whole chunk or fails.
- UsbTransfer.Storage.Read: says what arrived only when block addresses fit 32 bits and the unit is below 8; beyond that
  other blocks, or another unit, are read (`CommandReachesBlockIff`, `CommandReachesUnitIff`).
- UsbTransfer.Storage.Write: likewise says where blocks are only when block addresses fit 32 bits and the unit is below
  8.
- UdpChecksum.OneWordChangeIsNoticedIff: does not model a change of the length field, which also moves the end of the
  checked bytes, or of the single last byte of an odd segment.
- UdpChecksum.Accept: assumes that the memory behind the header holds as many bytes as the UDP length field says.
