# Verified model of the computational storage user-space programs

This project models three user-space components of the NVMe computational storage device in Dafny and proves
properties of them over all inputs, all failures and all interleavings.

* **The self-encrypting disk** (`firmware/crypt`). Worker processes receive an NVMe command with its data, put every
  512-byte sector through AES-256-CBC with one constant key and IV, and send a completion and the transformed data
  back. `CbcMode.dfy` is CBC as section 6.2 of NIST SP 800-38A defines it, over an abstract invertible block cipher;
  `Evp.dfy` the cipher context and the one-shot calls; `Lba.dfy` the sector loops; `CommandWorker.dfy` the worker with its
  two persistent buffers; `TransparentDisk.dfy` the disk the host sees when commands take effect one at a time;
  `ConcurrentDisk.dfy` the same with several workers busy at once.
* **The TCP-over-NVMe relay** (`host/socket_relay`). `RelayThreads.dfy` has the relay commands and the two thread bodies,
  `SocketRelay.dfy` the interleaved system of both threads, the client and the shared descriptors.
* **Packed requests and properties** (`host/snia_cs_api`). `ComputeApi.dfy`: variable-length records through a 4096-byte
  buffer.

`Bytes.dfy` holds what the three share: bitwise operators, in-place writes, little-endian words.

Main results: the disk is indistinguishable from a plain one (`TransparentDisk.Transparent`,
`TransparentDisk.ReadsReturnLastWrite`, `TransparentDisk.AnswersAreRight`), whichever worker serves a command
(`TransparentDisk.WorkersAreInterchangeable`), and overlapping commands are linearizable (`ConcurrentDisk.Linearizable`,
`ConcurrentDisk.RealTime`, `ConcurrentDisk.ServedExactlyOnce`, `ConcurrentDisk.NeverStuck`);
the relay's streams, close discipline and termination (`SocketRelay.HostToDevice`, `SocketRelay.DeviceToHost`,
`SocketRelay.CloseDiscipline`, `SocketRelay.JointTermination`, `SocketRelay.ReturnsExactlyWhenWinding`); the
packed transfers (`ComputeApi.RequestDelivered`, `ComputeApi.PropertiesIntact`).

Calls into code that cannot be seen are parameters. A `Fault` says which cipher library call of a sector fails, and what
a failing update leaves behind; a `ReadResult`, `ToTurn`, `FromTurn` or `Label` says what a read, write or NVMe command
returned. Every theorem holds for all of them.

Where code and documentation disagree the model follows the code:

* A command other than read, write and write-zeroes that carries data is passed through but always completed with the
  internal-error status, because `ret` stays 0 (firmware/crypt/main.c:369 and 394-403).
* The short-read guard compares with the size of a pointer, 8 (firmware/crypt/main.c:351); messages of 8 to 63 bytes make
  the data size wrap. From 48 bytes on the reply size wraps back, and a read, write or write-zeroes is refused with a
  truncated completion; `CommandWorker.AccessesInside` says exactly which messages stay inside the buffers.
* A short socket write drops the rest of its chunk (host/socket_relay/main.c:175; `SocketRelay.DeviceToHost` says exactly
  when the client's stream loses bytes, `SocketRelay.ShortWriteLoses` gives a run).
* A failed relay write ends its thread without closing the relay (host/socket_relay/main.c:153-156), so `communicate` then
  need not return (`SocketRelay.ReturnsExactlyWhenWinding`, `SocketRelay.FailedWriteLeavesRelayOpen`).
* The relay read waits 24 hours (host/socket_relay/main.c:118), not the 0 of host/socket_relay/README.md:161.
* `Length` is documented as updated by `csQueryDeviceProperties` (host/snia_cs_api/cs.h:676) but is only read.

## Model

| member | source | states |
|---|---|---|
| CbcMode.CbcEquations | firmware/crypt/aes_cbc.c:27-53 | Every output block satisfies the CBC equation of the standard for its direction, chaining from the IV or from the neighbouring ciphertext block. |
| CbcMode.CbcSplit | firmware/crypt/aes_cbc.c:35-43 | Feeding the cipher in pieces from the running chaining value gives the output of feeding it all at once. |
| CbcMode.CbcRoundTrip | firmware/crypt/aes_cbc.c:7-122 | For every whole number of blocks, encryption and decryption with the same key and IV undo each other in both orders, given only an invertible block cipher. |
| Bytes.XorByteBits | firmware/crypt/aes_cbc.c:27-39 | The operation the chaining uses is exclusive-or: each of the eight bits is 1 exactly where the operands differ. |
| Evp.Library.NewContext | firmware/crypt/aes_cbc.c:14-18 | A context is handed out, and counted, exactly when the allocation does not fail. |
| Evp.Context.Init | firmware/crypt/aes_cbc.c:27-30 | After a successful initialisation the context is an empty stream in the given direction under the given key and IV, with padding still on. |
| Evp.Context.Update | firmware/crypt/aes_cbc.c:35-43 | The output area receives exactly the growth of the CBC of everything fed so far; a negative length or a failure is reported, and nothing outside the given area changes. |
| Evp.Context.Final | firmware/crypt/aes_cbc.c:45-53 | With padding off the final call emits nothing and succeeds exactly when no residue is left and it does not itself fail. |
| Evp.AesEncrypt | firmware/crypt/aes_cbc.c:7-64 | Returns the full length exactly for whole blocks with no failing call, else -1; writes exactly its region as the fault allows; every context created is released once on every path. |
| Evp.AesDecrypt | firmware/crypt/aes_cbc.c:66-122 | The same for decryption. |
| Evp.OneShotBytes | firmware/crypt/aes_cbc.c:27-53 | Byte by byte what a one-shot call leaves in its output area: untouched before the update, junk where an update failed, else the CBC of the whole blocks, even when the final call fails. |
| Lba.MisalignedIsRemainder | firmware/crypt/main.c:417-418 | The bit-mask test on a 32-bit length is exactly non-divisibility by 512, for negative lengths too. |
| Lba.LbaEncrypt | firmware/crypt/main.c:411-428 | Return value and whole output buffer for every length, key, IV and pattern of cipher failures; no context leaks. |
| Lba.LbaDecrypt | firmware/crypt/main.c:430-446 | The same for decryption. |
| Lba.FailureFrame | firmware/crypt/main.c:417-425 | With sector f the first to fail, each earlier sector is its full transform, sector f as its failing call leaves it and each later one untouched; a misaligned length writes nothing. |
| Lba.BufferReturnValue | firmware/crypt/main.c:417-427 | A buffer call returns the full length exactly when it is whole sectors and no call for one of them fails, else -1. |
| Lba.SectorOfSectors | firmware/crypt/main.c:421-425 | Sector i of the output is the CBC of sector i of the input from the constant IV, whatever the other sectors hold. |
| Lba.SectorsConcat | firmware/crypt/main.c:421-425 | Processing a concatenation of aligned buffers equals concatenating the separate results. |
| Lba.SliceDecrypts | firmware/crypt/main.c:439-443 | Any sector-aligned slice of data encrypted in one call decrypts to the same slice of the plaintext. |
| Lba.SectorsRoundTrip | firmware/crypt/main.c:411-446 | The sector transforms of the two directions are mutually inverse on whole sectors. |
| Lba.BufferRoundTrip | firmware/crypt/main.c:411-446 | Two opposite buffer calls that return the full length restore the buffer, in both orders and whatever the output areas held. |
| Lba.BufferEquations | firmware/crypt/main.c:421-443 | The CBC equations over a whole buffer, with the chain restarting from the IV at each sector. |
| Lba.EncryptLocality | firmware/crypt/main.c:421-425 | Altering one plaintext block alters exactly that ciphertext block and the later ones of the same sector. |
| Lba.DecryptLocality | firmware/crypt/main.c:439-443 | Altering one ciphertext block alters exactly that plaintext block and, within the sector, the next. |
| CommandWorker.AccessesInside | firmware/crypt/main.c:343-405 | With the sizes as the machine computes them, every access stays inside the two buffers exactly for messages of at least 64 bytes, and for 48 to 63 bytes with a transforming opcode; data and reply sizes are sound exactly from 64 and from 48 bytes on. |
| CommandWorker.KeyAndIv | firmware/crypt/main.c:280-291 | The characters of the constant key and IV. |
| CommandWorker.Worker.Handle | firmware/crypt/main.c:361-405 | The reply and the whole output buffer for every message that stays inside the buffers, every opcode and fault pattern. |
| CommandWorker.Worker.Run | firmware/crypt/main.c:343-409 | The replies of the loop over any sequence of reads, and that it stops exactly at the first end of file, short read or error. |
| CommandWorker.StatusOfReply | firmware/crypt/main.c:368-403 | Status 0 exactly when there is no data, or the opcode is 1, 2 or 8, the data is whole sectors and no cipher call fails; else 6; every other completion byte is 0. Also for the truncated completion of a message of 48 to 63 bytes. |
| CommandWorker.ReplyCarries | firmware/crypt/main.c:371-397 | With no failing call, opcode 2 decrypts and opcodes 1 and 8 encrypt each sector of the message on its own; every other opcode echoes the data. |
| CommandWorker.ReplyHistory | firmware/crypt/main.c:368-405 | The reply is a function of the message alone exactly when no byte of its data area is stale; every success and every pass-through is. |
| CommandWorker.OneReplyPerMessage | firmware/crypt/main.c:343-406 | Over any run, up to the read that stops it: one reply per message, in order, 48 bytes shorter, each a reply to its own message with the right completion, and each history-free one equal to a fresh worker's. |
| TransparentDisk.ReplyOutcome | firmware/crypt/main.c:371-403 | A command redirected to user space succeeds exactly when no cipher call fails, and the reply then carries the transform of its payload. |
| TransparentDisk.MessageCarries | firmware/crypt/main.c:371-386 | The message of a command has opcode 2, 1 or 8 and carries the backend sectors, the data or zeros. |
| TransparentDisk.StepRefines | firmware/crypt/main.c:371-405 | One command through one worker is one command on a plain disk, under decryption of every backend sector. |
| TransparentDisk.Transparent | firmware/README.md:34-54 | Over any run through any workers with any failures the answers are those of a plain disk, which stays the decryption of the backend, and the backend its encryption. |
| TransparentDisk.PlainDiskRemembers | firmware/README.md:54 | A sector of the plain disk holds the slice of data, or the zeros, of the last successful command that stored in it. |
| TransparentDisk.PlainDiskKeeps | firmware/README.md:54 | A sector in which no command stored holds its initial content. |
| TransparentDisk.ReadsReturnLastWrite | firmware/README.md:54 | Every sector of every successful read is the slice of the data of the last successful write that covers it, zeros if that was a write-zeroes, and the decrypted initial sector if there was none. |
| TransparentDisk.AnswersAreRight | firmware/README.md:54 | Each command of a run is refused exactly when out of reach, fails exactly when in reach and a cipher call fails, and else is done or answered with as many bytes as asked for. |
| TransparentDisk.WorkersAreInterchangeable | firmware/README.md:40-51 | Any two assignments of the same commands to any numbers of workers give the same answers and the same final backend. |
| ConcurrentDisk.Linearizable | firmware/README.md:40-54 | With commands overlapping in the workers, the backend is what a one-at-a-time run of the order leaves, and an ordinary disk that runs it holds the decryption; every response is to a submitted command, which the order has at its place, and carries the answer of both runs there. |
| ConcurrentDisk.RealTime | firmware/README.md:40-54 | Every command is placed between its own submission and its own response, by the worker it was submitted to; a command answered before another is submitted comes before it in the order. |
| ConcurrentDisk.ServedExactlyOnce | firmware/README.md:40-54 | Every place in the order and every submission belongs to exactly one response or busy worker, and a busy worker holds the command submitted to it: nothing is lost, invented or served twice. |
| ConcurrentDisk.NeverStuck | firmware/README.md:40-54 | Wherever a run has got to, an idle worker takes any command, and the busy workers can finish, after which every submitted command has its response. |
| RelayThreads.FrameRoundTrip | host/socket_relay/main.c:122-129 | The frame of a payload of up to 4092 bytes unpacks to that payload. |
| RelayThreads.FrameSizeBytes | host/socket_relay/main.c:122-123 | The size is the little-endian word at the start of the frame. |
| RelayThreads.ReadRelay | host/socket_relay/main.c:110-131 | Returns the declared size and copies exactly that payload, or -1 with the buffer untouched when the command fails or the buffer is too small. |
| RelayThreads.WriteRelay | host/socket_relay/main.c:91-108 | The frame carries the first 4096 bytes of the data, and the length declared is that of all of it. |
| RelayThreads.RelayToNvme | host/socket_relay/main.c:133-160 | The calls of the thread, what the device accepts over them and where the thread ends, for any outcomes. |
| RelayThreads.RelayFromNvme | host/socket_relay/main.c:162-188 | The same for the other thread, which shuts the socket down however its loop ends. |
| RelayThreads.ToThreadPath | host/socket_relay/main.c:139-157 | Those calls are a path of the thread's control graph, closing exactly after a read of 0 or less. |
| RelayThreads.FromThreadPath | host/socket_relay/main.c:167-187 | Those calls are a path of the other thread's control graph. |
| SocketRelay.ToThreadInSystem | host/socket_relay/main.c:133-160 | In every interleaving in which the thread makes the calls of its body, the device holds exactly what the body hands over and the thread is where the body ends; such an interleaving exists. |
| SocketRelay.FromThreadInSystem | host/socket_relay/main.c:162-188 | The same for the other thread and what the client receives. |
| SocketRelay.ThreadsFollowTheirCode | host/socket_relay/main.c:133-202 | In every interleaving each thread's own calls are a path of its control graph. |
| SocketRelay.Invariant | host/socket_relay/main.c:133-202 | In every run what the client sent is what was read and what is queued, what was read is what the device accepted and the chunk in hand, and all payloads but at most one are served. |
| SocketRelay.Ledger | host/socket_relay/main.c:133-202 | The streams of every run are those that its calls add up to: sent, read, accepted, payloads and delivered. |
| SocketRelay.HostToDevice | host/socket_relay/main.c:133-160 | In terms of the calls alone, what the device accepted is a prefix of what was read from the client, at most 4096 bytes behind, all of it once a read has returned 0 or less, and everything sent after an end of file. |
| SocketRelay.DeviceToHost | host/socket_relay/main.c:162-188 | The client gets one non-empty prefix per served payload, in order; bytes are lost exactly when a socket write is short, and otherwise its stream is a prefix of the device's. |
| SocketRelay.ShortWriteLoses | host/socket_relay/main.c:175-180 | A run in which a short socket write loses a byte in the middle of the client's stream. |
| SocketRelay.CloseDiscipline | host/socket_relay/main.c:139-157 | The relay is closed at most once, right after a read of 0 or less, no call of that thread follows, and after such a read only the close can follow. |
| SocketRelay.ClosedExactlyAfterReadEnd | host/socket_relay/main.c:139-157 | Closing was issued exactly when the thread ended by closing; it ended open exactly when a relay write failed. |
| SocketRelay.ShutDiscipline | host/socket_relay/main.c:167-187 | The socket is shut down at most once, right after a relay read without payload or a socket write that took nothing; no call of that thread follows, and after such a call only the shutdown can. |
| SocketRelay.JointTermination | host/socket_relay/main.c:186-202 | Once the socket is shut down or the relay closed, the threads make at most twice the unread bytes plus 6 further calls, can always complete one while either runs, and so both end. |
| SocketRelay.ReturnsExactlyWhenWinding | host/socket_relay/main.c:153-202 | After the client-to-device thread has ended, the calls still to come are bounded exactly when the relay was closed, the socket shut down or the other thread has left its loop. |
| SocketRelay.FailedWriteLeavesRelayOpen | host/socket_relay/main.c:153-156 | A run in which a relay write fails and the other thread is left in its loop on an open relay. |
| ComputeApi.HelperSetComputeArg | host/snia_cs_api/cs_api_nvme_tsp.c:584-619 | Sets the type word and the bytes of the matching union member in place, nothing else; a null argument changes nothing. |
| ComputeApi.SetThenGet | host/snia_cs_api/cs_api_nvme_tsp.c:584-619 | The argument set is the argument read back, for every kind and value. |
| ComputeApi.ArgumentBytes | host/snia_cs_api/cs.h:282-300 | The type number and value of an argument at their places in the request, and the unused bytes of its union left alone. |
| ComputeApi.SetKeepsOthers | host/snia_cs_api/cs.h:282-300 | Setting argument i preserves every other argument and the head of the request. |
| ComputeApi.RequestRoundTrip | host/snia_cs_api/cs.h:282-300 | A request filled argument by argument reads back as exactly those arguments under the same head. |
| ComputeApi.RequestFits | host/snia_cs_api/cs_api_nvme_tsp.c:210-227 | The size is 32 + 20 (NumArgs - 1), 32 for none, covers head and arguments exactly, and fits the 4096-byte buffer exactly for 0 to 204 arguments; negative counts wrap. |
| ComputeApi.ArgumentCount | host/snia_cs_api/cs.h:293-300 | The argument count is the signed little-endian word at byte 8. |
| ComputeApi.ComputeOperation | host/snia_cs_api/cs_api_nvme_tsp.c:234-254 | The transfer buffer starts with the whole request, and its size is what is announced. |
| ComputeApi.DeviceSeesRequest | host/snia_cs_api/cs_api_nvme_tsp.c:241-251 | The device reads the caller's argument count and arguments from the transfer buffer. |
| ComputeApi.RequestDelivered | host/snia_cs_api/cs_api_nvme_tsp.c:234-254 | A request for up to 204 arguments, filled argument by argument and copied through the transfer buffer, gives the device exactly those arguments. |
| ComputeApi.GetProperties | host/snia_cs_api/cs_api_nvme_tsp.c:97-135 | Status and buffer content for every device answer and caller size. |
| ComputeApi.SizeRequired | host/snia_cs_api/cs_api_nvme_tsp.c:113-122 | The size is 58 + 50 max(n, 1) for n up to 80 engines and 4096 beyond, n being the word at byte 56. |
| ComputeApi.QueryDeviceProperties | host/snia_cs_api/cs_api_nvme_tsp.c:643-666 | Each status exactly under its condition, success in plain numbers; after success the buffer starts with that many bytes of the device and is unchanged past them. |
| ComputeApi.PropertiesIntact | host/snia_cs_api/cs_utils.c:28-33 | After success the records the printing loop reads are the device's own, whatever lies past the transfer buffer, exactly when there are at most 80. |

## Left out

- CommandWorker.Worker.Handle: leaves out messages on which the original accesses memory outside its buffers: 8 to 47 bytes, and 48 to 63 bytes with another opcode than read, write and write-zeroes; `CommandWorker.AccessesInside` proves that these are exactly the ones.
- CommandWorker.Worker.Run: leaves out the same messages; the result of writing the reply is ignored, as in the original.
- RelayThreads.ReadRelay: requires a declared size of at most 4092 when the command does not fail, which the original asserts.
- RelayThreads.WriteRelay: does not say what fills the frame beyond the data, which the original leaves uninitialised.
- ComputeApi.ComputeOperation: requires that the request fits its own memory and the transfer buffer; the original copies without a check, and for a count outside 0 to 204 overruns its buffer (`ComputeApi.RequestFits`).
- SocketRelay.JointTermination: assumes that closing the relay completes every relay read with an error or size 0, and that no client data arrives after the socket is shut down.
- TransparentDisk.Transparent: the kernel side is stated here, not verified: read data passes through the worker on its way to the host, written data on its way to the backend (zeros for write-zeroes), out-of-range commands are refused, and a failed completion changes nothing.
- ConcurrentDisk.Linearizable: assumes that fetching the data of a read and applying the data of a write are each atomic on the backend.
- AES itself, the key schedule and OpenSSL internals: an abstract invertible block function. Padding on is not modelled, since both callers switch it off before any data.
- The raw status value and the unset command identifier of a completion: what the kernel makes of them is not part of this model. Multi-byte fields are little-endian.
- `tsp_nvme_open_relay`, `tsp_nvme_get_function_id`, `tsp_nvme_get_capabilities`, `csAllocMem` and device discovery: single commands with fixed copies.
- Option parsing, socket set-up, file and device opening, `mmap`, logging: no behaviour to prove.
- The stubs of the compute API, the demos, the latency tools and the hardware files.
