# A Dafny model of the Shadowsocks proxy

The project models the parts of the proxy whose correctness is hardest to see
from the code, and proves properties of them for all inputs, all runs and all
interleavings.

1. **The stream codec** (`StreamFormat`, `StreamWriter`, `SlicePool`,
   `StreamReader`, `StreamSession`, `SharedPool`). `StreamFormat` says what a list of chunks
   looks like on the wire and what a reader makes of a byte stream. The writer
   and the reader are classes over real byte arrays that are proved against
   these definitions, including encryption in place, the overlapping copy, the
   flush that other threads may call while a read is pending, and the buffers
   that any number of readers borrow from one pool.
2. **Authentication and replay defence** (`Replay`, `ServerSalt`,
   `CipherList`, `KeySearch`, `Handshake`, `Connection`, `ServiceRun`). The two-generation replay cache is
   proved to answer like a log with a sliding window, the move-to-front key
   list like a plain list, and the handshake decision is composed of both and
   followed over whole runs on any number of ports. `Connection` joins this with
   the stream reader: the payload of a listed client reaches the target it names.
   `ServiceRun` handles a whole run of connections with shared cache and pool.
3. **UDP** (`Packet`, `NatDeadline`, `NatTable`). Packets are packed and
   unpacked in place with exact bounds. The read deadline and the fast close of
   DNS lookups are a state machine whose steps interleave reads and writes. The
   NAT table is a second one: a serve loop and any number of reaper goroutines;
   the objects of the implementation are shown to follow it through every run.
4. **Life cycle** (`ServeStop`, `Reconcile`). Any number of `Serve`, `Stop` and
   `GracefulStop` calls in any interleaving, and the application of a new
   configuration with maps iterated in any order and failures at any port.

`ByteSeqs`, `Collections`, `Crypto` and `Io` hold what these share: counters, the
laws assumed of an AEAD (met by a toy instance, so they are not contradictory),
and the byte sources and sinks, which may split, delay and fail as they like.

## Conventions

- Methods that change state say in `ensures` what the new state is, usually as
  a function of the old one; the lemmas then speak about these functions.
- Ghost fields record history: `Writer.accepted` is every plaintext byte taken
  from callers, `Writer.chunks` the payloads encrypted, `ReplayCache.log` every
  hash inserted.
- Concurrency is modelled by atomic steps between lock operations. Where a
  method releases its lock (`ReadFrom` during its first read), the model takes
  an arbitrary schedule of what other threads do meanwhile.
- A panic of the original is a precondition, so that verifying the callers
  shows that it cannot happen there.

## Where the code and its comments differ

The model follows the code.

- `ensureLeftover` says that it leaves a nonempty leftover; for a chunk with an
  empty payload it succeeds and leaves nothing (`EmptyChunkStream`).
  `ReadConverter.Read` states exactly when it delivers nothing; on streams of the
  repository's own writer, none of whose chunks is empty, that never happens
  (`ReadInSteps`).
- Errors of the reader are not final. After a failed authentication the next
  read goes on behind the block with the next nonce, and after a truncated salt
  the next read reports a clean end. `ErrorRepeats` says which errors do repeat.
- `Flush` does not clear `needFlush`; only `ReadFrom` does.
- The fast close is described as needing exactly one write. It happens with at
  most one: a DNS response that comes before any write triggers it too.
- `readDeadline` is not lowered when the fast close lowers the deadline of the
  socket. Hence, for default timeouts below 17 s, a second write can leave an
  expired socket expired: `SocketFollowsReadDeadline` states the exact condition.
- `startPort` does not close its TCP listener when it cannot listen for UDP. As
  long as the Go runtime does not close the unreachable listener, the port
  cannot be started again, and later configurations do not stop it
  (`HalfStartedStaysOpen`); `DoRun` and `RunAll` state exactly when only the
  configured ports listen.

## Model

| member | source | states |
|---|---|---|
| `ByteSeqs.Increment` | shadowsocks/stream.go:420-428 | in place, the counter becomes its successor, wrapping around on overflow |
| `ByteSeqs.SuccValue` | shadowsocks/stream.go:420-428 | one increment adds 1 to the little-endian value modulo 256^n |
| `ByteSeqs.SuccNonce` | shadowsocks/stream.go:99-103 | incrementing the counter of block k gives the counter of block k+1 |
| `ByteSeqs.NonceValue` | shadowsocks/stream.go:99-103 | the counter of block k has the value k modulo 256^n |
| `ByteSeqs.NonceCollision` | shadowsocks/stream.go:99-103 | two blocks have the same counter if and only if their indices agree modulo 256^n |
| `ByteSeqs.IsZero` | shadowsocks/stream.go:150-157 | true if and only if every byte is zero |
| `ByteSeqs.NonceZero` | shadowsocks/stream.go:239-244 | the counter reads zero exactly at multiples of 256^n, which is when the salt is sent |
| `Io.CopyDown` | shadowsocks/stream.go:225 | copying towards lower indices within one buffer is right for overlapping regions |
| `Io.Source.Next` | shadowsocks/stream.go:194 | a read takes a prefix of what is left, may return data together with the final error, and repeats that error |
| `Io.ReadFull` | shadowsocks/stream.go:321-325 | the first n bytes if there are n; otherwise end-of-file for none and unexpected end for some |
| `Io.Sink.Write` | shadowsocks/stream.go:250 | fails exactly when the plan says so, and then may have delivered any prefix |
| `Io.FailuresSince` | shadowsocks/stream.go:250-252 | a failure is counted if and only if the plan lets one of the writes in between fail, so no writer can report a failure that the sink did not have |
| `StreamFormat.MaskLength` | shadowsocks/stream.go:354 | the mask never changes a length up to 16383 |
| `StreamFormat.MaskKeepsLowBits` | shadowsocks/stream.go:354 | of a longer length it keeps the low 14 bits |
| `StreamFormat.OnTheWire` | shadowsocks/stream.go:247-428 | lengths are big-endian and counters little-endian, shown on bytes |
| `StreamFormat.PutGet` | shadowsocks/stream.go:247-354 | the reader gets the length that the writer stored, for every length a writer uses |
| `StreamFormat.SaltOnceFirst` | shadowsocks/stream.go:231-253 | for fewer than 2^95 chunks the salt is on the wire exactly once, and first |
| `StreamFormat.SaltGoesFirst` | shadowsocks/stream.go:239-250 | whatever has been sent begins with the salt |
| `StreamFormat.NoncesDistinct` | shadowsocks/stream.go:99-103 | no two of the first 2^96 blocks of a session share a nonce (section 3.1 of RFC 5116) |
| `StreamFormat.ReadBack` | shadowsocks/stream.go:336-369 | a chunk is read back from its own blocks whatever follows them, and the reader's next nonce is the writer's |
| `StreamFormat.ReadCut` | shadowsocks/stream.go:345-368 | a chunk cut before its end is never delivered; a clean end is reported as such only for a cut at its start, and a failure of the source always |
| `StreamFormat.DecodeAfterSalt` | shadowsocks/stream.go:297-315 | reading the salt first leaves the meaning of the rest unchanged |
| `StreamFormat.CompleteChunksIsLargest` | shadowsocks/stream.go:336-369 | the number of chunks counted as complete is the largest whose blocks fit into the cut |
| `StreamFormat.DecodeCutBlocks` | shadowsocks/stream.go:387-402 | blocks cut at any byte give exactly the complete chunks; the end is that of the source, clean only at a boundary |
| `StreamFormat.Truncation` | shadowsocks/stream.go:297-418 | a whole stream cut at any byte gives exactly its complete chunks, and ends as the source does, cleanly if and only if the cut is at 0, after the salt, or at a chunk boundary |
| `StreamFormat.RoundTrip` | shadowsocks/stream.go:231-369 | decoding the wire of a list of chunks gives back that list and the end of the source |
| `StreamFormat.ChunkIffBothOpen` | shadowsocks/stream.go:336-369 | a chunk is delivered if and only if both of its blocks are there and open, under this nonce and the next, and it is what the second opens to; a full block that does not open is refused; the state in every case |
| `StreamFormat.Tampering` | shadowsocks/stream.go:326-369 | a stream in which any one block has been replaced by bytes of its length that do not open yields exactly the chunks before it, and then the error of authentication |
| `StreamFormat.FlippedTagDoesNotOpen` | shadowsocks/stream.go:326-331 | there are such bytes, for the toy AEAD: any block with one bit of its tag flipped |
| `StreamFormat.PlaintextStep` | shadowsocks/stream.go:336-418 | one successful chunk read removes its payload from the front of what is still to be delivered |
| `StreamFormat.NextEmptyIsDecoded` | shadowsocks/stream.go:404-418 | the reader meets an empty chunk only in streams that contain one |
| `StreamFormat.NoneEmptyStep` | shadowsocks/stream.go:404-418 | in a stream without empty chunks every chunk read is nonempty, and so are those after it |
| `StreamFormat.EmptyChunkStream` | shadowsocks/stream.go:404-418 | a stream with an empty chunk, which is read without an error and delivers nothing |
| `StreamFormat.ErrorRepeats` | shadowsocks/stream.go:321-369 | after a failed read every further read fails in the same way if and only if the error is the one with which the source ends |
| `StreamFormat.ReadsOnAfterGarbage` | shadowsocks/stream.go:326-331 | a block that does not authenticate is skipped with its nonce, so that the next read may succeed |
| `StreamFormat.GarbageExists` | shadowsocks/stream.go:326-331 | there is such a block, for the toy AEAD |
| `StreamFormat.CutSaltThenCleanEnd` | shadowsocks/stream.go:298-306 | a truncated salt is an unexpected end for the first read and a clean end for the next |
| `StreamWriter.Writer.Init` | shadowsocks/stream.go:74-95 | sets up salt, key, counter and buffer once; the salt is what the generator has just made, and the key is derived from it; fails exactly if a salt is needed and the generator fails, and then changes nothing sent or queued |
| `StreamWriter.Writer.SaltIsFirstMade` | shadowsocks/stream.go:74-95 | after any calls the salt is the first one the generator made, and never changes |
| `StreamWriter.Writer.Allocate` | shadowsocks/stream.go:76-92 | the buffer holds the salt and one chunk of maximal size; the counter is that of block 0 |
| `StreamWriter.Writer.EncryptBlock` | shadowsocks/stream.go:99-103 | seals a region in place, steps the counter, touches nothing else |
| `StreamWriter.Writer.SealPending` | shadowsocks/stream.go:159-250 | sealing in place yields, contiguously, exactly the bytes of one flush, also when another thread's bytes land above between its steps |
| `StreamWriter.Writer.SendChunk` | shadowsocks/stream.go:235-252 | one more chunk of exactly the queued bytes is on the wire |
| `StreamWriter.Writer.FlushBeside` | shadowsocks/stream.go:231-253 | the same with a read in progress: bytes that land between its two blocks or before its write are kept, and the wire is the same |
| `StreamWriter.Writer.FlushPending` | shadowsocks/stream.go:231-253 | sends the queue as one chunk, if it is not empty, and stays below the tag of the pending payload |
| `StreamWriter.Writer.EnqueueFrom` | shadowsocks/stream.go:223-228 | queues what fits of a region of the same buffer, which may overlap its destination |
| `StreamWriter.Writer.Enqueue` | shadowsocks/stream.go:223-228 | queues what fits of a slice of the caller's |
| `StreamWriter.Writer.QueueOrSend` | shadowsocks/stream.go:124-137 | one round either takes everything or sends a completely full chunk |
| `StreamWriter.Writer.LazyWrite` | shadowsocks/stream.go:111-138 | terminates for all inputs, accepts all of p unless the salt generator or a write to the sink fails, says exactly which, and sends only chunks of 16383 bytes; what is sent and what waits is what was waiting and p, cut into the fewest chunks |
| `StreamWriter.Writer.Flush` | shadowsocks/stream.go:141-148 | sends the queue if a flush is allowed, and never touches bytes beyond pending plus overhead |
| `StreamWriter.Writer.StoreAbove` | shadowsocks/stream.go:187-194 | bytes stored by the reading thread between flushes do not disturb what a flush may use |
| `StreamWriter.Writer.FlushMeanwhile` | shadowsocks/stream.go:141-148 | `Flush` on another thread during the read: neither thread's bytes are disturbed |
| `StreamWriter.Writer.ArriveDuringFlushes` | shadowsocks/stream.go:186-196 | under every schedule of concurrent flushes, and of landings before and inside each of them, the bytes read arrive intact |
| `StreamWriter.Writer.TakeOver` | shadowsocks/stream.go:196-203 | every byte read goes behind the pending ones and into one chunk with them, flushed meanwhile or not |
| `StreamWriter.Writer.ReadWhilePending` | shadowsocks/stream.go:181-204 | for every schedule of flushes, nothing pending or read is lost, duplicated or reordered; without one, both go into a single chunk |
| `StreamWriter.Writer.TransferOnce` | shadowsocks/stream.go:206-213 | one round of the loop accepts what was read and sends it as one chunk |
| `StreamWriter.Writer.TransferAll` | shadowsocks/stream.go:206-213 | the loop sends one chunk for every read that delivers something, until the source ends or a write fails |
| `StreamWriter.Writer.ReadFrom` | shadowsocks/stream.go:173-219 | accepts everything the source has until it ends or a write of its own fails; the error says exactly which, or that no salt could be made |
| `StreamWriter.Writer.Write` | shadowsocks/stream.go:105-109 | accepts all of p after the pending data unless the sink or, exactly when it says so, the salt generator fails; unless another thread flushes, pending data and p go out in the fewest chunks |
| `StreamWriter.CutIsShortest` | shadowsocks/stream.go:222-228 | no way of cutting data into chunks takes fewer than the writer does |
| `StreamWriter.Writer.constructor` | shadowsocks/stream.go:63-65 | a new writer has sent and accepted nothing |
| `SlicePool.Pool.Get` | internal/slicepool/slicepool.go:49-51 | a buffer that no slice holds, of the right length |
| `SlicePool.Pool.Put` | internal/slicepool/slicepool.go:53-58 | only buffers of the right length are put back |
| `SlicePool.LazySlice.Acquire` | internal/slicepool/slicepool.go:73-79 | keeps the invariant that no two slices hold one buffer |
| `SlicePool.LazySlice.Release` | internal/slicepool/slicepool.go:83-88 | gives the held buffer back and keeps that invariant |
| `StreamReader.ChunkReader.Init` | shadowsocks/stream.go:297-315 | agrees with the reference definition of reading the salt |
| `StreamReader.ChunkReader.ReadMessage` | shadowsocks/stream.go:317-332 | reads and opens one block in place and steps the counter, also when authentication fails; without an error the result is what the block opens to, and a full block that does not open is an error |
| `StreamReader.ChunkReader.ReadPayload` | shadowsocks/stream.go:355-368 | the short-buffer branch is unreachable, and every error leaves the buffer released |
| `StreamReader.ChunkReader.ReadChunk` | shadowsocks/stream.go:334-369 | agrees with the reference definition, for every way in which the source splits its bytes |
| `StreamReader.ReadConverter.EnsureLeftover` | shadowsocks/stream.go:404-418 | what is still to be delivered is unchanged; nothing is left over exactly for an empty chunk; an error is that of the reference step, leaves its state, and holds no buffer |
| `StreamReader.ReadConverter.Read` | shadowsocks/stream.go:378-385 | delivers a prefix of the plaintext, an error only when none is left; without error it delivers nothing exactly for an empty buffer or an empty chunk; a stream without empty chunks ahead stays one |
| `StreamReader.ReadConverter.RelayOnce` | shadowsocks/stream.go:388-400 | one round writes a prefix of the plaintext and loses nothing when the destination fails |
| `StreamReader.ReadConverter.WriteTo` | shadowsocks/stream.go:387-402 | terminates and writes the whole plaintext; the result is nil exactly for a clean end |
| `StreamSession.Run` | shadowsocks/stream.go:105-253 | after any sequence of calls everything offered has been accepted, in order, unless something failed, and nothing waits unless the last call was a lazy write; if neither the salt generator nor the sink ever fails, nothing did |
| `StreamSession.Send` | shadowsocks/stream.go:63-253 | the same from a new writer; on a connection that never fails nothing is lost and no nonce comes back while at most 2^95 bytes are offered, and the wire begins with the salt that the generator made |
| `StreamSession.HeaderThenData` | shadowsocks/stream.go:111-138 | a header written lazily goes out together with the data written next, as if it were one write |
| `StreamSession.ReceivedDecodes` | shadowsocks/stream.go:231-369 | what was accepted is what the other end decodes followed by what is still pending; no decoded chunk is empty |
| `StreamSession.DecryptFrom` | shadowsocks/stream.go:286-402 | a new reader relays the plaintext of whatever its source delivers, or, to a destination that fails, a prefix of it, and gives the pool back valid |
| `StreamSession.DecryptTo` | shadowsocks/stream.go:286-402 | a new reader relays the plaintext of its stream however the stream is split |
| `StreamSession.Receive` | shadowsocks/stream.go:105-418 | writer and reader together: the destination receives the accepted bytes less the pending ones |
| `StreamSession.Transfer` | shadowsocks/stream.go:105-418 | from a new writer, through any sequence of calls and any splitting of the wire, to the destination: what was offered arrives, less what is pending; if connection and destination never fail and at most 2^95 bytes are offered, all of it arrives after any sequence that does not end in a lazy write |
| `StreamSession.ReadSizes` | shadowsocks/stream.go:378-385 | reads of any nonzero sizes deliver the plaintext in order, each of them something |
| `StreamSession.ReadInSteps` | shadowsocks/stream.go:105-418 | the same for what the repository's writer sent: every read without an error delivers something, and together they deliver what was accepted |
| `StreamSession.ReceiveCut` | shadowsocks/stream.go:297-418 | a valid stream cut at any byte: exactly the complete chunks arrive; a source that fails is reported with its own error, and one that ends gives nil exactly for the clean cuts |
| `StreamSession.ReceiveTampered` | shadowsocks/stream.go:297-418 | a stream with one forged block: exactly the chunks before it reach the destination, and the result is the error of authentication; nothing else reaches it even if it fails |
| `SharedPool.StepBeside` | internal/slicepool/slicepool.go:49-88 | a step of one reader, which may take, keep or return a buffer, leaves all other readers of the pool valid, and what they have yet to deliver alone |
| `SharedPool.Turn` | shadowsocks/stream.go:31-33 | after a read or a round of relaying by one of them the readers still share nothing but the pool |
| `SharedPool.OpenOne` | shadowsocks/stream.go:286-294 | a new reader joins any number of others that are in the middle of their streams |
| `SharedPool.Interleave` | shadowsocks/stream.go:31-418 | in every interleaving of arrivals of streams, reads and rounds of relaying, by any number of readers of one pool, each reader hands on its own plaintext, in order, and nothing else |
| `Replay.Generations` | service/replay.go:95-100 | the active generation holds 1 to capacity insertions, the archive capacity or none |
| `Replay.WindowBounds` | service/replay.go:43-54 | the cache covers the last min(n, capacity+1) insertions and at most 2*capacity |
| `Replay.RememberedForCapacity` | service/replay.go:80-102 | once added, a hash is refused throughout the next `capacity` calls, whatever they add |
| `Replay.ForgottenAfterOneMore` | service/replay.go:95-100 | the promise is tight: a hash that fills a generation is forgotten after capacity+1 further new ones |
| `Replay.NeverInsertedIsNew` | service/replay.go:82-101 | with the cache off, and for every hash that was never inserted, the answer is that it is new |
| `Replay.NewOnesAreInserted` | service/replay.go:100 | a run of new hashes is inserted in order |
| `Replay.ReplayCache.constructor` | service/replay.go:45-54 | an empty cache; larger capacities than 20000 panic |
| `Replay.MirrorsStep` | service/replay.go:93-101 | a full active generation takes the place of the archive, otherwise it grows; both sets again hold the window of the longer log |
| `Replay.ReplayCache.AddHash` | service/replay.go:88-101 | answers false exactly for the hashes in the window of the log, never for one that was not inserted, and moves the window |
| `Replay.ReplayCache.Add` | service/replay.go:82-102 | the same for key and salt; with capacity 0 it answers that every salt is new |
| `Replay.ReplayCache.Others` | service/replay.go:82-102 | handshakes added by other connections, in any number, leave the log that their hashes give |
| `Replay.PreHash` | service/replay.go:69-78 | the loops compute the exclusive-or of each column |
| `Replay.NearbySaltsDoNotCollide` | service/replay.go:56-78 | salts of one key that differ only within four consecutive bytes have different hashes |
| `Replay.NearbyIdsDoNotCollide` | service/replay.go:56-78 | neither do, on one salt, keys whose ids differ only within four consecutive bytes |
| `ServerSalt.GetSalt` | service/server_salt.go:98-111 | keeps the length and the random prefix, and ends in the mark of that prefix; fails exactly if the random source does or a marked salt would be shorter than its mark |
| `ServerSalt.OwnSaltsAreRecognised` | service/server_salt.go:81-120 | a marking generator recognises all its salts, an unmarking one none |
| `ServerSalt.RecognisedIffMade` | service/server_salt.go:113-120 | a salt is recognised if and only if the generator marks salts and could have made it |
| `ServerSalt.RecognisedByItsMark` | service/server_salt.go:113-120 | what is recognised is precisely a salt that ends in the tag of what is before |
| `ServerSalt.OneMarkPerPrefix` | service/server_salt.go:113-120 | two recognised salts of one length with the same prefix are the same |
| `ServerSalt.MarkedCiphers` | service/cipher_list.go:37-53 | salts are marked for every supported cipher but the one with 16-byte salts |
| `CipherList.CipherEntry.constructor` | service/cipher_list.go:37-53 | identity, cipher and the generator that fits its salt size |
| `CipherList.WherePartitions` | service/cipher_list.go:88-101 | the two passes together see every element exactly once |
| `CipherList.PartitionIsPermutation` | service/cipher_list.go:83-103 | a snapshot is a permutation of the list |
| `CipherList.WhereKeepsOrder` | service/cipher_list.go:80-94 | each pass takes precisely the elements it wants, in the order of the list |
| `CipherList.KeyList.NoClient` | service/cipher_list.go:77-102 | without a client address the keys are tried in the order of the list |
| `CipherList.FirstFlaggedComesFirst` | service/cipher_list.go:80-94 | the first matching element comes first in the snapshot |
| `CipherList.OnlyMarkedBefore` | service/cipher_list.go:105-112 | after a history of marks only elements marked in it come before the one that was in front |
| `CipherList.MoveIsPermutation` | service/cipher_list.go:105-112 | moving to the front loses and adds nothing, also for an element of a replaced list |
| `CipherList.MoveKeepsOrder` | service/cipher_list.go:105-108 | moving an element to the front leaves the others in their order |
| `CipherList.PermutationKeepsDistinct` | service/cipher_list.go:83-112 | no element occurs twice after any rearrangement |
| `CipherList.KeyList.Pass` | service/cipher_list.go:88-101 | one pass appends exactly the (not) matching elements in list order |
| `CipherList.KeyList.SnapshotForClientIP` | service/cipher_list.go:83-103 | fills its array exactly: the elements matching the client, then the others, both in list order |
| `CipherList.KeyList.MarkUsedByClientIP` | service/cipher_list.go:105-112 | moves the element to the front if it is in the list, and notes the client |
| `CipherList.KeyList.Update` | service/cipher_list.go:114-118 | replaces the contents |
| `CipherList.KeyList.Others` | service/cipher_list.go:105-118 | whatever other threads do to the list, each under its lock, it is the list after that history |
| `CipherList.KeyList.MarkThenSnapshot` | service/cipher_list.go:83-112 | a key marked for a client comes first in its next snapshot, whatever other threads do meanwhile, as long as the list is not replaced, no other client uses this key and this client no other |
| `CipherList.AlwaysWhatWasConfigured` | service/cipher_list.go:83-118 | after any history the list is a permutation of the last update |
| `KeySearch.KeyFindingBytesSuffice` | service/tcp.go:63-67 | 50 bytes are enough for every cipher, and every valid connection sends them |
| `KeySearch.DecryptOnce` | shadowsocks/cipher.go:147-160 | a decrypted text fits into the room given and is the ciphertext less its tag in length |
| `KeySearch.UnpackPacked` | shadowsocks/packet.go:25-66 | unpacking undoes packing exactly if there is room for the plaintext |
| `KeySearch.UnpackedIffOpens` | shadowsocks/packet.go:50-66 | a packet is unpacked to a text if and only if its own key opens it, under its salt and the zero nonce, to that text, and there is room; each failure has its one reason |
| `KeySearch.AuthenticatesIffOpens` | service/tcp.go:92-112 | a stream authenticates if and only if the key opens its first length block |
| `KeySearch.FirstMatchIsFirst` | service/tcp.go:93-112 | the search finds the first entry that opens the bytes, or none if none does |
| `KeySearch.OnlyMatchIsFound` | service/tcp.go:93-112 | the only entry that opens the bytes is found in every order of the list, for TCP and for UDP |
| `KeySearch.FoundIffOpened` | service/udp.go:53-72 | over the keys alone: a packet is found if and only if some key opens it and there is room |
| `KeySearch.SearchAfterAnyHistory` | service/cipher_list.go:83-118 | after any history of marks and updates and for any client, the search agrees with plain search of the configured keys |
| `KeySearch.TakeSnapshot` | service/tcp.go:70-71 | the keys to try, each exactly once |
| `KeySearch.NoteUse` | service/tcp.go:86-87 | moves the key found to the front, if it is still listed, and loses none |
| `Handshake.FindEntry` | service/tcp.go:92-112 | returns the first entry that authenticates the first length block |
| `Handshake.FindAccessKey` | service/tcp.go:69-90 | finds what plain search of the snapshot finds, whatever other threads do to the list before the mark; the reader it returns yields the client's original byte stream |
| `Handshake.Search` | service/tcp.go:77-89 | the first entry that authenticates, its salt, and a reader that repeats the bytes used |
| `Handshake.FoundIffSomeKeyOpens` | service/tcp.go:69-112 | over the keys alone: a stream is found if and only if some key opens its first length block |
| `Handshake.Rejoin` | service/tcp.go:89 | the bytes used for the search come again before the rest |
| `Handshake.Decide` | service/tcp.go:235-258 | the status and the cache after a connection are functions of the search result and of the log when its turn comes, whatever other connections do meanwhile; an error of the cipher exactly if no listed key opens the stream, a server replay exactly if its salt bears the mark, accepted otherwise if the cache is off or does not remember it |
| `Handshake.SearchIgnoresOrder` | service/tcp.go:69-112 | reordering the keys never changes the outcome when the keys that match agree |
| `Handshake.OnlyAuthenticatedEnter` | service/tcp.go:244-247 | over any run on any ports, exactly the authenticated handshakes without a server mark reach the cache |
| `Handshake.ReplayIsRefused` | service/tcp.go:235-258 | a handshake that reached the cache is refused as a client replay until more than capacity others have |
| `Handshake.AcceptedOnlyOnce` | service/tcp.go:69-258 | an accepted connection sent again to the same keys, in any order and on any port, is refused as a client replay |
| `Handshake.StreamAuthenticates` | service/tcp.go:63-67 | every stream of at least one chunk is long enough and authenticates under its own cipher |
| `Handshake.OwnStreamIsFound` | service/tcp.go:69-112 | the search recognises any stream made with a listed key: entry, salt and server mark |
| `Handshake.LegitimateIsAccepted` | service/tcp.go:235-258 | a client with a listed key is accepted if and only if its salt does not bear the mark and the cache is off or does not remember it, which it never does if it was not added |
| `Handshake.ReflectionIsRefused` | service/tcp.go:244-251 | a marked stream of the server, sent back to it, is refused as a server replay and leaves the cache alone |
| `Handshake.HandOff` | shadowsocks/stream.go:297-332 | what authenticated the search also opens as salt and first length block of the stream reader |
| `Connection.ReadExactly` | service/tcp.go:260-261 | reading n bytes off the stream reader gives the next n bytes of the plaintext, or fails exactly if there are fewer |
| `Connection.ReadAddr` | service/tcp.go:260-261 | the address read is the one at the beginning of the plaintext, if there is one, and nothing behind it is consumed |
| `Connection.Serve` | service/tcp.go:259-300 | the target gets exactly what follows the address, a prefix of it if it fails, and nothing if there is none or it cannot be dialled; the pool is given back valid |
| `Connection.ServeAmong` | service/tcp.go:259-300 | serving a connection leaves all open readers of the pool as they are |
| `Connection.HandleConnection` | service/tcp.go:235-300 | decides in terms of the keys, the mark and the memory; an accepted connection is decrypted from its first byte with the key found, its address is dialled and the rest relayed; a refused one reaches no target; cache and pool are ready for the next |
| `Connection.ServeClient` | service/tcp.go:235-300 | a listed client with a fresh salt is accepted, enters the replay cache, and the target it names, if it never fails, receives exactly its payload |
| `ServiceRun.HandleOne` | service/tcp.go:220-300 | one connection of a run, with its own target and the cache and pool shared by all |
| `ServiceRun.HandleAll` | service/tcp.go:194-300 | over any run of connections on any ports: each is decided by the keys configured at its port and the log of the cache when its turn comes, and its target gets what belongs there |
| `ServiceRun.LogBetween` | service/tcp.go:244-247 | the log at a later turn is that of an earlier one with exactly the hashes added in between |
| `ServiceRun.AcceptedOnceInRun` | service/tcp.go:69-258 | in every such run a connection that begins like an accepted one and meets the same keys, on any port, is refused as a client replay until more than capacity others have been added |
| `Packet.SplitIffForm` | service/udp.go:255-271 | the address split off is the one prefix, if any, of a form of section 5 of RFC 1928: type, 4 or 16 bytes of IP address or a length and that many bytes of name, and two bytes of port |
| `Packet.AddrIsPrefixFree` | service/udp.go:255-271 | an address is told apart from whatever follows it (section 5 of RFC 1928); IP addresses take 7 or 19 bytes |
| `Packet.Pack` | shadowsocks/packet.go:25-48 | succeeds exactly if salt, text and tag fit; the output is right also if the text is in the same memory: where its ciphertext goes, before the packet or behind it |
| `Packet.Unpack` | shadowsocks/packet.go:50-66 | decrypts into the buffer given or in place, and only to what the packet opens to; in place there is always room |
| `Packet.TryEach` | service/udp.go:59-72 | trial decryption returns the first entry that opens the packet, and its text |
| `Packet.FindAccessKeyUDP` | service/udp.go:53-72 | refuses a packet exactly if no listed key opens it, and otherwise gives a key and the text to which it opens; agrees with plain search of the snapshot whatever other threads do to the list before the mark; failed trials never alter the packet |
| `Packet.RelayDown` | service/udp.go:443-502 | all offsets are in range and aligned, and a packet is produced exactly if header, body and tag fit into 65536 bytes |
| `Packet.UnpackPooled` | shadowsocks/client/packet_listener.go:87-96 | decrypts the datagram as the pooled buffer truncates it, and always gives the buffer back |
| `Packet.ReadFrom` | shadowsocks/client/packet_listener.go:87-111 | the client's result is a function of the datagram; the pooled buffer is released on every path |
| `Packet.DeliveredIffOpens` | shadowsocks/client/packet_listener.go:87-111 | something is delivered if and only if the datagram opens to a text that begins with an address, and then that address and the rest as far as it fits |
| `Packet.DownstreamRoundTrip` | shadowsocks/client/packet_listener.go:87-111 | the client gets back the address and body that were packed; a short buffer is reported exactly if it is too short |
| `Packet.Downstream` | service/udp.go:441-513 | a datagram passes from target to client's caller with address and body intact, up to the exact size limits |
| `Packet.WriteTo` | shadowsocks/client/packet_listener.go:65-85 | sends address and payload exactly if they fit into 16384 bytes, also when appending outgrows the buffer |
| `Packet.UpstreamRoundTrip` | service/udp.go:193-239 | a client's packet that fits into the server's buffer finds its own key in any order and yields address and payload |
| `Packet.ReceiveUpstream` | service/udp.go:141-206 | the search works on the datagram as the receive buffer truncates it |
| `Packet.Upstream` | service/udp.go:141-239 | a packet passes from the client's buffer through the server's two buffers: it is sent exactly if it fits, and key, address and payload come out |
| `NatDeadline.NatConn.DisableFastClose` | service/udp.go:311-319 | the first atomic part of a write |
| `NatDeadline.NatConn.ExtendDeadline` | service/udp.go:321-329 | the second part, which never lowers `readDeadline` |
| `NatDeadline.NatConn.ApplyDeadline` | service/udp.go:330 | the third part, which sets the deadline of the socket |
| `NatDeadline.NatConn.OnWrite` | service/udp.go:311-332 | an undisturbed write is these three events |
| `NatDeadline.NatConn.OnRead` | service/udp.go:334-341 | the one chance for the fast close is used up by the first read |
| `NatDeadline.LatestIsMaximum` | service/udp.go:327-331 | the latest deadline is attained and bounds all others |
| `NatDeadline.StateOfRun` | service/udp.go:311-341 | in every run `readDeadline` is the maximum of write time plus timeout, and the fast close is decided by counts of reads and writes |
| `NatDeadline.FastCloseExactly` | service/udp.go:334-341 | fast close happens exactly on a first read from a DNS server after at most one write and no non-DNS write |
| `NatDeadline.FastCloseOnce` | service/udp.go:308-341 | fast close happens at most once |
| `NatDeadline.SocketInvariantHolds` | service/udp.go:311-341 | where socket and `readDeadline` can differ, in every interleaving of reads and writes |
| `NatDeadline.SocketFollowsReadDeadline` | service/udp.go:294-354 | from the second write until the map is closed the two deadlines agree in all runs if and only if the default timeout is at least 17 s |
| `NatDeadline.ShortTimeoutDiverges` | service/udp.go:321-331 | with a shorter default timeout a lookup, its answer and a write elsewhere leave the socket expired |
| `NatDeadline.ExpiredAfterClose` | service/udp.go:422-434 | after `natmap.Close` the deadline of the socket has always passed already |
| `NatTable.NatMap.Get` | service/udp.go:372-376 | returns the very object in the table, or null exactly if there is none, which is the receive step of the protocol |
| `NatTable.NatMap.Set` | service/udp.go:378-392 | the new connection it returns is the one placed in the table, which is the placing step |
| `NatTable.NatMap.Del` | service/udp.go:394-404 | removes exactly this key, which is the deleting step of a reaper; in every reachable state it returns the very connection that the reaper served |
| `NatTable.NatMap.WritePart` | service/udp.go:311-332 | a part of a write on the connection that the loop holds, still in the table or not, is the write step of the protocol |
| `NatTable.NatMap.ReadPart` | service/udp.go:334-341 | a read on the connection that a reaper holds is the read step of the protocol |
| `NatTable.NatMap.Close` | service/udp.go:422-434 | is the closing step: every socket of the table is expired |
| `NatTable.NatMap.ExpireEach` | service/udp.go:426-432 | in any order of iteration every socket of the map is expired and nothing else changes |
| `NatTable.Threads.Do` | service/udp.go:343-434 | each step of the loop or of a reaper on the objects it refers to keeps map, connections and references in step with the protocol |
| `NatTable.Play` | service/udp.go:192-434 | through every interleaving the map of the implementation is the table of the protocol, and every connection ever made is in the state of its deadline machine after exactly its own events |
| `NatTable.InvHolds` | service/udp.go:192-434 | the invariants of table, sockets, counts and deadlines hold in every interleaving |
| `NatTable.OneEntryPerClient` | service/udp.go:406-420 | no two reapers serve one address at a time, and a reaper deletes precisely its own entry |
| `NatTable.MetricsAgree` | service/udp.go:409-413 | added less removed entries are the goroutines that have not reached the removal |
| `NatTable.RunningIsPositive` | service/udp.go:406-420 | the wait group is positive whenever the loop adds to it or a goroutine leaves it |
| `NatTable.AllCleanedUp` | service/udp.go:406-434 | when the wait group is down to zero the table is empty, the metrics balance, and each socket has been closed exactly once |
| `NatTable.NothingOutlivesClose` | service/udp.go:422-434 | after the map has been closed every socket still being read has passed its deadline |
| `NatTable.EntriesRunDeadlineMachine` | service/udp.go:343-354 | in every interleaving the state of each entry is that of its deadline machine after exactly its own events, in their order |
| `NatTable.TracesFollowTheClock` | service/udp.go:327-338 | in every interleaving the events of an entry come in the order of the clock |
| `NatTable.NotClosedBefore` | service/udp.go:422-434 | no entry is expired by the map before the map is closed |
| `NatTable.EntriesFollowReadDeadline` | service/udp.go:294-354 | in every interleaving, from the second write to an entry until the map is closed, its socket's deadline is its `readDeadline`, if the default timeout is at least 17 s |
| `NatTable.EntryFields` | service/udp.go:311-341 | in every interleaving `readDeadline` is the maximum over the entry's own writes, and fast close is decided by its own reads and writes |
| `NatTable.FastCloseOncePerEntry` | service/udp.go:334-341 | in every interleaving each entry is closed fast at most once |
| `NatTable.CleanUpCanEnd` | service/udp.go:273-434 | nothing blocks the clean-up: from every state of every interleaving the loop can return and all goroutines leave, so that the wait group comes down to zero |
| `ServeStop.Service.Adopt` | service/tcp.go:178-191 | adopts the listener if and only if there is none and the service has not been stopped |
| `ServeStop.Service.Stop` | service/tcp.go:364-372 | marks the service stopped and closes the adopted listener |
| `ServeStop.InvHolds` | service/tcp.go:178-218 | the wait group counts the serving call, a handler about to start, and the live handlers, in every interleaving |
| `ServeStop.ListenersAreClosed` | service/udp.go:109-128 | at most one call adopts a listener, and every listener passed in is closed when its call returns |
| `ServeStop.ServesUntilStopped` | service/tcp.go:178-218 | as long as nobody stops the service, exactly one call serves from the first one that had the lock on |
| `ServeStop.HandlerCanStart` | service/tcp.go:194-216 | a serving call can always start one more handler |
| `ServeStop.AddsWhilePositive` | service/tcp.go:207-216 | the wait group is at least 1 whenever a serving call adds a handler |
| `ServeStop.WaitEndsQuiet` | service/tcp.go:374-378 | the waiting of `GracefulStop` ends only when nothing serves and no handler is live |
| `ServeStop.GracefulStopIsFinal` | service/udp.go:273-287 | once `GracefulStop` has returned, no handler is live or ever starts, whatever is called afterwards |
| `ServeStop.GracefulStopCanEnd` | service/tcp.go:364-378 | `GracefulStop` never gets stuck: from every state in which it waits there is a way to its end |
| `Reconcile.AddKey` | cmd/quick_ss/main.go:131-144 | one more key goes to the end of the list of its port and to no other |
| `Reconcile.Server.StartPort` | cmd/quick_ss/main.go:63-81 | succeeds exactly if both listeners open; a new port then runs without keys; if only UDP fails the TCP listener stays open, and in no other case |
| `Reconcile.Server.RemovePort` | cmd/quick_ss/main.go:83-99 | both services are stopped and the port is gone, even if closing reports an error |
| `Reconcile.Server.BuildLists` | cmd/quick_ss/main.go:129-144 | fails exactly if a cipher is unknown; otherwise each port's keys in order |
| `Reconcile.KeysOfSelects` | cmd/quick_ss/main.go:131-144 | the keys of a port are those of the configuration with this port, in order |
| `Reconcile.Server.CountChanges` | cmd/quick_ss/main.go:132-147 | +1 for ports to be started, -1 for those to be stopped, 0 for those kept, in any order of iteration |
| `Reconcile.Server.ApplyChanges` | cmd/quick_ss/main.go:148-158 | in any order of iteration and with failures anywhere, no port that should stay is lost or touched |
| `Reconcile.Server.UpdateLists` | cmd/quick_ss/main.go:159-161 | every port gets its own list |
| `Reconcile.Server.DoRun` | cmd/quick_ss/main.go:129-165 | an unknown cipher changes nothing; success leaves exactly the configured ports, the kept ones with the same services, and each with its keys in order; a failure changes no keys; nothing else listens if and only if no earlier start failed halfway; a failing start or a failing close is what it reports, and without either it succeeds |
| `Reconcile.Server.RunAgain` | cmd/quick_ss/main.go:145-158 | a second run of the same configuration succeeds and starts and stops nothing |
| `Reconcile.RunAll` | cmd/quick_ss/main.go:63-165 | after any run of configurations on a new server, besides its ports exactly those listen at which UDP once failed after TCP had succeeded |
| `Reconcile.HalfStartedStaysOpen` | cmd/quick_ss/main.go:63-81 | a run that shows it: the key is removed with success, its port still listens, and it cannot be started again |

## Left out

- The cryptography (AES, ChaCha20, HKDF, HMAC, MD5) is a set of laws; errors of `NewAEAD`, which the supported ciphers never return, and the derivation of the secret from the password are not part of this model.
- That no key opens another key's bytes is not assumed; the lemmas that need "at most one key matches" say so in their `requires`.
- Sockets, name resolution, dialling, draining, keepalives, timeouts of TCP, metrics, logging and the HTTP and SQL clients are not part of this model.
- The validation of target addresses and the error statuses of the UDP serve loop are left out; in `NatTable` every packet may be dropped or forwarded.
- Panics inside goroutines and their recovery are left out.
- The SOCKS library is not part of the repository; addresses, read and split, follow section 5 of RFC 1928, and the conversion from and to address strings is a parameter.
- Client addresses are compared in one canonical form.
- The replay cache is modelled for capacities of at least 0; a nil cache behaves like capacity 0.
- Fairness of goroutines is left out: that the services can always come to their end is proved, not that the scheduler takes them there.
- The detection of configuration changes in `CheckUser` is left out: keys that disappear stay recorded there, so it promises nothing that could be proved.
- `SSServer.CheckRepo` and the traffic reports are left out: the report list is updated without a lock, so nothing is conserved in the concurrent program.
- StreamSession.ReceivedDecodes: holds for fewer than 2^95 chunks per session, after which the writer would send its salt again.
- StreamWriter.Writer.ReadFrom: sources are finite; a reader that returns no data and no error for ever is not modelled.
- StreamWriter.Writer.ArriveDuringFlushes: bytes land before a flush, between its two blocks and before its write; each of these is one step, since they touch no byte in common with a landing.
- SharedPool.Interleave: a step is one `Read` or one round of `WriteTo`; within a step a reader meets the others only where it takes a buffer or returns one.
- ServiceRun.HandleAll: the connections of a run are handled one after another; what goes on at the same time enters as the marks, updates and additions of other threads.
- Reconcile.Server.StartPort: a TCP listener left behind by a failing start stays open in the model; that the Go runtime may close it when collecting garbage is not part of this model.
- Connection.HandleConnection: whether an address can be dialled is a parameter, and what is drained after an error or sent back by the target is not part of this model.
- Packet.Downstream: says nothing about packets larger than the client's buffer, because what opening a truncated packet gives is up to the cipher.
