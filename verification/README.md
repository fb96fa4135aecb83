# Oracle machine: a Dafny model

The oracle machine sits between Qubic nodes and the world. A node sends it a query over TCP;
the machine answers from its cache or passes the query to an oracle service, and the service
computes or fetches the fact asked for. This project models the parts of that path whose
correctness is not visible from one function body, and proves:

- **Share validation.** The streaming SHA-256, HMAC, PBKDF2, Salsa20/8 and smix code computes
  what FIPS 180-4, RFC 2104, RFC 8018 and RFC 7914 define, so that a share is accepted exactly
  when the scrypt hash of the header it describes, read as a number, is at most the target.
- **Cache and request handler.** The cache refines a map of unexpired entries over every run;
  every successful response carries the payload of a reply with the queried id, fetched now or
  less than the time to live ago.
- **Server and client threads.** Step systems with inductive invariants: every thread is joined
  once, every listed descriptor is open and owned, every request is in exactly one place.
- **Framing, retries and sessions.** Which octets reach the handler for every way a stream is
  cut up, and which request goes out how often across reconnects.
- **Prices.** Decimal strings and their mean are exact and stay within 64 bits.
- **Log services.** Agreement of all endpoints, independent of their order; fixed layouts that
  decode to the log asked for; identities from which every digest can be recovered.

A standard and the code that implements it are separate modules (`Sha256Spec` and `Sha256`,
`CacheSpec` and `OracleCache`, and so on); the code's contract is the connection.

## Conventions

- Outside events are parameters: the clock is an object whose readings never decrease, a socket
  is a script of deliveries, timeouts and accepted octets, an exchange, endpoint or service is a
  function from question to answer. Everything is stated for all of them.
- Integer widths that matter are written out: the split 32-bit counters of SHA-256, the 64-bit
  statistics of the cache, the 32-bit request ids, the range of `int64_t` prices. Leaving the
  `int64_t` range is undefined in C++; the price model returns a separate outcome for it.
- `Step`, `HandlerStep` and `Next` relate states; a run is any sequence of states so related.

## What the code does that its documentation does not say

- `InterfaceClient` takes a complete reply only if its payload arrives in one `recv` and is not
  empty (`TakenExactly`, `PiecesRefused`). A `recv` of nothing returns 0, which `Session::receive`
  takes for the peer closing. The eight header octets of the reply buffer stay zero.
- A reply header interrupted by a timeout leaves the client its session. If nothing of the header
  had been read, the session is still at a frame, and the next request is given the reply to this
  one (`LateReply`); if a part had been read, it is inside a frame (`StillInStep`), and the next
  request can be given a reply nobody sent (`BrokenOff`, which also shows that a later exchange
  can be back at a frame). As long as no header is broken off inside, each request is given its
  own reply exactly when no earlier header on the session was interrupted (`WhoseReply`). The
  handler's comparison of ids is what keeps such a reply from being used.
- A request can stay queued after `stop` exactly when a caller had passed the running check and
  not pushed yet when `stop` emptied the queue (`LeftBehindExactly`, `StaysQueued`).
- When several cache entries share the oldest time stamp, which of them is evicted depends on the
  iteration order of a hash map. The calls determine the live entries at every point exactly when
  no store finds the map full with more than one oldest entry (`DeterminedExactly`); after one that
  does, a lookup can be answered either way (`ContestedDiverges`, `Tie`).
- The single-chunk KangarooTwelve repeats its first output block instead of permuting between
  blocks; it is the standard's output for every permutation exactly up to 168 octets, and beyond
  for some permutation it is not (`KangarooExactly`). Nothing is said of Keccak-p itself. The
  service asks for three.
- The size checks of a share-validation query add in 32 bits. A query is read inside the buffer
  exactly when the true sizes fit and is refused exactly when a sum is too large modulo 2^32
  (`Unpack`); `TableWraps` and `LengthWraps` are queries for which neither holds.

## Model

| member | source | states |
|---|---|---|
| Sha256.ChMajAgree | oracles/doge_share_validation/src/scrypt.c:107-108 | the rewritten Ch and Maj are the functions of section 4.1.2 of FIPS 180-4 on all words |
| Sha256.RotateStep | oracles/doge_share_validation/src/scrypt.c:116-129 | updating two entries of an array whose reading position moves back by one per round is the shift of all eight working variables |
| Sha256.RoundInPlace | oracles/doge_share_validation/src/scrypt.c:116-129 | one rotated round in place carries the representation of the working variables to that of the standard's next round |
| Sha256.PrepareSchedule | oracles/doge_share_validation/src/scrypt.c:143-146 | the 64 words are the message schedule of section 6.2.2 of FIPS 180-4 for the block |
| Sha256.Mix | oracles/doge_share_validation/src/scrypt.c:148-215 | after all 64 rounds without ever moving a variable the array is back in order and equals the standard's a..h |
| Sha256.Transform | oracles/doge_share_validation/src/scrypt.c:135-225 | the state becomes the intermediate hash value of FIPS 180-4 for every state and block |
| Sha256.AddBitsIsCount | oracles/doge_share_validation/src/scrypt.c:261-271 | the two 32-bit counters with carry always hold the number of bits fed so far modulo 2^64 |
| Sha256.PadSplit | oracles/doge_share_validation/src/scrypt.c:297-316 | padding computed from the buffered length alone, followed by the big-endian count, is the padding of section 5.1.1 of FIPS 180-4 |
| Sha256.Ctx.Init | oracles/doge_share_validation/src/scrypt.c:235-251 | the context stands for the empty message |
| Sha256.Ctx.Update | oracles/doge_share_validation/src/scrypt.c:254-294 | a context that stands for m comes to stand for m followed by the data, so any division of a message into updates gives the same context |
| Sha256.Ctx.Pad | oracles/doge_share_validation/src/scrypt.c:297-316 | a context that stands for m comes to stand for the padded m, with the length taken before padding |
| Sha256.Ctx.Final | oracles/doge_share_validation/src/scrypt.c:322-334 | the digest is SHA-256 of everything fed, for every message below 2^61 octets, and the context is wiped |
| Pbkdf2.PadKey | oracles/doge_share_validation/src/scrypt.c:354-366 | a repeated octet, exclusive-or the key in its first octets, is the padded key of section 2 of RFC 2104 |
| Pbkdf2.HmacCtx.Init | oracles/doge_share_validation/src/scrypt.c:337-370 | the context is keyed with the key, hashed first when longer than 64 octets |
| Pbkdf2.HmacCtx.Update | oracles/doge_share_validation/src/scrypt.c:373-379 | the text grows by the data under the same key |
| Pbkdf2.HmacCtx.Final | oracles/doge_share_validation/src/scrypt.c:382-398 | the digest is HMAC-SHA-256 of the whole text, for every key |
| Pbkdf2.FirstU | oracles/doge_share_validation/src/scrypt.c:424-430 | a copy of the context already fed with the salt, given the block number, yields U_1 of section 5.2 of RFC 8018, and the shared context is left as it was |
| Pbkdf2.Block | oracles/doge_share_validation/src/scrypt.c:424-444 | the running exclusive-or is F(password, salt, c, i) for every c from 1 on |
| Pbkdf2.OutputSlice | oracles/doge_share_validation/src/scrypt.c:446-450 | the stretch of the derived key that block i fills is a prefix of F, all of it except in the last block |
| Pbkdf2.Derive | oracles/doge_share_validation/src/scrypt.c:405-455 | the first dkLen octets of the buffer become PBKDF2 of the password and salt and the rest keeps its contents, up to dkLen = 32 * (2^32 - 1) |
| Salsa20.BlkXor | oracles/doge_share_validation/src/scrypt.c:477-487 | the destination becomes the entry-wise exclusive-or of both blocks |
| Salsa20.Columns | oracles/doge_share_validation/src/scrypt.c:502-513 | four quarter rounds on the listed indices, one after the other in one array, are the column round of the Salsa20 specification |
| Salsa20.Rows | oracles/doge_share_validation/src/scrypt.c:515-526 | four more on the transposed indices are its row round |
| Salsa20.SalsaInPlace | oracles/doge_share_validation/src/scrypt.c:493-531 | the block becomes Salsa20/8 of itself (section 3 of RFC 7914) |
| Smix.PlacedNext | oracles/doge_share_validation/src/scrypt.c:547-564 | writing an even and an odd result straight to their shuffled places keeps the output equal to BlockMix as far as it is filled |
| Smix.BlockMixInto | oracles/doge_share_validation/src/scrypt.c:539-565 | the output is scryptBlockMix of the input (section 4 of RFC 7914) for every r |
| Smix.AndMask | oracles/doge_share_validation/src/scrypt.c:618-626 | masking with 2^k - 1 is the remainder by 2^k, for all numbers |
| Smix.IntegerifyMasked | oracles/doge_share_validation/src/scrypt.c:571-577 | the low 64 bits of the last block, masked, are Integerify mod N although Integerify has 512 bits |
| Smix.FillStep | oracles/doge_share_validation/src/scrypt.c:603-607 | V_i is stored as the next row, which lies within V and leaves the earlier rows as they were, and V_{i+1} is in the other buffer |
| Smix.FillV | oracles/doge_share_validation/src/scrypt.c:601-614 | two steps a turn between X and Y leave V_0 .. V_{N-1} in V and V_N in X |
| Smix.WalkStep | oracles/doge_share_validation/src/scrypt.c:616-631 | the row picked lies within V and the step is the one of scryptROMix |
| Smix.SmixInPlace | oracles/doge_share_validation/src/scrypt.c:587-636 | B becomes scryptROMix of B (section 5 of RFC 7914) for every r and every power of two N from 2 to 2^63, every index in range |
| Doge.Scrypt1024 | oracles/doge_share_validation/src/scrypt.c:641-673 | the output is scrypt(input, input, N = 1024, r = 1, p = 1, 32) of section 6 of RFC 7914 |
| Doge.HashTwice | oracles/doge_share_validation/src/doge_service.cpp:48-65 | reusing one context for both rounds gives SHA-256 of the SHA-256 |
| Merkle.FoldIsRoot | oracles/doge_share_validation/src/doge_service.cpp:86-97 | folding the first leaf with the siblings on the leftmost path gives the root of the tree of pairwise hashes, for every hash function and every number of leaves |
| Merkle.BranchServesEveryFirst | oracles/doge_share_validation/src/doge_service.cpp:86-97 | the same branch gives the right root whatever the first leaf is replaced by, which is why a miner may change the coinbase |
| Doge.CalculateMerkleRoot | oracles/doge_share_validation/src/doge_service.cpp:67-100 | the root is the fold of the doubly hashed coinbase, assembled in the order coinbase1, extraNonce1, extraNonce2, coinbase2, with the branches |
| Doge.RootOfBlock | oracles/doge_share_validation/src/doge_service.cpp:67-100 | with the branches a block's other transactions determine, that fold is the Merkle root of the block with this coinbase |
| Doge.VerifyHashVsTarget | oracles/doge_share_validation/src/doge_service.cpp:35-46 | true exactly when the hash, as a little-endian number, is at most the target |
| DogePayload.Unpack | oracles/doge_share_validation/src/doge_service.cpp:130-162 | every read stays inside the buffer exactly when the true sizes fit, and then yields the parts of the layout; a query is refused exactly when a sum exceeds the buffer modulo 2^32; when both sums stay below 2^32 one of the two happens |
| DogePayload.TableWraps | oracles/doge_share_validation/src/doge_service.cpp:130-138 | a count of 2^30 branches is neither refused nor does it fit, in any buffer |
| DogePayload.LengthWraps | oracles/doge_share_validation/src/doge_service.cpp:149-156 | neither does one branch whose length brings the total to 2^32 |
| DogePayload.PackRoundTrip | oracles/doge_share_validation/src/doge_service.cpp:140-162 | parts of any lengths laid out in a buffer, whatever follows, are what is read back |
| Doge.ValidateShare | oracles/doge_share_validation/src/doge_service.cpp:164-208 | the header has 80 octets and the share is valid exactly when the scrypt hash of the header built from the fold is at most the target |
| Doge.ProcessInterfaceQuery | oracles/doge_share_validation/src/doge_service.cpp:105-213 | a query is checked exactly when its parts fit the buffer, and then the share is valid exactly when the scrypt hash of the header built from those parts is at most the target |
| CacheSpec.LiveTwice | node/src/oracle_cache.cpp:203-208 | dropping expired entries now and again later is dropping them later |
| OracleCache.Cache.IsValid | node/src/oracle_cache.cpp:203-208 | an entry is valid while its age in whole seconds is below the time to live |
| OracleCache.Cache.CleanupExpired | node/src/oracle_cache.cpp:210-230 | no live entry is lost or changed, and none stays that had expired when the sweep began |
| OracleCache.Cache.RemoveOldest | node/src/oracle_cache.cpp:232-249 | exactly one entry goes, and none is older |
| OracleCache.OldestLive | node/src/oracle_cache.cpp:112-117 | if the oldest stored entry is still live then everything stored is, so eviction by age never spares an expired entry at the cost of a live one |
| OracleCache.EvictionOfLive | node/src/oracle_cache.cpp:112-117 | making room changes the live entries only when their number has reached the limit, and then by one oldest of them |
| OracleCache.Cache.Lookup | node/src/oracle_cache.cpp:31-88 | refines the lookup of the map of live entries, cleanup included; requests are counted as hits or misses, hits + misses = requests modulo 2^64; a disabled cache always misses |
| OracleCache.Cache.Store | node/src/oracle_cache.cpp:90-136 | refines the store of that map and keeps the size limit; an error reply or a disabled cache changes nothing |
| OracleCache.Cache.Clear | node/src/oracle_cache.cpp:138-143 | nothing stays live |
| OracleCache.Cache.CleanInterface | node/src/oracle_cache.cpp:145-165 | exactly the live entries of the other interfaces stay |
| CacheRuns.HitIsLastStored | node/src/oracle_cache.cpp:31-136 | over every run, a hit returns the payload of the last store for that key, not cleared since, and made less than the time to live ago |
| CacheRuns.StaysUntilDisplaced | node/src/oracle_cache.cpp:90-136 | over every run, what was last stored stays until it expires or is the oldest when a store finds the map full |
| CacheRuns.MissHasCause | node/src/oracle_cache.cpp:31-88 | a lookup that misses a stored key has one of those two causes |
| CacheRuns.RunDetermined | node/src/oracle_cache.cpp:31-136 | a run in which no store finds a full map with two oldest entries is the only run of its calls |
| CacheRuns.ContestedDiverges | node/src/oracle_cache.cpp:232-249 | after any store that does, the same calls have two runs, which one more lookup tells apart |
| CacheRuns.DeterminedExactly | node/src/oracle_cache.cpp:31-136 | the calls of a run determine its maps at every point exactly when none of its stores is such |
| CacheRuns.Tie | node/src/oracle_cache.cpp:112-117 | with room for two, three stores at one instant, and a fourth call that can be answered either way |
| CachePlay.Play | node/src/oracle_cache.cpp:31-165 | any calls on a cache object, whenever it sweeps, are a run of the map of live entries, with the object's own answers |
| CachePlay.CleanupIsInvisible | node/src/oracle_cache.cpp:44-51 | any two runs of the same calls on cache objects that differ only in the cleanup interval, at the same times and with no contested store, have the same answers and the same live entries throughout |
| Wire.HeaderRoundTrip | README.md:131-166 | every header that fits its fields is read back from its eight octets |
| Wire.QueryRoundTrip | README.md:131-166 | every query record is read back from its sixteen octets |
| Wire.ReplyRoundTrip | README.md:131-166 | every reply record is read back from its sixteen octets whatever the padding holds |
| Wire.DecodedFits | README.md:131-166 | whatever octets arrive, the decoded records fit their fields |
| RequestHandler.Handler.Handle | node/src/request_handler.cpp:22-141 | a call is one hit, or one miss and one completion with the answer of the client of the queried interface, at times in order; anything but a complete query record gets no response and leaves the cache and the clock alone |
| RequestHandler.Handler.Complete | node/src/request_handler.cpp:78-141 | a reply that is missing, too short or for another id is answered with a flag and never stored; a reply with flag 0 is stored under the query's key |
| RequestHandler.Provenance | node/src/request_handler.cpp:22-165 | over every interleaving of calls, every response carries the queried id, and one with flag 0 carries the payload of a reply with that id, received from the client of the queried interface in this call or in an earlier one for the same key less than the time to live ago |
| RequestHandler.ServeAll | node/src/request_handler.cpp:22-141 | any sequence of requests on a handler object is such a run, with every event a step of its request and every query answered by one |
| RequestHandler.EveryResponse | node/src/request_handler.cpp:22-165 | so every response carries its query's id, and without an error its payload is what the client of that interface answered to this or an earlier request for the same key |
| RequestHandler.ComposedPath | oracles/core/base_oracle_service.cpp:178-271 | the packet the handler builds parses in the service to the same id, index and payload, and what the service replies comes out of the handler with that id, flags and payload: the path is the service function itself, fitted to the reply size |
| TcpServer.NextKeepsInv | libs/om_network/src/tcp_server.cpp:138-387 | every step of accepting, listing, scanning, joining, spawning, serving, marking, unlisting and stopping, and of the rest of the process opening and closing descriptors, keeps the invariant on descriptors, the list, threads and ids |
| TcpServer.Reachable | libs/om_network/src/tcp_server.cpp:138-387 | the invariant holds in every state of every interleaving |
| TcpServer.JoinedOnce | libs/om_network/src/tcp_server.cpp:138-241 | no thread is ever joined twice, and a joined thread has ended |
| TcpServer.CleanupJoinsOnlyFinished | libs/om_network/src/tcp_server.cpp:138-167 | cleanup only ever waits for threads that have left their session and marked themselves, so accepting never waits for a client |
| TcpServer.ListedIsOwned | libs/om_network/src/tcp_server.cpp:309-320 | the active descriptors are distinct, open, and each belongs to the connection it was listed for, never to a reused number |
| TcpServer.SessionIsListed | libs/om_network/src/tcp_server.cpp:202-225 | a thread still in its session has its open descriptor on the list, so shutdown reaches every thread that stop then waits for |
| TcpServer.StopLeavesNothing | libs/om_network/src/tcp_server.cpp:174-241 | after stop every thread ever spawned is joined exactly once, nothing is listed, and no connection is open |
| ClientQueue.Reachable | node/src/interface_client.cpp:40-98 | the queue invariant holds in every state of every interleaving of producers, worker, start and stop |
| ClientQueue.ExactlyOnePlace | node/src/interface_client.cpp:176-208 | each accepted request is in exactly one of: about to be pushed, queued, in the worker's hand, called back, discarded |
| ClientQueue.CallbacksInPushOrder | node/src/interface_client.cpp:275-337 | callbacks run in push order and at most once per request |
| ClientQueue.LeftBehind | node/src/interface_client.cpp:61-98 | while no worker is started after a stop, the queue holds what was pushed after its clear, and nothing is called back |
| ClientQueue.NothingLeftBehind | node/src/interface_client.cpp:61-98 | if no caller is between the running check and its push at the clear, the queue is empty and only a new start can follow |
| ClientQueue.CanBeLeftBehind | node/src/interface_client.cpp:176-208 | if one is, the run can go on, without a worker, to a state in which a request is queued |
| ClientQueue.LeftBehindExactly | node/src/interface_client.cpp:61-98 | a request can be left queued by stop exactly when a caller is under way at the clear |
| ClientQueue.StaysQueued | node/src/interface_client.cpp:61-98 | there is a run from the initial state in which that happens |
| ClientQueue.IdsDistinct | node/src/interface_client.cpp:190-192 | in every reachable state, two requests fewer than 2^32 apart carry different ids from the wrapping counter |
| Sessions.Session.SendData | libs/om_network/src/session.cpp:124-149 | what the socket accepted is exactly the prefix of the data it takes, the result says whether that is all of it, and a short send ends the session |
| Sessions.Session.Receive | libs/om_network/src/session.cpp:152-192 | octets delivered are the next of the stream; 0 means a timeout with nothing lost, -1 that the stream has ended |
| Sessions.Session.ReceiveExact | libs/om_network/src/session.cpp:195-216 | returns all octets asked for exactly when they arrive without a timeout before the last of them; otherwise the session lives exactly if a timeout cut it short, with what came before it returned and the rest still to come |
| NodeConnection.SendResponse | node/src/node_connection.cpp:84-117 | succeeds exactly when the socket takes header and payload in full; otherwise a proper prefix of them went out and the session is over |
| NodeConnection.NextFrame | node/src/node_connection.cpp:124-170 | waits out timeouts between frames and takes the next frame exactly when it is complete, of allowed size and not interrupted; otherwise the session ends |
| NodeConnection.HandleSession | node/src/node_connection.cpp:120-196 | for every script of deliveries and sends, the handler, whose responses may depend on all earlier frames, is called for exactly the served frames with their exact payloads, in order, or for those up to the first whose response the socket does not take in full; every response goes out under its own header, the last one cut short in that case |
| NodeConnection.ServedIsPrefix | node/src/node_connection.cpp:120-196 | the served frames are a prefix of the query frames of the stream, and all of them when no timeout falls inside a frame; after a cut or malformed frame nothing more is interpreted |
| NodeConnection.CutsDoNotMatter | libs/om_network/src/session.cpp:195-216 | two ways of delivering the same octets serve the same frames |
| Exchanges.TakenExactly | node/src/interface_client.cpp:357-392 | the replies taken are exactly the complete ones that are not empty and whose payload comes in one delivery |
| Exchanges.PiecesRefused | node/src/interface_client.cpp:377-389 | a complete reply of two payload octets in two deliveries is refused |
| Exchanges.InStep | node/src/interface_client.cpp:339-396 | over any number of exchanges on a session, as long as no header is broken off inside, exchange k starts at frame k of the stream less one for each interruption |
| Exchanges.WhoseReply | node/src/interface_client.cpp:339-396 | a reply then taken is that frame, and it is the one of its own request exactly when no earlier header was interrupted |
| Exchanges.StillInStep | node/src/interface_client.cpp:354-363 | an interruption leaves the session at a frame exactly when nothing of the header had been read |
| Exchanges.LateReply | node/src/interface_client.cpp:354-363 | any reply that a timeout holds up is not taken by its own request and is taken by the next |
| Exchanges.BrokenOff | node/src/interface_client.cpp:354-363 | a reply interrupted after four octets is read by the next request as a reply nobody sent, and the request after that starts at a frame again |
| InterfaceClient.Client.Connect | node/src/interface_client.cpp:100-139 | a live session is kept with all it has taken, a dead one is replaced by the next connection, and success means a live session |
| InterfaceClient.Client.SendAndReceive | node/src/interface_client.cpp:339-396 | retry is asked for exactly when the request did not go out in full; otherwise success exactly when the reply is taken, with its octets; after a failure the session lives exactly if the header was interrupted, and goes on behind the timeout |
| InterfaceClient.Client.ProcessQueryRequest | node/src/interface_client.cpp:398-442 | at most nine attempts, each on a session of its own; only the last can have sent the whole request; success exactly when the first connection that takes the whole request brings a taken reply; what connections are left, and in what state, is given for every case |
| InterfaceClient.Client.ProcessAll | node/src/interface_client.cpp:398-442 | for any requests on a new client, each is given what its carrier brings, the carriers being determined by the connections and requests alone |
| ClientRuns.EachExchange | node/src/interface_client.cpp:398-442 | over all connections and requests, a request that goes out in full is the next exchange of the connection of one dial, numbered by the requests that connection carried before |
| ClientRuns.EachReply | node/src/interface_client.cpp:339-442 | as long as no header of its connection was broken off inside, its reply is the frame of that number less the interruptions before, and its own exactly when there were none |
| Price.PriceStringToRational | oracles/price/src/price_service.cpp:24-55 | a string is read exactly when it is a decimal whose digits and power of ten fit 64 bits, and then as the number it writes |
| Price.DigitsValueSplit | oracles/price/src/price_service.cpp:31-44 | the digits of both parts together are the whole part scaled by the power of ten, plus the fraction |
| Price.StaysTooLarge | oracles/price/src/price_service.cpp:31-52 | once a prefix exceeds 64 bits so does every longer decimal, so the first overflow decides |
| Price.GcdIsGreatestCommonDivisor | oracles/price/src/combined_provider.cpp:11-20 | Euclid's result divides both numbers and is divided by everything that does |
| Price.Gcd | oracles/price/src/combined_provider.cpp:11-20 | the loop computes it for all positive numbers |
| Price.ComputeMean | oracles/price/src/combined_provider.cpp:132-179 | both branches give the mean over the least common denominator, exactly when every intermediate value fits 64 bits |
| Price.MeanIsExact | oracles/price/src/combined_provider.cpp:132-179 | the result is the rational mean, with a positive denominator |
| Price.MeanIsBetween | oracles/price/src/combined_provider.cpp:132-179 | it lies between the two prices |
| Price.MeanIsSymmetric | oracles/price/src/combined_provider.cpp:132-179 | swapping the sources gives the same numerator and denominator |
| Price.DecimalsAverageExactly | oracles/price/src/combined_provider.cpp:158-178 | two price strings with at most a digits before and b after the point, a + b <= 18, are read and averaged without leaving 64 bits, exactly and symmetrically |
| Price.GetPriceAtTimestamp | oracles/price/src/combined_provider.cpp:82-130 | fails exactly when some source fails, with the code of the first that does; otherwise the mean of both |
| Consensus.AgreedMembers | oracles/read_evm_log/read_evm_log_service.py:120-134 | agreement depends only on which answers were given, not on their order or number |
| EvmLog.GetReceipt | oracles/read_evm_log/read_evm_log_service.py:120-134 | the loop yields what the endpoints agree on, defined without order: unanimity, every head known, and finality for all |
| EvmLog.FetchIgnoresOrder | oracles/read_evm_log/read_evm_log_service.py:120-134 | the outcome depends only on which endpoints are listed |
| EvmLog.FetchPermuted | oracles/read_evm_log/read_evm_log_service.py:120-134 | permuting the endpoints never changes it |
| EvmLog.FetchedLogsOk | oracles/read_evm_log/read_evm_log_service.py:89-109 | every log of an agreed receipt has a 20-octet address and 32-octet topics |
| EvmLog.EncodeLog | oracles/read_evm_log/read_evm_log_service.py:171-179 | the pieces appended one by one are the layout of 440 octets |
| EvmLog.LogRoundTrip | oracles/read_evm_log/read_evm_log_service.py:171-179 | the reply decodes by fixed offsets to the log, for up to four topics and 256 octets of data |
| EvmLog.HandleQuery | oracles/read_evm_log/read_evm_log_service.py:141-180 | flags and reply are a function of the query and what the endpoints say, always 440 octets: success exactly for a justified log, which the reply decodes to, and nothing but zeros behind a code or an error |
| EvmLog.SuccessExactly | oracles/read_evm_log/read_evm_log_service.py:141-180 | success is answered exactly when every endpoint returned the same receipt with status 1 in a block at or below every finalized head and the log asked for can be encoded; the reply decodes to that log |
| EvmLog.DisagreementAbstains | oracles/read_evm_log/read_evm_log_service.py:120-156 | an endpoint that fails, or two that differ, make the service abstain |
| EvmLog.NotFoundExactly | oracles/read_evm_log/read_evm_log_service.py:158-159 | not found is answered exactly when every endpoint says so |
| EvmLog.RestIsZero | oracles/read_evm_log/read_evm_log_service.py:137-169 | after a non-zero code, and under an error flag, every other octet is zero |
| EvmLog.AnswerIgnoresOrder | oracles/read_evm_log/read_evm_log_service.py:141-180 | configurations that list the same endpoints in any order answer octet for octet alike |
| K12.Pad | oracles/read_qubic_log/read_qubic_log_service.py:89-94 | setting the top bit of the last octet is the final-bit padding of section 2 of RFC 9861, also when the separation octet is that last octet |
| K12.XorInto | oracles/read_qubic_log/read_qubic_log_service.py:96-98 | the five by five lanes take the block in the standard's order and the capacity is untouched |
| K12.Hash | oracles/read_qubic_log/read_qubic_log_service.py:87-104 | for every message, length and permutation the output is the first block after absorbing, repeated |
| K12.HashIsKangaroo | oracles/read_qubic_log/read_qubic_log_service.py:87-104 | up to 168 octets that is KangarooTwelve of a message below 8192 octets (section 3 of RFC 9861) |
| K12.HashIsNotKangaroo | oracles/read_qubic_log/read_qubic_log_service.py:100-104 | for every message and every longer output there is a permutation for which it is not |
| K12.KangarooExactly | oracles/read_qubic_log/read_qubic_log_service.py:87-104 | it is KangarooTwelve for every permutation exactly up to 168 octets |
| QubicIdentity.EncodeIdentity | oracles/read_qubic_log/read_qubic_log_service.py:107-120 | the loops produce the identity: four fragments of 14 letters and a checksum of four |
| QubicIdentity.EnoughLetters | oracles/read_qubic_log/read_qubic_log_service.py:111-119 | 26^14 exceeds 2^64 and 26^4 exceeds 2^18 |
| QubicIdentity.IdentityRoundTrip | oracles/read_qubic_log/read_qubic_log_service.py:107-120 | every 32-octet digest is decoded from its 60 letters |
| QubicIdentity.IdentityInjective | oracles/read_qubic_log/read_qubic_log_service.py:107-120 | equal identities come from equal digests |
| QubicLog.GetReceipt | oracles/read_qubic_log/read_qubic_log_service.py:174-183 | the loop yields the common answer of all bobs, or raises |
| QubicLog.AgreedOk | oracles/read_qubic_log/read_qubic_log_service.py:148-171 | every number of an agreed receipt is a 64-bit one |
| QubicLog.Matching | oracles/read_qubic_log/read_qubic_log_service.py:215-218 | the first log with the id asked for, and none exactly when no log has it |
| QubicLog.LogRoundTrip | oracles/read_qubic_log/read_qubic_log_service.py:222-225 | the reply decodes by fixed offsets to contract index, type and data |
| QubicLog.HandleQuery | oracles/read_qubic_log/read_qubic_log_service.py:190-225 | flags and reply are a function of the query and what the bobs say of the identity of its transaction, always 288 octets: success exactly for a justified log, which the reply decodes to, and nothing but zeros behind a code or an error |
| QubicLog.SuccessExactly | oracles/read_qubic_log/read_qubic_log_service.py:190-225 | success is answered exactly when every bob returned the same receipt of an executed transaction in the tick asked about with a matching log of at most 256 octets; the reply decodes to it |
| QubicLog.DisagreementAbstains | oracles/read_qubic_log/read_qubic_log_service.py:174-206 | a bob that fails, or two that differ, make the service abstain |
| QubicLog.RestIsZero | oracles/read_qubic_log/read_qubic_log_service.py:186-220 | after a non-zero code, and under an error flag, every other octet is zero |
| QubicLog.AnswerIgnoresOrder | oracles/read_qubic_log/read_qubic_log_service.py:190-225 | the order of the bobs never changes an octet |

## Left out

- The 64 macro-expanded rounds of the SHA-256 transform and the 32 unrolled updates of the Salsa20 core are a loop and a called quarter round with the same indices.
- The one scratchpad that holds X, Y, Z and V in scrypt.c is four separate arrays; overlap between them is not modelled.
- The query structs and NUMBER_OF_COMPUTORS come from the qubic core, which is not part of this model: Unpack takes the counts as unsigned 32-bit numbers and the buffer's size as any below 2^32, the header fields are parameters of ProcessInterfaceQuery, and the computor index is not modelled.
- The value of ORACLE_FLAG_INVALID_ORACLE comes from the qubic core; the model uses 0x1, and only that it is neither 0 nor ORACLE_UNAVAIL matters.
- A response longer than a 24-bit size: how the qubic core's header refuses it is not modelled.
- TcpServer and ClientQueue: accesses the source makes without its lock are atomic steps here, restarts of a stopped server are not modelled, and the accept loop's use of the closed listening descriptor is only a failed accept.
- InterfaceClient::query, which waits for its own callback with a timeout, and the worker's statistics.
- The session loop of base_oracle_service.cpp reads packets of one fixed size, whatever their header says, and ends at an idle timeout; the Python serve loops frame as NodeConnection does, with a smaller limit, and end at a timeout too.
- ClientQueue: start and stop run one at a time here, and setting the running flag and creating the worker thread are one step.
- The std::stod fallback for strings that are not plain decimals: floating point.
- normalizeOracleId, bytesToString, the provider registry and the exchange providers: string handling without a hard property.
- JSON, hexadecimal and environment parsing of the log services; endpoints answer with already parsed values, and an endpoint whose answer does not parse raises.
- The Keccak permutation is any function on 25 lanes.
- Logging, signal handling, process setup, DNS and the connect call itself.
