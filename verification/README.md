# novarpc: a verified model

This project models the parts of the novarpc RPC framework that carry its guarantees, and proves
those guarantees with Dafny 4.11. `dafny verify dfyconfig.toml` checks the whole project.

* **Load balancing.** `SmoothWeighted` is the weight arithmetic of the weighted picker (whose fresh
  snapshot starts each `currentWeight` at the node's weight, unlike the textbook algorithm),
  `HarmonicBacklog` bounds how far nodes fall behind, `WeightedRoundRobin` and `RoundRobin` are the
  pickers and balancers as objects, and `KeyedRuns` shows that services do not influence each other.
* **Connection pool.** `PoolModel` is the pool as a transition system over who holds which
  connection, `PoolBounds` shows that its capacity bound is tight, `ChannelPool` is the code on
  objects with the mutual recursion of `Put` and `PoolConn.Close`, and `PutCloseRace` runs `Put` and
  `Close` statement by statement in any number of goroutines.
* **Framing.** `Codec` is the frame encoder, `Streams` says what frames a byte stream starts with,
  and `Transport` is the framer with its growing buffer over a connection that delivers bytes in
  arbitrary chunks.
* **The call.** `ServicePath`, `Interceptors`, `Service`, `ServerTransport` and `Client` are the
  steps of a call, `Sessions` follows one connection through many calls, `PooledCalls` follows calls
  over the connections of a pool, and `Rpc` compares calls over the byte stream with calling the
  handlers directly. Handlers and interceptors work on a state of any type, so the theorems also say
  how often and in which order they run.

Some properties one would expect fail, and the project says exactly when they hold. A connection
returned usable to a closed pool deadlocks on its own lock, and one returned to a full queue
recurses for ever (`PoolModel.CloseReturnsIff`). A full queue is excluded while clients hold or dial
fewer connections than the capacity, and no weaker bound will do (`PoolModel.NoPutMeetsFullQueue`,
`PoolBounds.ClientBoundIsTight`). A stream cut off right after a header passes for a clean end
(`Streams.CleanEndIff`). A payload over 4 MiB does not survive framing
(`Streams.EncodedRoundTripIff`). A coded error with code 0 is not delivered as that error
(`Rpc.CodePreservedIff`), nor is a message with an empty encoding (`Rpc.SuccessIff`). An error of a
method registered by reflection never leaves the server (`Rpc.ReflectedErrorsAreInvisible`,
`Rpc.ReflectedResultIff`). A pooled connection does not always come back in step: a call given up
once its request is written leaves its response, and one that refuses a response over 4 MiB the
payload of that response, for the next call (`Sessions.GivenBackInStepIff`; with the consequences in
`Sessions.WaitingTurnTakes`, `PooledCalls.CallGetsOwnIff` and `Rpc.OversizeReplyFailsNext`). A
request that an interceptor puts in place of the caller's does not reach a method registered by
reflection (`Service.ReplacedRequestIsIgnored`). A weighted pick may return a node that is no longer
listed (`WeightedRoundRobin.AnswersAreListedIff`). Where comments and code differ the model follows
the code: `PoolConn.t` is described as an idle time but is the time the connection was made, and the
first round robin pick returns the second node.

## Model

| member | source | states |
|---|---|---|
| SmoothWeighted.WinnerIsFirstMaxIff | selector/weighted_round_robin_balancer.go:45-55 | the scan that starts from maxWeight 0 finds the first maximum exactly when some value is positive or index 0 holds it; else it answers 0 |
| SmoothWeighted.ClosedForm | selector/weighted_round_robin_balancer.go:45-57 | after t picks from a fresh snapshot `currentWeight_i` is (t+1)·w_i − W·picks_i(t) |
| SmoothWeighted.SumIsTotal | selector/weighted_round_robin_balancer.go:45-57 | the `currentWeight`s always sum to W, and to 2W during the scan |
| SmoothWeighted.PickIsFirstMax | selector/weighted_round_robin_balancer.go:48-55 | every pick of a run chooses a true first maximum, of at least the average 2W/n |
| SmoothWeighted.LowerBound | selector/weighted_round_robin_balancer.go:45-57 | no `currentWeight` ever falls below 2W/n − W |
| SmoothWeighted.NotPickedBeyondShare | selector/weighted_round_robin_balancer.go:45-59 | within the first W picks a node that had its w_i picks is not picked again, the last pick included |
| SmoothWeighted.CycleIsFair | selector/weighted_round_robin_balancer.go:45-59 | W picks from a fresh snapshot choose node i exactly w_i times and restore the initial state |
| SmoothWeighted.Periodic | selector/weighted_round_robin_balancer.go:45-59 | states and picks repeat with period W |
| SmoothWeighted.WindowIsFair | selector/weighted_round_robin_balancer.go:45-59 | every window of W consecutive picks contains node i exactly w_i times |
| SmoothWeighted.PickedWithinWindowIff | selector/weighted_round_robin_balancer.go:45-59 | a node is picked within any W picks if and only if its weight is positive |
| SmoothWeighted.ZeroWeightNeverPicked | selector/weighted_round_robin_balancer.go:45-59 | with W > 0 a node of weight 0 is never picked |
| SmoothWeighted.UnweightedAlwaysFirst | selector/weighted_round_robin_balancer.go:45-59 | with all weights 0 every pick returns node 0 and changes nothing |
| HarmonicBacklog.BacklogExchange | selector/weighted_round_robin_balancer.go:45-57 | a group is within the bound for k nodes if, with one more node of at least average value, it stays W below the bound for k+1 |
| HarmonicBacklog.GroupBacklog | selector/weighted_round_robin_balancer.go:33-61 | after every pick of every run any k of n nodes sum to at most k·W·(1/n + 1/(k+1) + … + 1/n) |
| HarmonicBacklog.TwoSidedDeviation | selector/weighted_round_robin_balancer.go:45-57 | a node's owed weight stays between 2W/n − W and W·(1/n + 1/2 + … + 1/n) |
| HarmonicBacklog.ValuesStayInRange | selector/weighted_round_robin_balancer.go:45-57 | every value computed lies in (−W, (n+1)·W], so fixed-width integers do not wrap while that fits |
| WeightedRoundRobin.GetWeightedNodes | selector/weighted_round_robin_balancer.go:82-95 | fresh distinct nodes in list order, each `currentWeight` at the node's weight |
| WeightedRoundRobin.BumpAndPick | selector/weighted_round_robin_balancer.go:45-57 | the in-place loop and subtraction take exactly one step of the weight arithmetic and return its winner |
| WeightedRoundRobin.Picker.Refresh | selector/weighted_round_robin_balancer.go:38-43 | a call more than the period after the last refresh, or with another number of nodes, installs fresh nodes wrapping its own list and the new clock reading; any other call leaves both as they are |
| WeightedRoundRobin.Picker.Pick | selector/weighted_round_robin_balancer.go:33-61 | the in-place weights always are those of a run from the last snapshot; the answer is the next pick of that run |
| WeightedRoundRobin.Balancer.Load | selector/weighted_round_robin_balancer.go:63-75 | a picker is made on a service's first call, and no other entry changes |
| WeightedRoundRobin.Balancer.PickAndStore | selector/weighted_round_robin_balancer.go:77-79 | a pick changes only its own service's picker, object by object |
| WeightedRoundRobin.Balancer.Balance | selector/weighted_round_robin_balancer.go:63-80 | one call is one step of the table of independent per-service machines |
| WeightedRoundRobin.RefreshFreeRun | selector/weighted_round_robin_balancer.go:33-61 | between refreshes the t-th call is answered from the snapshot by the t-th pick, whatever list it passes |
| WeightedRoundRobin.RefreshFreeRunIsFair | selector/weighted_round_robin_balancer.go:33-61 | any W consecutive answers between refreshes choose snapshot node i exactly weight_i times |
| WeightedRoundRobin.BalancesFairly | selector/weighted_round_robin_balancer.go:33-80 | from a new balancer and in any interleaving of services, if all calls of a service pass as many nodes as its first, within the period since its picker was made, any W consecutive answers choose node i of its first list exactly weight_i times |
| WeightedRoundRobin.AnswerMayBeStale | selector/weighted_round_robin_balancer.go:38-43 | a concrete call is answered with a node its list does not contain |
| WeightedRoundRobin.AnswersAreListedIff | selector/weighted_round_robin_balancer.go:38-59 | over any W consecutive refresh-free answers (one if W = 0) all lie in a given list if and only if every snapshot node of positive weight does (its first node if W = 0) |
| WeightedRoundRobin.RefreshRestarts | selector/weighted_round_robin_balancer.go:38-43 | a call past the period or with another number of nodes is answered from its own list by the first pick of a fresh snapshot, and all later calls as by a picker made from that list at that clock reading |
| WeightedRoundRobin.EmptyCallIsIgnored | selector/weighted_round_robin_balancer.go:34-36 | a call without nodes gets none and changes no later answer |
| WeightedRoundRobin.SnapshotOrigin | selector/weighted_round_robin_balancer.go:33-75 | in any run of a new picker what it remembers comes from one call so far: its list, and the clock as read at its refresh (or when the picker was made) |
| WeightedRoundRobin.AnswersAreFresh | selector/weighted_round_robin_balancer.go:33-61 | in any run of a new picker, refreshes included, an answer is a node of the list passed by the call itself, or by an earlier call with as many nodes whose clock reading lies at most the period back |
| WeightedRoundRobin.BalancesFresh | selector/weighted_round_robin_balancer.go:33-80 | the same from a new balancer, for each service in any interleaving of services |
| KeyedRuns.Isolation | selector/weighted_round_robin_balancer.go:63-80 | in a table of state machines created on first use, the results of one key are those of a machine of its own that gets only its calls |
| RoundRobin.Picker.Pick | selector/round_robin_balancer.go:20-41 | the stored index always is the turn modulo the list length; pick number t since a reset returns position t mod n |
| RoundRobin.Balancer.Balance | selector/round_robin_balancer.go:43-60 | one call is one step of the table of independent per-service machines |
| RoundRobin.ResetFreeRun | selector/round_robin_balancer.go:25-40 | between resets successive calls return successive positions modulo n of their own lists |
| RoundRobin.ResetRestarts | selector/round_robin_balancer.go:25-30 | a call past the period or with another number of nodes gets position 1 modulo n of its list, and all later calls are answered as by a picker made for that length at that clock reading |
| RoundRobin.EmptyCallIsIgnored | selector/round_robin_balancer.go:21-23 | a call without nodes gets none and changes no later answer |
| RoundRobin.EveryNodeOncePerRound | selector/round_robin_balancer.go:25-40 | any n consecutive picks between resets return every position exactly once |
| RoundRobin.AnswersAreListed | selector/round_robin_balancer.go:20-41 | through any list changes and timeouts the answer is a node of the list passed, and none exactly for an empty list |
| RoundRobin.BalancesInTurn | selector/round_robin_balancer.go:20-60 | from a new balancer and in any interleaving of services, if all calls of a service pass as many nodes as its first, within the period since its picker was made, its t-th answer is position t+1 modulo n of the list passed |
| PoolModel.CloseReturnsIff | pool/connpool/pool_conn.go:24-38 | `PoolConn.Close` returns exactly when the connection is unusable or the pool is open with room; it deadlocks exactly for a usable connection of a closed pool, and recurses for ever exactly for a usable one and a full queue |
| PoolModel.PutReturnsIff | pool/connpool/connection_pool.go:178-196 | `Put` called without the connection's lock returns exactly when the pool is closed, has room, or the connection is unusable, and never deadlocks |
| PoolModel.FullQueueNeverFinishes | pool/connpool/connection_pool.go:189-195 | with a full queue the mutual recursion of `Put` and `Close` on a usable connection never ends |
| PoolModel.StepKeepsOwned | pool/connpool/connection_pool.go:137-228 | every step keeps the ownership invariant |
| PoolModel.OwnershipPartition | pool/connpool/connection_pool.go:97-228 | in every reachable state each connection is in exactly one place, the queue is duplicate-free, within capacity and usable, closed implies unusable, and dropped implies closed |
| PoolModel.RunIsMonotone | pool/connpool/connection_pool.go:161-196 | a closed pool stays closed and empty; unusable, closed and dropped connections stay so |
| PoolModel.CloseIsFinal | pool/connpool/connection_pool.go:161-176 | after Close everything that was queued is closed for good and nothing is ever queued again |
| PoolModel.ReturnAfterCloseIsStuck | pool/connpool/pool_conn.go:24-38 | returning a usable connection to a closed pool blocks on the connection's own lock; through all that others do meanwhile it stays held, usable and unclosed, and the return never finishes |
| PoolBounds.StuckHolderInput | pool/connpool/connection_pool.go:161-196 | a reachable such state: get the one connection, close the pool |
| PoolModel.DoubleCloseShares | pool/connpool/pool_conn.go:24-38 | closing a connection twice queues it twice, and two clients get it |
| PoolModel.KeptIsFilter | pool/connpool/connection_pool.go:210-228 | what a sweep keeps are the queued connections that pass |
| PoolModel.SweepTurn | pool/connpool/connection_pool.go:210-228 | a pop and a verdict extend the filtered part by one, and the Put back always has room |
| PoolModel.StepCapacity | pool/connpool/connection_pool.go:137-159 | no step raises the live connections above one more than the clients then hold or dial, since a dial needs an empty queue |
| PoolModel.PoolCapacity | pool/connpool/connection_pool.go:125-159 | over every run the live connections never exceed the initial ones or the clients' peak plus one |
| PoolModel.NoPutMeetsFullQueue | pool/connpool/connection_pool.go:178-196 | if the peak stays below the capacity, every close of a held connection of an open pool and every put-back by the checker returns |
| PoolModel.DialsAreAccounted | pool/connpool/connection_pool.go:137-159 | over every run the dials under way are those at the start and those started less those ended, by success or failure |
| PoolBounds.ClientBoundIsTight | pool/connpool/connection_pool.go:178-228 | for every capacity a run with that many clients' connections ends with the checker in a Put that never returns |
| ChannelPool.PoolConn.Close | pool/connpool/pool_conn.go:24-38 | closes an unusable connection, queues any other, under exactly the condition to return |
| ChannelPool.PoolConn.ReadOrWrite | pool/connpool/pool_conn.go:46-68 | an unusable connection refuses; a failure makes it unusable and closes it |
| ChannelPool.ChannelPool.Put | pool/connpool/connection_pool.go:178-196 | queues, or closes on a closed pool or full queue; the mutual recursion with Close terminates |
| ChannelPool.ChannelPool.Get | pool/connpool/connection_pool.go:137-159 | the oldest queued connection, always usable; else a new one; takes the steps of the transition system |
| ChannelPool.ChannelPool.Return | transport/client_transport.go:83 | the one Close of a holder takes the return step |
| ChannelPool.ChannelPool.Use | pool/connpool/pool_conn.go:46-68 | input or output by a holder takes the failure step exactly when it fails on a usable connection |
| ChannelPool.ChannelPool.Mark | pool/connpool/pool_conn.go:40-44 | marking by a holder takes the mark step |
| ChannelPool.ChannelPool.CheckOne | pool/connpool/connection_pool.go:214-226 | one turn of the checker takes its two steps |
| ChannelPool.ChannelPool.Sweep | pool/connpool/connection_pool.go:210-228 | an uninterrupted sweep leaves exactly the connections that pass, in order, and every other one unusable and closed |
| ChannelPool.ChannelPool.Close | pool/connpool/connection_pool.go:161-176 | takes the channel away and closes all it held: the close step |
| PoolModel.SurplusInitialPutHangs | pool/connpool/connection_pool.go:125-131 | after as many initial connections as the queue holds the next Put never returns |
| ChannelPool.NewChannelPool | pool/connpool/connection_pool.go:97-135 | succeeds exactly if all initial dials do, then queues them all; on a failed dial the earlier connections stay open; required is just that no Put meets a full queue |
| ChannelPool.ChannelPool.Lend | pool/connpool/connection_pool.go:137-159 | a holder gets a usable connection, the oldest queued one or a new one, and there is room to take it back |
| ChannelPool.ChannelPool.GiveBack | pool/connpool/pool_conn.go:24-68 | a connection given back is queued last if its use did not fail, else closed |
| PutCloseRace.PutEffect | pool/connpool/connection_pool.go:178-196 | a statement of Put runs only while nobody holds the write lock, moves only its goroutine, and sends only on an open channel |
| PutCloseRace.CloseKeepsOthers | pool/connpool/connection_pool.go:161-176 | a statement of Close keeps every other goroutine's invariant |
| PutCloseRace.NextKeepsInv | pool/connpool/connection_pool.go:161-196 | every statement of every goroutine keeps the invariant |
| PutCloseRace.NeverPanics | pool/connpool/connection_pool.go:161-196 | under every interleaving no Put sends on a closed channel and the channel is closed at most once |
| PutCloseRace.NothingEntersAfterClose | pool/connpool/connection_pool.go:161-196 | once the channel is closed nothing is sent any more |
| PutCloseRace.FinishedCloseDrained | pool/connpool/connection_pool.go:171-175 | when the closing Close has finished, all ever sent was received, in the order sent |
| PutCloseRace.SentIffRoom | pool/connpool/connection_pool.go:189-191 | in every run exactly the connections whose Put reached the send of the open channel with room enter the queue, in that order |
| PutCloseRace.PutAloneQueues | pool/connpool/connection_pool.go:178-196 | a Put running alone on an open channel with room ends after five statements with its connection queued last and all else as before |
| PutCloseRace.PutAloneCloses | pool/connpool/connection_pool.go:178-196 | a Put running alone of an unusable connection on a full queue, or of any on a closed pool (which marks it), ends with queue and channel as before |
| PutCloseRace.PutAloneGoesRound | pool/connpool/connection_pool.go:189-195 | a Put of a usable connection, running alone on a full queue, never ends: after any number of statements it is at another statement of a further nested Put |
| PutCloseRace.PutAloneIsPut | pool/connpool/connection_pool.go:178-196 | a Put running alone ends exactly when the Put of the transition system returns, and then leaves its queue |
| PutCloseRace.CloseAloneIsClose | pool/connpool/connection_pool.go:161-176 | a Close running alone takes the channel away, closes it once and receives all it held, in order, as the close step of the transition system; on a closed pool it does nothing |
| Codec.BigEndianRoundTrip | codec/codec.go:108-112 | a 32-bit length survives its big-endian form |
| Codec.BigEndianDigits | codec/codec.go:108-112 | the four bytes of a 32-bit length are its base 256 digits, the highest first |
| Codec.Encode | codec/codec.go:64-125 | 15 header bytes with magic and length, then the payload; Decode gives the payload back |
| Codec.EncodedLayout | codec/codec.go:64-130 | 0x11 at byte 0, the length modulo 2^32 at bytes 7 to 11, zero in all other header bytes, the payload from byte 15 |
| Streams.ParsesIffWellFormedPrefix | transport/transport.go:54-86 | a frame is read exactly when some prefix of the stream is well formed; that unique prefix is returned and the rest left |
| Streams.ParseFailureIff | transport/transport.go:54-86 | a wrong magic and a length over 4 MiB are reported, with only the header consumed, exactly when a whole header has them; missing bytes are reported, with all consumed, exactly when header or payload is cut off |
| Streams.EncodedRoundTripIff | transport/transport.go:54-86 | an encoded payload is read back whole if and only if it has at most 4 MiB |
| Streams.FramesOfConcat | transport/transport.go:54-86 | well-formed frames before any tail are read one by one, and reading goes on as on the tail alone |
| Streams.StreamSplits | transport/transport.go:54-86 | every stream is its leading frames and a tail no frame starts |
| Streams.StreamRoundTrip | codec/codec.go:64-130 | the concatenated encodings of payloads are read back as those frames, each decodes to its payload, then the end is reported |
| Streams.CleanEndIff | transport/server_transport.go:166-169 | a stream counts as cleanly ended exactly when nothing or one bare header announcing a payload is left |
| Streams.BareHeaderInput | transport/server_transport.go:166-169 | a concrete header without its payload that passes for a clean end |
| Transport.ReadFull | transport/transport.go:58-60 | whatever the chunks, exactly the bytes wanted or all there are are consumed, with the errors of a short read, and the rest of the buffer is untouched |
| Transport.TwelveDoublings | transport/transport.go:15-18 | twelve doublings of the first buffer reach exactly the largest payload |
| Transport.Framer.Grow | transport/transport.go:74-78 | the buffer stays 1024·2^counter with counter at most 12, always fits an accepted length, and is never doubled needlessly |
| Transport.Framer.ReadFrame | transport/transport.go:54-86 | result and unread rest are those of the stream parser under any chunking and whatever the buffer held; the frame is a new array |
| Transport.ReadAllFrames | transport/transport.go:54-86 | one framer reads exactly the frames of a stream, and frames returned earlier are unchanged at the end |
| ServicePath.ParsesIff | utils/addr_parse.go:27-33 | a path parses exactly if it starts with a slash and contains another |
| ServicePath.RenderParsed | utils/addr_parse.go:27-33 | a parsed path renders back to itself and its method has no slash |
| ServicePath.ParseRenderedIff | utils/addr_parse.go:27-33 | a rendered pair parses back if and only if the method has no slash |
| ServicePath.ClientAndServerAgree | service.go:126-130 | the server parses out of the client's rendered path the pair the client had split off |
| Interceptors.ContinuationIsFold | interceptor/Interceptor.go:22-30 | what an interceptor is given to call is the fold of the later ones |
| Interceptors.ChainIsFold | interceptor/Interceptor.go:13-49 | the chain built by recursion is the right fold of the interceptors over the handler |
| Interceptors.ChainOfConcat | interceptor/Interceptor.go:32-49 | chaining a ++ b is chaining a around the chain of b |
| Interceptors.ChainsAgree | interceptor/Interceptor.go:13-30 | handlers that agree on the calls a chain makes are interchangeable under it |
| Interceptors.ChainRunsInOrder | interceptor/Interceptor.go:13-49 | if each interceptor calls on exactly once, all run in order, then the handler once, then their second halves, which see their own request and the outcome, in reverse |
| Service.HandledIff | service.go:101-150 | for any bytes: a request whose path names a registered method runs that handler once and no other, and is answered by it; for any other no handler runs and the service itself answers in one of three ways |
| Service.ExecutedIff | service.go:136-147 | a payload that does not decode gives the decoding error and changes nothing; else the reply is marshalled, or the error returned, and the state is what the handler leaves |
| Service.ReflectedErrorIsLost | server.go:109-134 | for every interceptor list a handler made by reflection depends only on its method's replies to the request as first decoded: neither on the method's errors nor on any other request |
| Service.ReplacedRequestIsIgnored | server.go:126-133 | a request put in its place by an interceptor reaches a generated handler's method but not a reflected one |
| ServerTransport.AddRspHeader | transport/server_transport.go:238-256 | an answer gives code 0, "success" and the payload; a coded error its own code and message; any other error code 100 and a fixed message |
| ServerTransport.ReturnCodeIff | transport/server_transport.go:200-256 | for any request bytes: code 0 exactly for an answer (or a coded error 0) of the handler reached; of the others, 301 exactly for a malformed path and 100 exactly for undecodable bytes or an unknown method |
| ServerTransport.ServeOne | transport/server_transport.go:163-184 | one turn writes one response for a frame and nothing otherwise |
| ServerTransport.HandleConn | transport/server_transport.go:150-187 | for any stream: if the context is done after k of its leading frames, exactly those k were handled, one response written for each in order, and the loop ends cancelled; else all were, and it ends with the final error of the stream; the output is cut off only where the connection takes no more |
| Client.Exchange | transport/client_transport.go:85-106 | a request the connection does not take fails with nothing read; one it takes under a context that is done is written whole and given up with nothing read; else it is written whole and one frame of the stream is read |
| Client.SendTcpReq | transport/client_transport.go:64-107 | the address chosen and the connection taken from the pool; by the same three cases what the caller gets, what is read of the network connection under it and no other, and whether the connection is now unusable; if not, it is queued last again |
| Client.AddReqHeader | client/client.go:162-184 | the rendered path, the payload and the merged metadata |
| Client.LastCredentialWins | client/client.go:169-175 | each metadata key has the value of the last credential that has it |
| Client.LastSettingWins | client/client.go:60-62 | of settings that each set one option, the last for an option decides it |
| Client.UndecidedOptionStays | client/client.go:60-62 | an option that none of them sets keeps its value |
| Client.SetCredentialIsSent | client/client.go:169-175 | the metadata sent has every key of the credentials last set, with the value of the last credential that has it |
| Client.InvokedIff | client/client.go:93-156 | a reply is returned exactly when a frame comes back that holds a response of code 0 whose payload decodes to it; a request that does not marshal is not sent and gives error 301 |
| Client.Client.Invoke | client/client.go:58-90 | the shared options end a chain in which each setting is applied to what the one before it left; a bad path then fails with nothing remembered or sent; else the remembered parts render to the path and the call runs inside the interceptors |
| Rpc.SuccessIff | client/client.go:93-156 | over the byte stream the caller gets a reply exactly when the handler answers the caller's own message with one, both have non-empty encodings and the response has at most 4 MiB; it is then the handler's reply |
| Rpc.CodePreservedIff | client/client.go:149-151 | over the byte stream a coded error arrives with its code and message exactly when the code is not 0 and the response fits; any other error arrives as code 100 |
| Rpc.ReflectedErrorsAreInvisible | server.go:109-134 | methods registered by reflection that give the same replies make the server do and write the same, whatever errors they return |
| Rpc.ReflectedMethodRuns | server.go:120-133 | inside interceptors that pass calls and outcomes on, the method runs once, in the state and metadata they make but on the caller's own request |
| Rpc.ReflectedResultIff | server.go:120-133 | the caller then gets the method's reply even if it failed, and its own result exactly when it returned no error (or the reply cannot be delivered and fails alike) |
| Rpc.ServerAnswersDirectly | service.go:101-150 | the server runs the handler once, on exactly the caller's method, message and metadata, and its answer goes back |
| Rpc.ResponseIsUnderstood | client/client.go:137-154 | the caller reads the handler's result out of the response frame |
| Rpc.RpcRefinesDirectCall | client/client.go:93-156 | a call over the byte stream delivers what the handler's answer gives, or reports a response over 4 MiB, and leaves the handlers' state as one direct call does |
| Rpc.OtherCallsAreCutOff | transport/server_transport.go:163-184 | a request over 4 MiB runs no handler, a response that does not marshal is not written, and both calls end with the connection's end |
| Rpc.CallOn | transport/client_transport.go:85-106 | the code of both ends, each going on where it was on a connection used before, is one turn of a session |
| Rpc.CallOver | transport/server_transport.go:150-187 | the code of both ends on a new connection is the network of the refinement theorems |
| Rpc.InterceptedRpcRefinesDirectCall | client/client.go:88-89 | the client's interceptor chain over the network gives and does what the same chain over the direct call does, however often it calls |
| Sessions.SessionIsOneStream | transport/server_transport.go:150-187 | whatever the calls do, the server ends as its loop does that is given all they wrote at once, and what is left to read is the end of what that loop writes |
| Sessions.GivenBackInStepIff | transport/client_transport.go:83-106 | exactly when a call gives a connection back in step: it returned a frame, or was given up with nothing to come; exactly when it returns a frame, leaves the connection usable, and has its handler run |
| Sessions.HandlersRunInOrder | transport/server_transport.go:150-187 | every request written runs its handlers exactly once, in the order sent, whether or not anybody waits |
| Sessions.CleanSessionIsAsNew | transport/client_transport.go:83-106 | while every earlier call returned a frame, a call gets what it would on a connection of its own in the state one run of each earlier request leaves |
| Sessions.WaitingTurnTakes | transport/client_transport.go:94-106 | a waiting call takes the response to the k-th request if k calls waited before, its own exactly when no earlier call was given up |
| Sessions.OversizeResponseFailsNext | transport/transport.go:66-72 | after a response over 4 MiB the connection is handed out again and the next call reads the payload for a header and fails |
| Sessions.OutOfStepInputs | transport/client_transport.go:83-106 | concrete sessions in which the second call gets the first one's response, or an error |
| PooledCalls.PooledCallIsTurn | transport/client_transport.go:77-106 | over a pool of many connections a call gets what the last turn of a session gets of the calls that got the same connection |
| PooledCalls.QueueMoves | transport/client_transport.go:77-106 | a call takes the connection queued first, or a new one, and queues it last again unless it marked it unusable |
| PooledCalls.PooledCallTakes | transport/client_transport.go:77-106 | a waiting call gets its own response exactly when no earlier call on its connection was given up |
| PooledCalls.CallGetsOwnIff | transport/client_transport.go:77-106 | calls use n pooled connections in turn, so a waiting call gets its own response exactly when none of the calls n, 2n, ... before it was given up |
| Rpc.HandlersRunOncePerCall | transport/server_transport.go:150-187 | each call of a session runs its handler exactly once, in the order sent: the handlers' state is what the direct calls leave, one after the other |
| Rpc.SessionRefinesDirectCalls | transport/server_transport.go:150-187 | while every earlier call on the connection returned a frame, a call gets what it gets over a network of its own, and leaves the same state |
| Rpc.AbandonedCallsShiftReplies | transport/client_transport.go:83-98 | a waiting call gets what the k-th call should get, if k calls waited before: its own exactly when no earlier call was given up |
| Rpc.OversizeReplyFailsNext | transport/transport.go:66-72 | after a response over 4 MiB the next call on the connection fails whatever it is, though its handler runs, and the connection stays in use |

## Left out

- SmoothWeighted.CycleIsFair: weights are taken as not negative; the picker itself is modelled for any weights
- HarmonicBacklog.GroupBacklog: that the bound is reached is not shown
- PutCloseRace.NeverPanics: the reads of the channel field outside the lock, in Get and the checker, are not part of the interleaving; progress is not claimed, and a lock that prefers waiting writers would only remove behaviours
- Rpc.RpcRefinesDirectCall: the serialization libraries are abstract: what they marshal is assumed to unmarshal to the same message, except that payload serializers refuse empty input
- Sessions.GivenBackInStepIff: requests and responses of 2^32 bytes or more are excluded; their headers announce a length modulo 2^32 (Codec.EncodedLayout)
- Rpc.HandlersRunOncePerCall: the handlers' state changes by this connection's requests alone; how those of several connections interleave is not modelled
- PooledCalls.CallGetsOwnIff: calls follow one another, nobody else uses the pool meanwhile, dialling succeeds, and handlers keep no state
- Client.SendTcpReq: the Read or Write that fails marks the connection after the exchange; the pool for an address is given
- Client.AddReqHeader: the metadata map of the caller's context is filled in place, here it is a value
- the picker objects under concurrent callers: `pick` takes no lock, so Balance calls are steps
- the table of pools by address and racing first calls for one address (pool/connpool/connection_pool.go:65-82)
- how the checker reaches its verdict (age since the connection was made, a probing read): a predicate
- dialling, sockets and real time: outcomes and clock readings are inputs of a step
- timeouts and cancellation inside a handler, and the options stored in shared transport objects
- name-to-implementation registries, option setters, stream contexts, logging, plugins, signals and the accept loop
- TLS, OAuth2, consul, jaeger, HTTP and UDP transports, the random and hash balancers
