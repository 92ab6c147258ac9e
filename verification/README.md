# Verified models of an Ethash miner with an FPGA back end

This project models the parts of the miner that are hard to get right and proves what they promise.
`dafny verify dfyconfig.toml` checks all of it.

| file | what it models |
|---|---|
| `Keccak.dfy`, `KeccakContext.dfy` | the incremental Keccak context against the sponge of sections 4 and 5.1 of FIPS 202 |
| `Ethash.dfy`, `EthashTrace.dfy` | dataset items, the full dataset and the search kernel's hash, from table or light cache, in place and word by word |
| `Worker.dfy` | the worker thread's life cycle, as interleaved atomic steps of worker and controllers |
| `DagLoad.dfy` | sequential DAG loading, as interleaved steps of n miners |
| `Hex.dfy`, `FixedHash.dfy` | big-endian bytes, hex text, and the fixed-size hash that is both |
| `NonceSegments.dfy`, `Farm.dfy`, `NonceUse.dfy` | division of the nonce space, extranonce, accounting of solutions |
| `FpgaMiner.dfy` | the FPGA work loop against an in-order device |
| `StratumFraming.dfy`, `StratumPleas.dfy`, `StratumMessages.dfy`, `StratumReplies.dfy`, `StratumClient.dfy` | line framing, reply timing, job gating, what replies mean, protocol detection |
| `PoolManager.dfy` | connection rotation |
| `Work.dfy` | work packages and solutions, as they pass between farm and miner |
| `Arith.dfy` | shared word sizes, optional values, concatenation, and arithmetic facts |

Objects that the program updates in place are classes whose methods are proved against functions on values; what
the program promises is then proved about those functions, or kept as an invariant over whole runs. The two
protocols between threads are transition systems. Threads, sockets, clocks, random numbers, the device and the pool
enter as parameters: sequences of events, times, turns or messages, over which every statement is universal.

## How the models read

- **Keccak.** A `uint64_t` is its eight little-endian bytes, so the state is 200 bytes. `Words64` shows that the
  word operations the code uses are exactly the byte operations of the model. The permutation is a parameter.
- **Ethash.** Words are 32-bit integers. The two Keccak digests, FNV and exclusive or are parameters of the
  algorithms (`Primitives`); `Standard` fills in the last two. The 40-byte seed is a parameter, because the store
  of the nonce into it is commented out. The node in which the kernel keeps a computed item is taken to live as
  long as the pointer to it is used.
- **Nonce space.** `log2` and `pow` are exact. `exSizeBytes` counts hex digits, whatever its name says.
- **FPGA loop.** The queue is in order and reads block, so the device is its buffers after all commands so far.
  The kernel is what it finds.
- **Stratum.** All handlers run on one strand, so each is atomic. A message is its outcome in every test the code
  makes on it.

## Where code and intention differ

The models follow the code. These are the places where it does not do what its comments, its help text or its
callers suggest; each has a statement of exactly when it does.

- `kec_update` does not lower the counter of its carry loop. An update that would fill up a word started by an
  earlier one never ends: `CarryNeverEnds`. `Sha3Context.Update` ends exactly when the context is at a word
  boundary or the data do not reach the next one, and a sequence of updates ends exactly when it is `Chunkable`.
- The worker's branch that restores `Starting` is never taken (`StartingNeverExchangedOut`). A `startWorking` that
  meets a stop not yet finished starts nothing (`StartBeginsIff`; `LostStart` is such a run).
- Sequential DAG loading lets every miner pass whose turn is over, so miners load together if one starts a second
  round before the first is over (`OverlappingRoundsCollide`); within rounds they do not (`OneAtATimeInOrder`). A
  miner told to stop leaves at its turn without passing it on. After that exactly the miners before it can ever load
  again (`EntersAfterStopIff`), so it blocks someone exactly when it is not the last (`StopBlocksIff`).
- The monitored start time of the reply timer lags one request behind, so the timer is never late but can be
  early (`ResponseOverdue`). While connecting or disconnecting the comparison is the wrong way round
  (`PendingGivesUp`).
- The comment at the dispatch says that the last job of a transmission is dispatched. In modes 0 to 2 it is the
  first (`FirstJobDispatched`, `FirstNotLast`). In mode 3 it is the last, but possibly under the id of a later,
  incomplete notification (`ForeignJobId`). There the gate is closed at the dispatch exactly when a hello reply came
  after the job and no `mining.set` took effect after that hello (`GateAtDispatchIff`; `HelloClosesGate` is such a
  read). A pool that answers only logins it was sent does not do that (`HonestPoolGate`).
- `fromHex` asked not to throw returns no bytes for a bad string (`FromHex`); its documentation promises zeros.
- `accountSolution` raises the farm's counter before it checks the miner's index, so conservation is kept exactly
  when the index is in range (`AccountSolution`).
- Comparing with the upper 64 bits of the boundary decides unless the upper halves are equal (`TargetDecides`); then
  the farm's check decides (`SubmitProofAsync`).
- With zero retries, which the command line accepts, rotation skips the active pool (`NoRetriesSkipsActive`).
- With more miners than nonces left by the extranonce, and only then, the prefix is lost (`PrefixKeptIff`).
- Of what a launch found and the device stored, a nonce is submitted exactly when the turn right after the launch
  has work and the nonce does not repeat the one remembered from earlier launches (`ResultSubmittedIff`). That one is
  kept across jobs, so a first result of a new job is dropped when its nonce was the last one submitted for the old
  job (`DroppedAcrossJobs`); results read in a turn without work are gone (`LostWhileIdle`). A new job with the same
  header keeps the old start nonce and target (`LaunchesChained`).
- A package that repeats the header with another epoch is searched on the dataset of the old epoch, and so are later
  jobs of that epoch. All launches have the right dataset exactly when no package does that (`DagsRightIff`;
  `StaleDag` is such a run).
- Nothing ties the work size, or the number of launches, to the width of a segment. A miner stays in its segment
  exactly as long as its launches together are no longer than it (`StaysInSegmentIff`), two miners try a common nonce
  exactly when the launches of the one reach the other's segment or go round to it (`MinersCollideIff`;
  `FirstLaunchesCollide` shows it for first launches), and submissions complete the extranonce exactly as long as the
  launches end within the residual space (`SubmissionsCompleteIff`).
- The kernel accepts sizes that are multiples of 32, the table builder multiples of 128.

## Model

| member | source | states |
|---|---|---|
| `Words64.PackIsBytewise` | libethash-fpga/includes/kec.cpp:66-138 | `^` and `\|` on 64-bit words are `^` and `\|` on their little-endian bytes |
| `Words64.ShiftedByte` | libethash-fpga/includes/kec.cpp:66-138 | shifting a byte by 8k puts it at position k of the word and zeros elsewhere, including the top pad bit |
| `Words64.UnpackInverts` | libethash-fpga/includes/kec.cpp:140-176 | the bytes written out of a lane are those it was packed from |
| `Sponge.PadFills` | libethash-fpga/includes/kec.cpp:140-176 | the padding is at least one byte, at most a block, and completes the last block |
| `Sponge.PadIsPad10Star1` | libethash-fpga/includes/kec.cpp:140-176 | the byte padding is, bit by bit, pad10*1 of section 5.1 of FIPS 202, also when both one-bits share a byte |
| `KeccakContext.AbsorbJoin` | libethash-fpga/includes/kec.cpp:106-130 | absorbing words one string after the other is absorbing the joined string |
| `KeccakContext.WordsAreBlocks` | libethash-fpga/includes/kec.cpp:106-130 | absorbing word by word, permuting at the rate, equals the sponge's absorbing phase block by block |
| `KeccakContext.LastBlock` | libethash-fpga/includes/kec.cpp:140-155 | XORing pending bytes and both pad bits in place is XORing in the padded last block |
| `KeccakContext.FinishIsSponge` | libethash-fpga/includes/kec.cpp:140-176 | word-wise absorption of any message and finishing it is the sponge on the padded message |
| `KeccakContext.Sha3Context.constructor` | libethash-fpga/includes/kec.cpp:48-56 | an all-zero context that has absorbed nothing, with capacity twice the digest |
| `KeccakContext.Sha3Context.XorWord` | libethash-fpga/includes/kec.cpp:106-130 | exactly the eight bytes of one lane change, by exclusive or |
| `KeccakContext.Sha3Context.AbsorbOne` | libethash-fpga/includes/kec.cpp:118-130 | the word index stays below the rate; the permutation is applied exactly when the rate is full |
| `KeccakContext.Sha3Context.AbsorbAll` | libethash-fpga/includes/kec.cpp:106-130 | all whole words of the buffer are absorbed in order, the context stays consistent |
| `KeccakContext.Sha3Context.Save` | libethash-fpga/includes/kec.cpp:66-138 | the bytes join those waiting in `saved` |
| `KeccakContext.Sha3Context.Update` | libethash-fpga/includes/kec.cpp:66-138 | ends exactly when the carry loop is not entered, and then the context has absorbed exactly the data in addition |
| `KeccakContext.Sha3Context.Finalize` | libethash-fpga/includes/kec.cpp:140-155 | the state is the sponge's after the padded message, whatever updates fed it in |
| `KeccakContext.HashBuffer` | libethash-fpga/includes/kec.cpp:178-190 | for every message and both digest sizes, the FIPS 202 sponge at the rate of the digest size, cut to the output length |
| `KeccakContext.HashShort` | libethash-fpga/includes/kec.cpp:178-190 | a message shorter than the rate is hashed by one permutation, of message, padding and zeros |
| `KeccakContext.CarryNeverEnds` | libethash-fpga/includes/kec.cpp:85-91 | after any number of turns the carry loop's guard still holds |
| `KeccakContext.FlatUnique` | libethash-fpga/includes/kec.cpp:66-138 | words and pending bytes are determined by the message |
| `KeccakContext.SameMessageSameContext` | libethash-fpga/includes/kec.cpp:66-138 | contexts that absorbed the same message are equal in every field, however it was cut |
| `KeccakContext.UpdateAll` | libethash-fpga/includes/kec.cpp:66-138 | a sequence of updates ends if and only if the chunks are `Chunkable`, and then has absorbed their concatenation |
| `KeccakContext.ChunkedAgreesWithOne` | libethash-fpga/includes/kec.cpp:66-138 | chunked absorption leaves the context of one update on the concatenation, word index below the rate |
| `Ethash.XorIsBitwise` | libethash-fpga/fpga_ethash.cpp:199-202 | the model's exclusive or is the bitwise one |
| `EthashTrace.FnvIsBitwise` | libethash-fpga/fpga_ethash.cpp:199-202 | bit by bit, the product with the prime modulo 2^32, exclusive or the second word |
| `Ethash.DagAt` | libethash-fpga/fpga_ethash.cpp:322-347 | a dataset item does not depend on the dataset's size |
| `Ethash.FnvInto` | libethash-fpga/fpga_ethash.cpp:298-320 | word-wise FNV in place changes these sixteen words and no others |
| `Ethash.ComputeDagItem` | libethash-fpga/fpga_ethash.cpp:298-320 | the node built up in place is the dataset item of the recursive definition, every parent index in bounds |
| `EthashTrace.ItemIff` | libethash-fpga/fpga_ethash.cpp:298-320 | a node is the dataset item if and only if it ends a sequence of 257 nodes, each word of each node being FNV of the word before it and the same word of the parent the node itself selects |
| `Ethash.ComputeFullDag` | libethash-fpga/fpga_ethash.cpp:322-347 | refuses other sizes; otherwise the table is a prefix of the dataset, the rest of memory untouched, and it is the whole dataset unless the callback, asked at a polled item, refuses |
| `Ethash.AccessesLocal` | libethash-fpga/fpga_ethash.cpp:454-475 | the mix depends only on the pages that can be addressed |
| `Ethash.PercentRange` | libethash-fpga/fpga_ethash.cpp:332-343 | the progress told to the callback is the share of items done, 0 to 100 per cent, rounded up |
| `Ethash.PolledEvery` | libethash-fpga/fpga_ethash.cpp:334-343 | the callback is asked before the first item and then exactly every hundredth part of the items |
| `Ethash.FetchNode` | libethash-fpga/fpga_ethash.cpp:454-475 | the node from the table or computed from the cache is the dataset's, index in bounds |
| `Ethash.MixPage` | libethash-fpga/fpga_ethash.cpp:454-475 | one access mixes both nodes of the addressed page into the mix and leaves the seed hash alone; `EthashTrace.HashIff` says it word by word |
| `Ethash.CompressInto` | libethash-fpga/fpga_ethash.cpp:477-484 | compression in place equals compression of the mix as it was |
| `Ethash.KrnlEthash` | libethash-fpga/fpga_ethash.cpp:421-494 | refuses sizes that are no multiple of 32; otherwise mix hash and result are Hashimoto's over the table, or over the dataset the cache defines |
| `EthashTrace.HashIff` | libethash-fpga/fpga_ethash.cpp:421-494 | a result is the hash over a dataset if and only if it ends a sequence of 65 mixes: the first is the seed hash twice, each word of the next is FNV of the word before and the word at the same place of the page selected, and the last is compressed by FNV of four words each |
| `EthashTrace.HashFromCache` | libethash-fpga/fpga_ethash.cpp:421-494 | for any cache, accepted size and seed the kernel without a table returns the end of such a sequence over nodes that each end such a sequence over the cache |
| `Ethash.FullEqualsLight` | libethash-fpga/fpga_ethash.cpp:421-494 | Hashimoto over the precomputed dataset equals Hashimoto over the cache's dataset |
| `Ethash.FullAgreesWithLight` | libethash-fpga/fpga_ethash.cpp:298-494 | for every cache, accepted size and seed, the kernel returns the same with the built table as with the light cache |
| `Worker.InvWorker` | libdevcore/Worker.cpp:44-80 | every worker step keeps the invariant tying state, worker position and controller position |
| `Worker.InvControl` | libdevcore/Worker.cpp:31-126 | every controller step keeps it |
| `Worker.RunInv` | libdevcore/Worker.cpp:31-126 | it holds at every point of every interleaving |
| `Worker.StartingNeverExchangedOut` | libdevcore/Worker.cpp:72-75 | the worker never exchanges out Starting |
| `Worker.OnlyWorkerLeavesStarting` | libdevcore/Worker.cpp:31-113 | with a thread, only the worker's claim takes the state out of Starting, to Started |
| `Worker.StoppedMeansPastExchange` | libdevcore/Worker.cpp:44-80 | Stopped is seen only while the worker is past its exchange or waits |
| `Worker.KillingIsKept` | libdevcore/Worker.cpp:115-126 | from the destructor's store on, Killing is in the state or in the worker's hand, next to be restored |
| `Worker.KillAllowsOneMore` | libdevcore/Worker.cpp:47-79 | after it at most one further `workLoop` begins |
| `Worker.StopReturnsOutside` | libdevcore/Worker.cpp:98-113 | when `stopWorking` returns the worker is outside `workLoop` |
| `Worker.StaysOutside` | libdevcore/Worker.cpp:44-113 | it stays outside, and begins no `workLoop`, until a later start |
| `Worker.StartBeginsIff` | libdevcore/Worker.cpp:31-86 | a call of `startWorking` makes exactly one `workLoop` begin if there was no thread or the state was Stopped, and none otherwise |
| `Worker.LostStart` | libdevcore/Worker.cpp:31-96 | a run in which a start that meets an unfinished stop returns and nothing is ever begun for it |
| `Worker.BlockedProgress` | libdevcore/Worker.cpp:44-126 | while a controller waits, every worker step lowers a measure and the waiting changes nothing |
| `Worker.EveryWaitEnds` | libdevcore/Worker.cpp:31-126 | in every fair infinite run, whether or not the object is destroyed in it, every wait of a controller comes to be over, at the place where it waits |
| `Worker.EveryCallReturns` | libdevcore/Worker.cpp:31-126 | with controllers scheduled too, every waiting call returns: start and stop release the mutex, the destructor's join comes back with the thread gone |
| `Worker.LifeIsFair` | libdevcore/Worker.cpp:31-126 | such runs exist: one in which a start waits and then the destructor's join, through the window in which Killing is not in the state |
| `Worker.OverStaysOver` | libdevcore/Worker.cpp:31-126 | a wait that is over stays over until the controller looks |
| `DagLoad.StepAt` | libethcore/Miner.cpp:134-167 | every step of any miner keeps the shape: those before the turn served, those after it queued |
| `DagLoad.OneAtATimeInOrder` | libethcore/Miner.cpp:134-167 | for any number of miners and rounds, in every interleaving, at most one miner is inside and they enter in index order |
| `DagLoad.TurnReturnsToZero` | libethcore/Miner.cpp:134-167 | whenever all have completed equally many loads and none is at it, the turn is 0 |
| `DagLoad.SomeoneCanProceed` | libethcore/Miner.cpp:134-167 | in every reachable state some miner can make a step that changes the state |
| `DagLoad.EveryWaiterLoads` | libethcore/Miner.cpp:134-167 | in every fair infinite run of rounds without a stop, every miner that waits for its turn comes to load |
| `DagLoad.EveryRoundEnds` | libethcore/Miner.cpp:134-167 | in every such run any number of rounds comes to be completed by all miners, and the turn is then back at 0 |
| `DagLoad.TwoIsFair` | libethcore/Miner.cpp:134-167 | such runs exist: two miners that load in turn for ever |
| `DagLoad.OverlappingRoundsCollide` | libethcore/Miner.cpp:134-167 | without the grouping in rounds two miners can be inside at once |
| `DagLoad.ShutForGood` | libethcore/Miner.cpp:134-167 | once the turn is at most c, miner c is gone and no later miner is inside, no later miner ever enters, whatever the others do: load, load again, or stop too |
| `DagLoad.StopShuts` | libethcore/Miner.cpp:147-148 | in a run of rounds a miner stops exactly at its turn, and those after it are exactly those that have not loaded in this round |
| `DagLoad.EntersAfterStopIff` | libethcore/Miner.cpp:134-167 | after the stop a miner can ever enter again if and only if it comes before the one that stopped |
| `DagLoad.StopBlocksIff` | libethcore/Miner.cpp:134-167 | a stop blocks some miner for good if and only if it is not the last miner's |
| `Hex.BigEndianInjective` | libdevcore/FixedHash.h:150 | equally long byte strings with the same value are equal |
| `Hex.ToBigEndian` | libdevcore/CommonData.h:105-115 | the bytes written spell the value modulo 256^N |
| `Hex.FromBigEndian` | libdevcore/CommonData.h:121-129 | the number returned is the big-endian value |
| `Hex.DigitRoundTrip` | libdevcore/CommonData.cpp:26-38 | reading a printed digit gives it back, and printing a read lower-case digit does |
| `Hex.DigitIsAscii` | libdevcore/CommonData.cpp:26-38 | the digits are 0 to 9 and a to f in order, capitals read alike |
| `Hex.ToHexValue` | libdevcore/CommonData.h:168-176 | the printed digits spell the number, for every number that fits |
| `Hex.ValueToHex` | libdevcore/CommonData.h:168-176 | printing what a lower-case hex string spells gives the string back |
| `Hex.ToHexSplit` | libdevcore/CommonData.h:168-176 | high and low digits print independently |
| `Hex.HexOfValue` | libdevcore/CommonData.h:63-72 | a byte string and its hex text spell the same number |
| `Hex.ToHexBytes` | libdevcore/CommonData.h:63-72 | the loop prints two digits a byte, in order, after the optional prefix |
| `Hex.FromHex` | libdevcore/CommonData.cpp:40-68 | succeeds exactly on hex digits after an optional 0x, the bytes then spelling the same number; otherwise throws or returns no bytes |
| `FixedHashes.FirstDifferenceDecides` | libdevcore/FixedHash.h:152-162 | the first differing byte decides the numeric order |
| `FixedHashes.IncrementValue` | libdevcore/FixedHash.h:198-204 | turning a tail of 255s to zeros and raising the byte before it adds one |
| `FixedHashes.FixedHash.FromArith` | libdevcore/FixedHash.h:88 | the hash's value is the arithmetic one modulo 256^N |
| `FixedHashes.AlignRightValue` | libdevcore/FixedHash.h:94-109 | bytes aligned right keep their number modulo 256^N |
| `FixedHashes.AlignLeftValue` | libdevcore/FixedHash.h:94-109 | bytes aligned left have their number multiplied, or divided, by the power of 256 of the difference in length |
| `FixedHashes.CopyAligned` | libdevcore/FixedHash.h:94-109 | the copying loop crops or fills up with zeros at the other end |
| `FixedHashes.FixedHash.FromBytes` | libdevcore/FixedHash.h:94-109 | the bytes themselves if there are N of them; otherwise aligned, or all zeros, by the policy |
| `FixedHashes.FixedHash.ToArith` | libdevcore/FixedHash.h:141 | the value, which is below 256^N |
| `FixedHashes.FixedHash.Equals` | libdevcore/FixedHash.h:150 | true exactly for equal values, and exactly for equal bytes |
| `FixedHashes.FixedHash.LessThan` | libdevcore/FixedHash.h:152-162 | true exactly when the value is less |
| `FixedHashes.FixedHash.AtLeast` | libdevcore/FixedHash.h:163 | true exactly when the value is not less |
| `FixedHashes.FixedHash.AtMost` | libdevcore/FixedHash.h:164 | true exactly when the value is not greater |
| `FixedHashes.FixedHash.GreaterThan` | libdevcore/FixedHash.h:165 | true exactly when the value is greater |
| `FixedHashes.FixedHash.Increment` | libdevcore/FixedHash.h:198-204 | the value goes up by one modulo 256^N, for every N and every value |
| `FixedHashes.FromString` | libdevcore/FixedHash.h:136-138 | throws exactly on non-hex text; otherwise the value spelled, or zero when the length is not N |
| `FixedHashes.ArithRoundTrip` | libdevcore/FixedHash.h:88-141 | to the arithmetic type and back is the identity on bytes |
| `FixedHashes.HexRoundTrip` | libdevcore/FixedHash.h:136-216 | printing, with or without prefix, and reading back is the identity on bytes |
| `NonceSegments.SegmentWidth` | libethcore/Farm.cpp:221-228 | the width is the largest power of two that n segments of it fit the residual space, 0 when not even one each fits |
| `NonceSegments.SegmentsDisjoint` | libethcore/Farm.cpp:235-239 | segments that fit the nonce space together share no nonce modulo 2^64 |
| `NonceSegments.ExtraNonceValue` | libpoolprotocols/stratum/EthStratumClient.cpp:713-719 | the start nonce is the extranonce followed by zero digits |
| `NonceSegments.SuffixCompletes` | libpoolprotocols/stratum/EthStratumClient.cpp:1634-1648 | extranonce and submitted suffix together are the nonce exactly when the nonce has that prefix |
| `NonceSegments.PrefixedIff` | libpoolprotocols/stratum/EthStratumClient.cpp:1634-1648 | a nonce has the prefix exactly when its quotient by the residual space is the extranonce |
| `NonceSegments.SegmentKeepsPrefix` | libethcore/Farm.cpp:221-239 | every nonce of every miner's segment keeps the extranonce as its hex prefix and is completed by its suffix |
| `NonceSegments.PrefixKeptIff` | libethcore/Farm.cpp:221-239 | all segments keep the prefix if and only if the miners fit the residual space |
| `Farms.Account.Bump` | libethcore/Farm.cpp:387-421 | one counter goes up, modulo 2^32, the others stay |
| `Farms.TotalBump` | libethcore/Farm.cpp:387-421 | bumping one miner raises the sum by one modulo 2^32, also where counters wrap |
| `Farms.Farm.constructor` | libethcore/Farm.h:289 | with at most 2^32 miners, segments of the default width fit the nonce space |
| `Farms.Farm.SetWork` | libethcore/Farm.cpp:195-240 | each miner gets its own segment's start; the segments keep fitting, also when the width persists from an earlier job |
| `Farms.WidthFits` | libethcore/Farm.cpp:221-228 | even for an extranonce job all segments together fit the nonce space |
| `Farms.Farm.Start` | libethcore/Farm.cpp:245-292 | one miner and one fresh telemetry entry per FPGA device, beside the entries of stopped miners; conservation kept |
| `Farms.FpgasCount` | libethcore/Farm.cpp:245-292 | the number of miners started is the number of FPGA devices |
| `Farms.Farm.Stop` | libethcore/Farm.cpp:297-317 | the miners go, telemetry stays |
| `Farms.Farm.AccountSolution` | libethcore/Farm.cpp:387-421 | conservation is kept if and only if the index is in range, which is when the call does not throw |
| `Farms.Farm.SubmitProofAsync` | libethcore/Farm.cpp:472-497 | a solution above its boundary is accounted as failed and goes no further; any other is handed on unaccounted, with the recomputed mix; one whose upper 64 bits are below the target is always handed on, one whose are above never, if evaluated |
| `Work.TargetIsUpper` | libethash-fpga/FPGAMiner.cpp:523 | the target is the quotient of the boundary by 2^192, 64 bits for a boundary of 256 |
| `Work.TargetDecides` | libethash-fpga/FPGAMiner.cpp:523 | a value whose upper half is below the target is below the boundary, and one not above the boundary has no greater upper half |
| `Farms.SubmissionIds.MinerOf` | libpoolprotocols/stratum/EthStratumClient.cpp:1115-1178 | the id of any submission since the last reset gives back its miner, and no id leads beyond the last miner that submitted |
| `Farms.IdsRoundTrip` | libpoolprotocols/stratum/EthStratumClient.cpp:1602-1604 | solutions submitted in any order, and replies in any order: each reply finds its miner |
| `Farms.AccountReply` | libpoolprotocols/stratum/EthStratumClient.cpp:1115-1178 | a reply to a submission raises exactly one counter, accepted or rejected, of the farm and of the miner that submitted: accepted if and only if there is no error and the result is not false, in mode 3 no error or one that begins with 2; any other reply changes none |
| `Farms.RunFarm` | libethcore/Farm.cpp:195-497 | over any run of starts, stops, jobs, proofs and replies every reply hits an existing entry, each farm counter is the sum of the miners' counters, and segments keep fitting |
| `Farms.MinersNeverOverlap` | libethcore/Farm.cpp:215-239 | whatever jobs came before, the segments that begin at the start nonces the miners hold share no nonce |
| `NonceUse.TriedIff` | libethash-fpga/FPGAMiner.cpp:554-582 | the launches of a job try exactly the nonces from their package's start on, one work size per launch |
| `NonceUse.StaysInSegmentIff` | libethash-fpga/FPGAMiner.cpp:554-582 | over every run on the farm's packages, all nonces tried for a job lie in the miner's segment if and only if the launches together are no longer than the segment, or the segment is the whole nonce space |
| `NonceUse.MinersCollideIff` | libethash-fpga/FPGAMiner.cpp:554-582 | over every pair of runs, two miners of a farm try a common nonce for a job if and only if the launches of the one reach the other's segment or go round to it |
| `NonceUse.FirstLaunchesCollide` | libethash-fpga/FPGAMiner.cpp:554-582 | with segments of one nonce and a work size of two the first launches of two miners already collide |
| `NonceUse.SubmissionsCompleteIff` | libpoolprotocols/stratum/EthStratumClient.cpp:1634-1648 | on an extranonce job all nonces a miner tries are completed by their suffix if and only if its launches end within the residual space |
| `NonceUse.SubmittedIsTried` | libethash-fpga/FPGAMiner.cpp:559-577 | every nonce submitted for a launch of the job is one that the job's launches tried |
| `FpgaMiners.ReportedSound` | libethash-fpga/FPGAMiner.cpp:559-577 | each reported solution is one of the results, under the package it was found for |
| `FpgaMiners.ReportedIff` | libethash-fpga/FPGAMiner.cpp:559-577 | a nonce is reported if and only if it is among the results and does not merely repeat the nonce remembered |
| `FpgaMiners.FpgaMiner.ReadResults` | libethash-fpga/FPGAMiner.cpp:462-492 | returns exactly the unread results, capped at the buffer, and leaves the counter at zero in both modes |
| `FpgaMiners.FpgaMiner.SwitchJob` | libethash-fpga/FPGAMiner.cpp:509-541 | fails exactly when a new epoch's setup does; otherwise header and target are the job's, the dataset is that of the last new epoch, and no stale result is left |
| `FpgaMiners.FpgaMiner.Report` | libethash-fpga/FPGAMiner.cpp:559-577 | the loop submits `Reported` and remembers the last nonce |
| `FpgaMiners.FpgaMiner.TakeTurn` | libethash-fpga/FPGAMiner.cpp:460-582 | one iteration is the function `Turned` of variables, device and log |
| `FpgaMiners.FpgaMiner.WorkLoop` | libethash-fpga/FPGAMiner.cpp:443-589 | the loop takes exactly the turns before the first whose epoch setup fails, and its log is that of `After` |
| `FpgaMiners.AlwaysLinked` | libethash-fpga/FPGAMiner.cpp:460-582 | after any turns, the loop's variables and buffers describe the last launch |
| `FpgaMiners.SubmittedPaired` | libethash-fpga/FPGAMiner.cpp:559-580 | over every run, each submitted solution has the package, header, start nonce, nonce and mix of one launch that found it |
| `FpgaMiners.LaunchesChained` | libethash-fpga/FPGAMiner.cpp:509-582 | launches under one header go on where the last ended; a new header starts at its own nonce and target |
| `FpgaMiners.DagsRightIff` | libethash-fpga/FPGAMiner.cpp:509-541 | over every run, every launch searches the dataset of its package's epoch if and only if no package repeats the header before it with another epoch |
| `FpgaMiners.StaleDag` | libethash-fpga/FPGAMiner.cpp:509-541 | a run in which a job of epoch 1 is searched on the dataset of epoch 0 |
| `FpgaMiners.FailsIff` | libethash-fpga/FPGAMiner.cpp:509-541 | a turn ends the loop if and only if its setup fails and it has work whose header and epoch both differ from those of the last launch, or nothing was launched yet |
| `FpgaMiners.TurnsScheduled` | libethash-fpga/FPGAMiner.cpp:497-557 | every turn with work makes one launch, in order, and no other does |
| `FpgaMiners.SubmittedExactly` | libethash-fpga/FPGAMiner.cpp:462-577 | over every run, exactly what is submitted for each launch: its stored results as reported in the turn right after it, if that has work, and nothing otherwise |
| `FpgaMiners.ResultSubmittedIff` | libethash-fpga/FPGAMiner.cpp:462-577 | over every run, a nonce is submitted for a launch if and only if the launch found it and it was stored, the next turn has work, and it does not repeat the nonce remembered from earlier launches |
| `FpgaMiners.RememberedNonce` | libethash-fpga/FPGAMiner.cpp:565-568 | the nonce remembered is that of the solution submitted last, for whatever job |
| `FpgaMiners.OnlyFirstRepeats` | libethash-fpga/FPGAMiner.cpp:565-568 | with different nonces in a launch only its first result can be dropped for repeating |
| `FpgaMiners.DroppedAcrossJobs` | libethash-fpga/FPGAMiner.cpp:565-568 | two jobs find the same nonce one after the other and only the first one's solution is submitted |
| `FpgaMiners.LostWhileIdle` | libethash-fpga/FPGAMiner.cpp:462-505 | a result read in a turn without work is never submitted |
| `FpgaMiners.NoGap` | libethash-fpga/FPGAMiner.cpp:579-582 | under one header every nonce from the first launch's start to the last one's end is tried |
| `FpgaMiners.NoOverlap` | libethash-fpga/FPGAMiner.cpp:579-582 | no nonce is tried twice as long as the launches stay within the nonce space |
| `StratumFraming.ScanJoin` | libpoolprotocols/stratum/EthStratumClient.cpp:1699-1750 | scanning text in two pieces is scanning it in one |
| `StratumFraming.TrimStrips` | libpoolprotocols/stratum/EthStratumClient.cpp:1712-1718 | what trimming takes off is spaces at both ends and nothing else |
| `StratumFraming.KeptPicks` | libpoolprotocols/stratum/EthStratumClient.cpp:1699-1750 | the lines kept are all that are not blank, trimmed, in order |
| `StratumFraming.SplitScans` | libpoolprotocols/stratum/EthStratumClient.cpp:1699-1750 | however a text is told apart in lines and a rest, the scanner finds these lines and that rest |
| `StratumFraming.SplitExists` | libpoolprotocols/stratum/EthStratumClient.cpp:1699-1750 | every text can be told apart so |
| `StratumFraming.LineReader.OnRead` | libpoolprotocols/stratum/EthStratumClient.cpp:1699-1750 | after a read, lines handed on and leftover are those of a character-at-a-time scanner, which are the stream's lines by `SplitScans`; the leftover has no newline |
| `StratumFraming.ReadAll` | libpoolprotocols/stratum/EthStratumClient.cpp:1699-1750 | for every way of cutting it, the stream is lines ended by newlines and the leftover, and the parser got these lines trimmed, without the blank ones |
| `StratumFraming.CutsAgree` | libpoolprotocols/stratum/EthStratumClient.cpp:1699-1750 | two ways of cutting one stream give the same lines and the same leftover |
| `StratumPleas.ResponsePleas.Enqueue` | libpoolprotocols/stratum/EthStratumClient.cpp:1878-1925 | the request joins the queue; the monitored time is set when it is the only one |
| `StratumPleas.ResponsePleas.Dequeue` | libpoolprotocols/stratum/EthStratumClient.cpp:1878-1925 | the oldest request leaves, the delay reported is at least what it waited; a reply nobody asked for changes nothing |
| `StratumPleas.ResponsePleas.Clear` | libpoolprotocols/stratum/EthStratumClient.cpp:1878-1925 | nothing is outstanding and the timing starts anew |
| `StratumPleas.ResponsePleas.ResponseOverdue` | libpoolprotocols/stratum/EthStratumClient.cpp:390-432 | fires whenever the oldest unanswered request is overdue; fires early exactly when the request answered before it would be |
| `StratumPleas.ResponsePleas.PendingGivesUp` | libpoolprotocols/stratum/EthStratumClient.cpp:390-432 | while connecting or disconnecting it gives up exactly within the timeout, counted from the monitored request, and never one whose oldest unanswered request is beyond it |
| `StratumPleas.RunPleas` | libpoolprotocols/stratum/EthStratumClient.cpp:1878-1925 | over any operations the count is the queue's length, the queue is sorted, the monitored time is no later than the oldest request |
| `StratumMessages.RespondKeeps` | libpoolprotocols/stratum/EthStratumClient.cpp:721-1546 | no message changes the mode, revokes a confirmation or ends a session; only a hello in mode 3 can close an open gate |
| `StratumMessages.RespondJob` | libpoolprotocols/stratum/EthStratumClient.cpp:1280-1434 | a job is taken over exactly when the message is accepted, and then the gate is open before and after |
| `StratumMessages.FirstJobDispatched` | libpoolprotocols/stratum/EthStratumClient.cpp:1287-1388 | in modes 0 to 2 exactly one job of a read is taken over, whole, and dispatched with the gate open |
| `StratumMessages.LastJobDispatched` | libpoolprotocols/stratum/EthStratumClient.cpp:1389-1434 | in mode 3 the last one taken over is dispatched, under the id of the last notification that got that far |
| `StratumMessages.GateAtDispatchIff` | libpoolprotocols/stratum/EthStratumClient.cpp:1752-1755 | whatever the pool sends, the gate is closed at a dispatch if and only if, in mode 3, a hello reply followed the last job taken over and no effective `mining.set` followed that hello |
| `StratumMessages.HonestPoolGate` | libpoolprotocols/stratum/EthStratumClient.cpp:1752-1755 | with a pool that answers only logins sent to it the gate is open at every dispatch |
| `StratumMessages.HelloClosesGate` | libpoolprotocols/stratum/EthStratumClient.cpp:827-848 | job and second hello in one read are dispatched with the gate closed; a `mining.set` after them opens it again |
| `StratumMessages.ConfirmedByLogin` | libpoolprotocols/stratum/EthStratumClient.cpp:827-1004 | a read confirms a mode only through a login reply without error that says what the mode expects |
| `StratumMessages.FirstNotLast` | libpoolprotocols/stratum/EthStratumClient.cpp:1287-1293 | of two jobs in one read modes 0 to 2 dispatch the first |
| `StratumMessages.ForeignJobId` | libpoolprotocols/stratum/EthStratumClient.cpp:1389-1434 | in mode 3 an incomplete notification sends the job before it out under its own id |
| `StratumReplies.LoginMeans` | libpoolprotocols/stratum/EthStratumClient.cpp:775-1018 | a login reply confirms the mode and opens a session if and only if it is what the mode expects and, before the confirmation, without error; otherwise it disconnects, and gives the pool up if the mode was confirmed |
| `StratumReplies.SubscribeMeans` | libpoolprotocols/stratum/EthStratumClient.cpp:1020-1061 | in mode 3 a session id subscribes and its lack gives the pool up and disconnects; in other modes the reply does nothing |
| `StratumReplies.AuthorizeMeans` | libpoolprotocols/stratum/EthStratumClient.cpp:1063-1113 | the worker is authorized if and only if there is no error and, in modes 0 to 2, the result is not false, in mode 3, there is a worker id; a refusal gives the pool up and disconnects |
| `StratumReplies.OtherReplyMeans` | libpoolprotocols/stratum/EthStratumClient.cpp:1180-1266 | an error under id 999 disconnects if and only if login or authorization is not through; other ids change nothing |
| `StratumReplies.JobMeans` | libpoolprotocols/stratum/EthStratumClient.cpp:1280-1434 | in the fields of the message and the session, exactly when a job is taken over, in each mode |
| `StratumReplies.JobIdMeans` | libpoolprotocols/stratum/EthStratumClient.cpp:1280-1434 | and exactly when a job id is |
| `StratumReplies.SetAndHelloMean` | libpoolprotocols/stratum/EthStratumClient.cpp:1469-1510 | exactly when a `mining.set` takes effect, and that it does nothing but open the gate |
| `StratumReplies.UnrecoverableIff` | libpoolprotocols/stratum/EthStratumClient.cpp:721-1546 | a message gives the pool up if and only if it is one of the refusals of login, subscription or authorization |
| `StratumReplies.GivenUpOnlyByRefusal` | libpoolprotocols/stratum/EthStratumClient.cpp:721-1546 | over any read, a pool that is given up was given up at such a refusal |
| `StratumReplies.DropsIff` | libpoolprotocols/stratum/EthStratumClient.cpp:721-1546 | the connection is dropped after a message if and only if it is malformed, such a refusal, a login that fails during detection, an early error under id 999, or a goodbye |
| `StratumClient.Uri.constructor` | libpoolprotocols/PoolURI.h:76-88 | a new URI is untested, unconfirmed and recoverable |
| `StratumClient.EthStratumClient.DisconnectFinalize` | libpoolprotocols/stratum/EthStratumClient.cpp:224-288 | silent exactly during detection with a lower mode left, which is then tried; unrecoverable exactly when none is left; a confirmed mode stays |
| `StratumClient.EthStratumClient.StartConnect` | libpoolprotocols/stratum/EthStratumClient.cpp:317-363 | ends in a simulated disconnect exactly when idle and out of addresses |
| `StratumClient.EthStratumClient.ConnectHandler` | libpoolprotocols/stratum/EthStratumClient.cpp:476-598 | a responding, unconfirmed, recoverable URI then has mode at most 3; a confirmed mode changes never, and a mode is confirmed here only by the scheme |
| `StratumClient.EthStratumClient.ProcessReply` | libpoolprotocols/stratum/EthStratumClient.cpp:770-1266 | effect and disconnection of any reply, which `StratumReplies` states in the fields of the reply |
| `StratumClient.EthStratumClient.ProcessNotification` | libpoolprotocols/stratum/EthStratumClient.cpp:1280-1545 | effect and disconnection of any notification, its job taken over only through the gate |
| `StratumClient.EthStratumClient.ProcessResponse` | libpoolprotocols/stratum/EthStratumClient.cpp:721-1546 | every message does what `Respond` says, which `StratumReplies` states in the fields of the message, and the URI's invariant is kept |
| `StratumClient.EthStratumClient.OnRead` | libpoolprotocols/stratum/EthStratumClient.cpp:1699-1755 | all messages of a read are taken in order and at most one job is dispatched |
| `StratumClient.EthStratumClient.Read` | libpoolprotocols/stratum/EthStratumClient.cpp:1699-1755 | no read, whatever it brings, changes the mode or takes back a confirmation; with a pool that answers only logins sent to it, work is dispatched only with the gate open |
| `StratumClient.Handle` | libpoolprotocols/stratum/EthStratumClient.cpp:172-1787 | every event keeps the URI's invariant and a confirmed mode; only a socket that opens in a live session leaves a login awaited in one |
| `StratumClient.EthStratumClient.OnReadError` | libpoolprotocols/stratum/EthStratumClient.cpp:1761-1787 | disconnects exactly while connected and not pending; during authorization the URI is given up |
| `StratumClient.EthStratumClient.Disconnect` | libpoolprotocols/stratum/EthStratumClient.cpp:172-222 | finalizes exactly when not already disconnecting and no TLS stream is to be shut down |
| `StratumClient.RunConnection` | libpoolprotocols/stratum/EthStratumClient.cpp:172-1787 | over every run on a URI, over any number of clients and whatever the pool sends: at most three silent retries in its life, and one and the same mode whenever confirmed; and the gate open at every dispatch from a pool that answers only logins sent to it |
| `PoolManagers.AfterFailures` | libpoolprotocols/PoolManager.cpp:379-473 | where the rotation stands after any number of failures on healthy pools |
| `PoolManagers.FairRotation` | libpoolprotocols/PoolManager.cpp:379-473 | the k-th consecutive failed attempt goes to the pool (k-1)/R places on: each exactly R times, in cyclic order |
| `PoolManagers.NoRetriesSkipsActive` | libpoolprotocols/PoolManager.cpp:397-414 | with no retries the active pool is passed over |
| `PoolManagers.LonePoolDropped` | libpoolprotocols/PoolManager.cpp:397-404 | a lone pool is tried R times and then dropped, which ends the rotation |
| `PoolManagers.AllBadShrinks` | libpoolprotocols/PoolManager.cpp:389-396 | unrecoverable pools are dropped one per call and the last call ends the rotation |
| `PoolManagers.BadPoolDropped` | libpoolprotocols/PoolManager.cpp:389-396 | an unrecoverable active pool leaves the list, it alone, and the pool after it is tried next, or the rotation ends if that is an exit pool or there is none |
| `PoolManagers.GoodPoolKept` | libpoolprotocols/PoolManager.cpp:397-414 | any other pool is tried again while it has tries left and otherwise the one after it, none leaving the list but a lone one; an exit pool ends the rotation |
| `PoolManagers.HealthyPoolSurvives` | libpoolprotocols/PoolManager.cpp:379-473 | over any number of calls, with any unrecoverable and exit pools, a pool that is not unrecoverable leaves the list only when it is alone and its tries are used up |
| `PoolManagers.PoolManager.Select` | libpoolprotocols/PoolManager.cpp:388-414 | the pool chosen is the specification's, with every index in range; which one is lost and which is next is `BadPoolDropped` and `GoodPoolKept` |
| `PoolManagers.PoolManager.RotateConnect` | libpoolprotocols/PoolManager.cpp:379-473 | one rotation is `Rotate`; it throws exactly on an empty list |
| `PoolManagers.PoolManager.RemoveConnection` | libpoolprotocols/PoolManager.cpp:276-295 | refused exactly while pending, out of range or active; otherwise the active pool stays the same pool |
| `PoolManagers.PoolManager.SetActiveConnection` | libpoolprotocols/PoolManager.cpp:297-331 | refused exactly while pending or out of range; disconnects exactly when the pool changes |
| `PoolManagers.RunManager` | libpoolprotocols/PoolManager.cpp:61-502 | over every run from a non-empty list, with removals, additions, switches, failover and a stop: the active index is in range, no rotation meets an empty list, and at most one rotation runs after the stop is requested |

## Left out

- The rounds of `keccakf`: its theta and rho/pi steps do not follow section 3.2 of FIPS 202; everything here holds for any permutation.
- `libethash-fpga/kernel_func.cpp` and the kernels in `libethash-fpga/includes/fpga_ethash.cpp`: unfinished.
- Sizes, primes and the light cache: dataset size and cache are parameters; node counts of 2^32 and more, where the code's counter wraps, are excluded.
- `Ethash.ComputeFullDag`: with a callback and fewer than 100 nodes the code divides by zero; such calls are excluded. The progress it is told is computed exactly, without the rounding of `double`.
- `Ethash.KrnlEthash`: a size below one page makes the code divide by zero and is excluded.
- Device discovery, buffers and kernels of the FPGA: foreign calls. The result buffer is never created in this fork; the device is abstract.
- `FpgaMiners.FpgaMiner.WorkLoop`: the loop is given the sequence of packages it sees; `shouldStop` is the end of the sequence, and hash-rate accounting is not modelled. A package with work but epoch -1, for which the loop would use a command queue there is none of, is excluded.
- `FpgaMiners.FpgaMiner.TakeTurn`: excludes the same package.
- `FpgaMiners.FpgaMiner.SwitchJob`: a successful setup is taken to load the dataset of the package's epoch; the code loads that of the epoch context the farm gave the miner.
- `Farms.Farm.SetWork`: requires fewer than twice as many miners as nonces left, and at least one miner, for an extranonce job, and an extranonce of at most 16 digits, because the code's conversion of a logarithm of -1 or below, or of infinity, is undefined. Epoch contexts are not modelled.
- `Farms.RunFarm`: a reply's delay and stale flag are not modelled, and no solution is ever accounted as wasted in this code.
- `NonceSegments.SegmentWidth`: exact logarithm; rounding of `log2` and `pow` in floating point is not modelled.
- `Worker.EveryCallReturns`: assumes that the worker thread is scheduled while someone waits and a controller once its wait is over, and that `workLoop` returns once it finds `shouldStop` true; memory orderings are taken as sequentially consistent.
- `DagLoad.OneAtATimeInOrder`: assumes that rounds do not overlap and no miner stops; what happens otherwise is stated separately.
- Sockets, TLS, name resolution and JSON text: events and abstract messages only.
- `StratumClient.EthStratumClient.ProcessReply`: replies to submissions are in `Farms`; a submission of miner 959, whose id 999 the code also uses for errors, is not modelled.
- `StratumClient.EthStratumClient.ProcessNotification`: difficulty, boundary, epoch and start nonce of a job are not modelled, only its id and header. In mode 1 a block number above 0x9660180 makes the code throw a pointer, which no handler catches, so that the process ends; the model has only failures that are caught and end the processing of their message.
- `StratumMessages.HonestPoolGate`: assumes that the pool answers no login it was not sent and that no login is awaited in a session, which only a socket opening in a live session would bring about.
- `PoolManagers.RunManager`: the getwork and simulation clients and the timers between attempts are not modelled; that `stop` waits for the disconnection is the order of two events.
- `PoolURI` parsing, targets from difficulties, formatting, hardware monitoring, logging and the command line: text, floating point and foreign calls.
- Races between `Miner::pause` and `Miner::setWork`: guarded by different mutexes, so atomic methods would not be faithful.
