# Verified models of a RISC-V tile: bus adapters, cache directory, ECC, scoreboard and memories

The repository builds a tile around the Sargantana core and the HPDcache: AXI adapters, ECC cells, the
SystemC testbench of the cache, and a Verilator simulator with its own memory. This project models five
parts of it and proves what each is for.

| part | modules | what is proved |
|---|---|---|
| HPDcache-to-AXI adapters | `AxiBurst`, `FifoQueue`, `Runs`, `WriteMachine`, `WriteAdapter`, `ReadMachine`, `ReadAdapter`, `RefillAdapter` | whole-run refinement: the beats on the bus are the slices of the requested writes in order, the delivered lines are the received beats |
| pseudo-LRU cache directory | `PlruSet`, `LineAddress`, `CacheDirectory` | reachable-state invariants, refinement of a set of lines, bounded eviction with a tight bound |
| extended Hamming code | `Bits`, `SecdedCode`, `Secded` | minimum distance 4 for every data length, single correction and double detection by the decoder |
| scoreboard and memory model | `Words`, `Amo`, `AmoMeaning`, `Requests`, `Uncached`, `MemModel`, `Ram`, `IdPool`, `MemResponse`, `Scoreboard`, `IdFlow`, `Testbench` | over every serial run the shadow RAM agrees with memory and the scoreboard reports nothing; over every run, with any number of requests in flight and any traffic at the memory interface, no transaction ID error fires |
| simulator memory and ELF loading | `SparseMemory`, `ElfLoader` | refinement of a flat zero-initialised byte memory, process image |

## How to read it

Each clocked or mutable component is a class whose methods are proved against a function on plain values:
`WriteAdapter.Adapter.Clock` against `WriteMachine.Step`, `CacheDirectory.Directory.Replace` against
`PlruSet.Step`, `SparseMemory.Memory.WriteBlock` against `SparseMemory.Blitted`. The theorems over all runs
are lemmas about those functions: `RunOf` folds a sequence of arbitrary environment inputs and records
everything that crossed an interface.

What a shared definition stands for is stated on its own, without naming it: byte operators by their bits
(`Words.ByteBits`), words by numbers and two's complement (`NumberBits`, `SignedTwos`), atomic operations by
what they leave (`AmoMeaning.AmosMean`), bus channels field by field and by byte address
(`WriteMachine.BeatOnTheBus`, `ReadMachine.ResponseDelivered`), bursts and writes byte by byte
(`MemResponse.BurstCovers`, `WriteCovers`), and segments by the fields of their headers
(`ElfLoader.ImageInside`).

Conventions:

- Machine words are byte sequences, least significant byte first, and cache lines are sequences of bus words,
  word 0 first. A shift by whole bytes or bus words is then a slice. 32-bit addresses wrap at `SPACE`, sums
  at 2^64, the W counters at 256, and 64-bit line addresses at `WORD`.
- A FIFO pointer of log2(N) bits wraps at N. The proofs hold for every depth of at least 2.
- What the source leaves undefined until its first use (the exclusive records of the memory response model) is
  a parameter.
- Random draws, the data of an error response, and the bytes around an ELF file or padding buffer are
  parameters (`rnd`, `draw`, `junk`, `outside`), so the results hold for all of them.
- `Pow2`, `And` and `Bit` are the operators that the sources write as shifts and `&`.

## Properties that hold only under a condition

Where the code does not meet a property in general, a lemma gives the exact condition, and another a run or
an input in which it fails.

- The beats of a write are the addressed words: `AddressedExactly`. Runs from reset that send others:
  `EarlyDataHappens` (data before their request), `PartialLineHappens` (a burst that is not a full line).
- The words of a read stand at their addressed place: `PlacedExactly`. Failing run: `MisplacedLineHappens`.
- The ARs on the bus are the accepted requests: `ArAccounting`. AR valid is not gated by the metadata FIFO, so
  a request can reach the bus twice (`StrayArHappens`). The comment at
  rtl/Adapters/hpdcache_mem_to_axi_read_sarg.sv:120-121 says otherwise; the model follows the code.
- Invalidation by address removes the line: `InvalLineExact`. Failing run from reset: `InvalLineCanMiss`.
- Replacement keeps the directory free of shadows: `ReplaceKeepsNoShadow`. Replacement on a hit breaks it, which
  is the second step of `InvalLineCanMiss`.
- Replacement finds a way: always with at least two ways (`ReachableInvariant`); with one way the assertion is
  reached (`OneWayGetsStuck`).
- A block write touches its own bytes only: `BlockExact`. A segment is loaded exactly: `WellPlacedSegment`,
  `MisplacedSegment`.
- An SC to the reserved 8-byte word that does not overlap the bytes of the LR is possibly atomic for the
  scoreboard and refused by memory; `Testbench.Bench.Serve` states the combined outcome.

## Model

| member | source | states |
|---|---|---|
| `WriteMachine.EveryRunCorrect` | rtl/Adapters/hpdcache_mem_to_axi_write_sarg.sv:86-370 | For every sequence of inputs, under any back-pressure: the k-th accepted request pairs with the k-th accepted data and gives the k-th AW; the W beats sent, then those still active or queued, are exactly the bursts of the issued writes in AW order with `last` on the final beat only; AWs equal finished bursts plus active burst plus data FIFO count, and responses delivered plus response FIFO count, IDs in order; an occupied staging half implies room in both FIFOs, which never overflow |
| `WriteMachine.DrainedRunComplete` | rtl/Adapters/hpdcache_mem_to_axi_write_sarg.sv:86-370 | Once the staging area, the data FIFO and the W machine are empty, every accepted request has its data and its AW, and the W channel has carried exactly their bursts, one after the other |
| `WriteMachine.BeatOnTheBus` | rtl/Adapters/hpdcache_mem_to_axi_write_sarg.sv:86-360 | In every run, beat i of write k, found after the beats of the writes before it, carries the word that holds its byte address if the write fits in one bus word and its data were in time, else word i of the line; `last` marks exactly the beat that completes the requested bytes |
| `WriteMachine.AwOnTheBus` | rtl/Adapters/hpdcache_mem_to_axi_write_sarg.sv:100-111 | In every run, AW number k has the ID and the address of request k, and a length and size that move its bytes in beats of the bus width, or in one if they fit |
| `WriteMachine.ResponsesAnswer` | rtl/Adapters/hpdcache_mem_to_axi_write_sarg.sv:365-382 | In every run, response k has the ID of B beat k, an error exactly when that is neither OKAY nor EXOKAY, and is atomic exactly on EXOKAY |
| `WriteMachine.Handshakes` | rtl/Adapters/hpdcache_mem_to_axi_write_sarg.sv:146-208 | What each cycle takes from every interface, by the staged halves, the room in the FIFOs and the outstanding responses |
| `WriteMachine.ValidHolds` | rtl/Adapters/hpdcache_mem_to_axi_write_sarg.sv:146-203 | In every reachable state AW is valid exactly when both halves are staged, because accepting either half reserves FIFO space; AW valid and its payload, and W valid and its beat, hold until the handshake (section A3.2.1 of Arm IHI 0022) |
| `WriteMachine.WritesDrain` | rtl/Adapters/hpdcache_mem_to_axi_write_sarg.sv:192-360 | No deadlock and no starvation: from every reachable state, while the slave stays ready, every write whose request and data are in finishes its burst within a number of cycles computed from the state, whatever new traffic keeps arriving |
| `WriteMachine.AddressedExactly` | rtl/Adapters/hpdcache_mem_to_axi_write_sarg.sv:86-98 | The beats are the bus words of the line from the one that holds the byte address on, for all data, if and only if the address lies in word 0 of its line, or the write fits in one bus word and its data did not arrive before its request |
| `WriteMachine.EarlyDataHappens` | rtl/Adapters/hpdcache_mem_to_axi_write_sarg.sv:86-98 | Run from reset, for every configuration, request and line: data offered one cycle early are accepted, and the first beat carries word 0 whatever word is addressed |
| `WriteMachine.PartialLineHappens` | rtl/Adapters/hpdcache_mem_to_axi_write_sarg.sv:177-188 | Run from reset, for every request of several beats: the first beat carries word 0 whatever word is addressed, although the data are in time |
| `WriteMachine.ReservedStep` | rtl/Adapters/hpdcache_mem_to_axi_write_sarg.sv:132-150 | Every step keeps the space reservation and the FIFO bounds |
| `WriteMachine.PairedStep` | rtl/Adapters/hpdcache_mem_to_axi_write_sarg.sv:155-198 | Every step keeps the pairing of requests, data and AWs, whichever half arrives first |
| `WriteMachine.ChannelKeepsOrder` | rtl/Adapters/hpdcache_mem_to_axi_write_sarg.sv:313-360 | One clock edge of the W machine moves beats from FIFO to bus without reordering, losing or repeating one |
| `WriteMachine.ConservesStep` | rtl/Adapters/hpdcache_mem_to_axi_write_sarg.sv:264-367 | Every step conserves AWs on the way to their bursts and to their responses |
| `WriteAdapter.Adapter.Clock` | rtl/Adapters/hpdcache_mem_to_axi_write_sarg.sv:155-360 | One clock edge of the registers (staging registers, two circular FIFOs, W machine with 8-bit counters) makes exactly the step of the queue-level machine |
| `WriteAdapter.Adapter.Outputs` | rtl/Adapters/hpdcache_mem_to_axi_write_sarg.sv:200-382 | The AW, W and B outputs driven from the registers are those that the run-level theorems speak about |
| `WriteAdapter.Adapter.Decode` | rtl/Adapters/hpdcache_mem_to_axi_write_sarg.sv:146-208 | The combinational handshakes and pushed entries are those of the queue-level state |
| `WriteAdapter.Adapter.ClockData` | rtl/Adapters/hpdcache_mem_to_axi_write_sarg.sv:177-195 | The data register is aligned by the latched request, else by the offered one, else not at all |
| `WriteAdapter.Adapter.ClockW` | rtl/Adapters/hpdcache_mem_to_axi_write_sarg.sv:325-360 | The W machine on its registers loads, shifts and counts as the specification says; 8-bit counters never wrap |
| `FifoQueue.Fifo.Clock` | rtl/Adapters/hpdcache_mem_to_axi_write_sarg.sv:264-299 | The pointer pair and cell array behave as a queue under any combination of push and pop, wrap-around included; a pop of an empty FIFO brings back all other cells, or loses the entry pushed with it |
| `FifoQueue.Fifo.IsFull` | rtl/Adapters/hpdcache_mem_to_axi_write_sarg.sv:132-144 | Full if and only if all cells but one are occupied; at most N_OUTSTANDING-1 entries |
| `AxiBurst.BurstCoversTransfer` | rtl/Adapters/hpdcache_mem_to_axi_write_sarg.sv:100-111 | For every 3-bit size: beats times bytes per beat is the transfer size (the 8-bit length never truncates), several beats are of the full bus width, and a transfer has one beat exactly when it fits in a bus word |
| `AxiBurst.IndexIsAt` | rtl/Adapters/hpdcache_mem_to_axi_write_sarg.sv:91-91 | The word index is the place of the byte address in its line: the address is that many bus words, and less than one more, past the start of some line |
| `ReadMachine.EveryRunCorrect` | rtl/Adapters/hpdcache_mem_to_axi_read_sarg.sv:101-234 | Against every in-order slave and any back-pressure: the metadata FIFO holds exactly the incomplete requests, so its head belongs to the burst being assembled; each response carries the ID of its request, the line of its own beats, and an error exactly when some beat had SLVERR or DECERR; bursts, requests and responses stay aligned |
| `ReadMachine.ReceiveStep` | rtl/Adapters/hpdcache_mem_to_axi_read_sarg.sv:152-220 | An accepted beat belongs to the head of the metadata FIFO, and leaves the line and error registers describing all beats of the burst so far |
| `ReadMachine.ResponseDelivered` | rtl/Adapters/hpdcache_mem_to_axi_read_sarg.sv:172-231 | In every run, response k has the ID of request k, an error exactly when some beat of burst k is neither OKAY nor EXOKAY, and a line with the one word at its byte address and zeros elsewhere, or the beats filling the line up to its top; the burst has moved the requested bytes |
| `ReadMachine.ArOnTheBus` | rtl/Adapters/hpdcache_mem_to_axi_read_sarg.sv:60-101 | In every run, AR number k has the ID and the address of request k, and a length and size that move its bytes in beats of the bus width, or in one if they fit |
| `ReadMachine.Handshakes` | rtl/Adapters/hpdcache_mem_to_axi_read_sarg.sv:101-122 | What each cycle takes from every interface, by the room in the metadata FIFO and the delivery state |
| `ReadMachine.PlacedExactly` | rtl/Adapters/hpdcache_mem_to_axi_read_sarg.sv:186-200 | The words stand from the one that holds the byte address on, for all data, if and only if the read fits in one bus word or its words reach the end of the line: partial-line bursts are not placed by address |
| `ReadMachine.MisplacedLineHappens` | rtl/Adapters/hpdcache_mem_to_axi_read_sarg.sv:196-200 | Run from reset against a slave that obeys every assumption: two words read from the bottom of the line are delivered at its top |
| `ReadMachine.ArAccounting` | rtl/Adapters/hpdcache_mem_to_axi_read_sarg.sv:101-122 | ARs on the bus equal accepted requests plus handshakes that happened under a full metadata FIFO; they are the accepted requests if and only if there was none |
| `ReadMachine.StrayArHappens` | rtl/Adapters/hpdcache_mem_to_axi_read_sarg.sv:101-122 | Concrete run in which a request reaches the bus twice, because AR valid is not gated by the FIFO |
| `ReadAdapter.Adapter.Clock` | rtl/Adapters/hpdcache_mem_to_axi_read_sarg.sv:104-234 | One clock edge of the registers makes exactly the step of the queue-level machine; a beat without outstanding request is taken under the stale cell at the read pointer, and if last it loses the request accepted with it or leaves the metadata FIFO full of stale cells |
| `ReadAdapter.Adapter.Outputs` | rtl/Adapters/hpdcache_mem_to_axi_read_sarg.sv:75-180 | The AR, R and response outputs are those that the run-level theorems speak about |
| `ReadMachine.ResponseHolds` | rtl/Adapters/hpdcache_mem_to_axi_read_sarg.sv:172-176 | In every run of an in-order slave, a response stays offered, unchanged, for as many cycles as the cache does not take it, whatever happens on the bus, and it is that of the next request and its own burst |
| `RefillAdapter.EveryRunCorrect` | rtl/Adapters/sargantana_icache_axi_wrap.sv:33-102 | With a slave that sends the number of beats each AR asked for, over every run: AR handshakes are the requests of the accepted misses, in order and one each; deliveries are the completed bursts, one each, beats least significant first, as many as the line has words |
| `RefillAdapter.IdleMeansAnswered` | rtl/Adapters/sargantana_icache_axi_wrap.sv:47-102 | Back in IDLE there is one AR and one delivered line for every miss |
| `RefillAdapter.ArOnTheBus` | rtl/Adapters/sargantana_icache_axi_wrap.sv:33-35 | In every run, AR number k has the address of miss k and asks for one beat of eight bytes for each bus word of the line |
| `RefillAdapter.Handshakes` | rtl/Adapters/sargantana_icache_axi_wrap.sv:47-102 | What each cycle takes from every interface, state by state |
| `RefillAdapter.ArHolds` | rtl/Adapters/sargantana_icache_axi_wrap.sv:50-96 | In every run, an AR that is not taken stays up with the address, length and size of the miss for as many cycles as the slave does not take it, whatever the cache drives meanwhile, and no further miss is accepted |
| `RefillAdapter.Refill.Outputs` | rtl/Adapters/sargantana_icache_axi_wrap.sv:86-102 | The AR, R and response outputs are those that the run-level theorems speak about |
| `RefillAdapter.Refill.Clock` | rtl/Adapters/sargantana_icache_axi_wrap.sv:59-84 | The registers make the step of the machine |
| `Bits.PowerOf2Test` | rtl/core/sargantana/rtl/common_cells/test/ecc/ecc.cpp:11-13 | The bit trick accepts exactly the powers of two |
| `Bits.AndBits` | rtl/core/sargantana/rtl/common_cells/test/ecc/ecc.cpp:71-72 | AND sets exactly the bits that both operands have |
| `Bits.ShiftIsBit` | rtl/core/sargantana/rtl/common_cells/test/ecc/ecc.cpp:17-17 | Bit i is the last bit after a shift right by i |
| `Secded.CalcParityLen` | rtl/core/sargantana/rtl/common_cells/test/ecc/ecc.cpp:44-48 | Terminates with the least p of at least 2 with 2^p >= p+d+1, for every d |
| `Secded.ToBin` | rtl/core/sargantana/rtl/common_cells/test/ecc/ecc.cpp:15-19 | The buffer stands for the word cut to its length, bit i weighing 2^i |
| `SecdedCode.DataFillsWord` | rtl/core/sargantana/rtl/common_cells/test/ecc/ecc.cpp:62-64 | The layout loop consumes exactly d data bits, and the p check positions all lie inside the word |
| `SecdedCode.DataAt` | rtl/core/sargantana/rtl/common_cells/test/ecc/ecc.cpp:62-64 | Position k between 2^q and 2^(q+1) holds data bit k-q-2: the data fill the positions that are not powers of two in order |
| `SecdedCode.DistanceCounts` | rtl/core/sargantana/rtl/common_cells/test/ecc/ecc.cpp:50-82 | The distance is the number of positions in which two words differ |
| `Secded.Expand` | rtl/core/sargantana/rtl/common_cells/test/ecc/ecc.cpp:62-64 | Positions that are not powers of two hold the data in order, the others zeros |
| `Secded.WriteChecks` | rtl/core/sargantana/rtl/common_cells/test/ecc/ecc.cpp:68-79 | Computing and writing check bits in place, one after the other, leaves all checks even and no data bit changed |
| `Secded.EccEncode` | rtl/core/sargantana/rtl/common_cells/test/ecc/ecc.cpp:50-82 | For every d and word: the buffer is a codeword (all checks and overall parity even), and its non-power positions, bit i weighing 2^i, stand for the word cut to d bits |
| `Secded.EncodingsFarApart` | rtl/core/sargantana/rtl/common_cells/test/ecc/ecc.cpp:50-82 | Distinct d-bit words have encodings that differ in at least 4 positions |
| `SecdedCode.MinimumDistance` | rtl/core/sargantana/rtl/common_cells/test/ecc/ecc.cpp:50-82 | Distinct codewords of the layout differ in at least 4 positions, for every d |
| `SecdedCode.SingleFlip` | rtl/core/sargantana/rtl/common_cells/test/ecc/ecc.cpp:68-82 | Any one flip gives odd overall parity and a syndrome that names the position, zero for the overall parity bit |
| `SecdedCode.DoubleFlip` | rtl/core/sargantana/rtl/common_cells/test/ecc/ecc.cpp:68-82 | Any two flips give even overall parity and a non-zero syndrome |
| `SecdedCode.CodewordUnique` | rtl/core/sargantana/rtl/common_cells/test/ecc/ecc.cpp:50-82 | The data determine the codeword, so that the reference encoder and the RTL encoder agree bit for bit |
| `Secded.EccEncodeRtl` | rtl/core/sargantana/rtl/common_cells/src/ecc_encode.sv:43-76 | The RTL encoder, which derives all parity bits from the expanded word, yields a codeword that carries its data |
| `Secded.EccDecode` | rtl/core/sargantana/rtl/common_cells/src/ecc_decode.sv:61-126 | The decoder loops report the syndrome, the three flags and the data of the word with the addressed bit flipped |
| `Secded.DecodeClean` | rtl/core/sargantana/rtl/common_cells/src/ecc_decode.sv:101-126 | An intact codeword decodes to its data with no flag |
| `Secded.DecodeSingle` | rtl/core/sargantana/rtl/common_cells/src/ecc_decode.sv:93-126 | Any single flip is repaired: the data come back, the syndrome names the bit, and exactly the right one of the single and parity flags is raised |
| `Secded.DecodeDouble` | rtl/core/sargantana/rtl/common_cells/test/ecc/ecc_decode.cpp:95-98 | Any double flip raises the double-error flag and no other |
| `PlruSet.ReachableInvariant` | rtl/dcache/rtl/tb/sc_verif_lib/modules/generic_cache/include/generic_cache_directory_plru.h:70-147 | Over every run from reset with at least 2 ways a replacement bit is clear; if replacements are on misses, no way below a valid way holds its tag, not even a stale one |
| `PlruSet.ReplaceKeepsNoShadow` | rtl/dcache/rtl/tb/sc_verif_lib/modules/generic_cache/include/generic_cache_directory_plru.h:81-120 | A replacement keeps that property if and only if the line misses, or the victim is the line itself |
| `PlruSet.BoundedEviction` | rtl/dcache/rtl/tb/sc_verif_lib/modules/generic_cache/include/generic_cache_directory_plru.h:70-147 | A line that is neither used nor invalidated outlives at most 2W-3 evictions in its set, however accesses, fills and invalidations of other lines are interleaved |
| `PlruSet.EvictionBoundTight` | rtl/dcache/rtl/tb/sc_verif_lib/modules/generic_cache/include/generic_cache_directory_plru.h:70-147 | For every W of at least 2 a run from reset, with replacements on misses only, fills the set and then lets a line outlive 2W-3 evictions |
| `PlruSet.MostRecentIsSafe` | rtl/dcache/rtl/tb/sc_verif_lib/modules/generic_cache/include/generic_cache_directory_plru.h:101-147 | The way most recently hit or filled is not the next victim, whatever is invalidated in between |
| `PlruSet.ReplaceRefines` | rtl/dcache/rtl/tb/sc_verif_lib/modules/generic_cache/include/generic_cache_directory_plru.h:70-124 | On a miss, replacement adds exactly the line; it removes exactly the reported victim if and only if every way was occupied, and never gets stuck |
| `PlruSet.OneWayGetsStuck` | rtl/dcache/rtl/tb/sc_verif_lib/modules/generic_cache/include/generic_cache_directory_plru.h:122-123 | With one way the assertion is reached at the second replacement |
| `PlruSet.HitIsMembership` | rtl/dcache/rtl/tb/sc_verif_lib/modules/generic_cache/include/generic_cache_directory_base.h:128-155 | A hit is membership of the tag in the lines of the set |
| `PlruSet.InvalLineExact` | rtl/dcache/rtl/tb/sc_verif_lib/modules/generic_cache/include/generic_cache_directory_base.h:164-179 | In any set whatsoever, invalidation by address touches no other line, and the line no longer hits if and only if no way other than the first with its tag holds it |
| `PlruSet.InvalLineRefines` | rtl/dcache/rtl/tb/sc_verif_lib/modules/generic_cache/include/generic_cache_directory_base.h:164-179 | Without stale shadows, invalidation by address removes exactly the line, although it does not look at the valid bit |
| `PlruSet.InvalidatedLineMisses` | rtl/dcache/rtl/tb/sc_verif_lib/modules/generic_cache/include/generic_cache_directory_base.h:164-179 | In every state reached by replacements on misses, after invalidation by address the line does not hit |
| `PlruSet.InvalLineCanMiss` | rtl/dcache/rtl/tb/sc_verif_lib/modules/generic_cache/include/generic_cache_directory_base.h:172-177 | Run from reset (a replacement on a hit, then an invalidation by way) after which invalidation by address leaves the line in the set |
| `PlruSet.InvalWayClears` | rtl/dcache/rtl/tb/sc_verif_lib/modules/generic_cache/include/generic_cache_directory_base.h:157-162 | Invalidation by way clears that valid bit and nothing else |
| `PlruSet.TouchMeaning` | rtl/dcache/rtl/tb/sc_verif_lib/modules/generic_cache/include/generic_cache_directory_plru.h:126-147 | A way that is marked is recent; the others keep their bits, unless none would be left clear, in which case all of them are cleared |
| `LineAddress.AddressRoundTrip` | rtl/dcache/rtl/tb/sc_verif_lib/modules/generic_cache/include/generic_cache_directory_base.h:93-116 | Tag and set of an address rebuild the start of its line |
| `LineAddress.TagSetRoundTrip` | rtl/dcache/rtl/tb/sc_verif_lib/modules/generic_cache/include/generic_cache_directory_base.h:93-116 | Tag and set survive the trip through an address if and only if the address fits 64 bits |
| `CacheDirectory.Directory.Reset` | rtl/dcache/rtl/tb/sc_verif_lib/modules/generic_cache/include/generic_cache_directory_plru.h:59-68 | Every set of the flat arrays is empty |
| `CacheDirectory.Directory.Hit` | rtl/dcache/rtl/tb/sc_verif_lib/modules/generic_cache/include/generic_cache_directory_base.h:128-155 | The loop over the flat arrays decides membership and returns the way and set, or UINT_MAX |
| `CacheDirectory.Directory.InvalidateWay` | rtl/dcache/rtl/tb/sc_verif_lib/modules/generic_cache/include/generic_cache_directory_base.h:157-162 | The named way of the named set is invalid afterwards, no other way and no other set changes, and the old valid bit is returned |
| `CacheDirectory.Directory.InvalidateLine` | rtl/dcache/rtl/tb/sc_verif_lib/modules/generic_cache/include/generic_cache_directory_base.h:164-179 | Only the set of the address changes, as the set-level step says |
| `CacheDirectory.Directory.Access` | rtl/dcache/rtl/tb/sc_verif_lib/modules/generic_cache/include/generic_cache_directory_base.h:197-217 | Hit lookup plus, if asked, the recency update of that set only |
| `CacheDirectory.Directory.ReplUpdate` | rtl/dcache/rtl/tb/sc_verif_lib/modules/generic_cache/include/generic_cache_directory_plru.h:126-147 | Marks the way, unmarking the others when all would be marked, in that set only |
| `CacheDirectory.Directory.Choose` | rtl/dcache/rtl/tb/sc_verif_lib/modules/generic_cache/include/generic_cache_directory_plru.h:81-122 | The two scans find the way that the set-level policy takes; with at least two ways the "all plru bits are set" assertion is never reached |
| `CacheDirectory.Directory.Replace` | rtl/dcache/rtl/tb/sc_verif_lib/modules/generic_cache/include/generic_cache_directory_plru.h:70-124 | The set of the address makes the set-level replacement step, other sets are untouched, and the victim outputs and the returned flag are those of that step; the assertion is reached only with one way |
| `Amo.AmosAgree` | simulator/models/cxx/dpi_perfect_memory.cpp:38-102 | The scoreboard, the memory response model and the simulator leave identical bytes for every operation, both sizes, every aligned offset and operand, AND matching CLR of the complement |
| `Amo.CoreMatchesMem` | rtl/dcache/rtl/tb/hpdcache_test_amo.h:48-87 | The core-opcode and memory-opcode computations give the same 64 bits on extracted operands, at every byte offset |
| `Amo.SimMatchesMemWord` | rtl/dcache/rtl/tb/hpdcache_test_mem_resp_model_base.h:269-305 | On 4-byte operands the low word does not depend on zero or sign extension, for every operation |
| `AmoMeaning.AmosMean` | simulator/models/cxx/dpi_perfect_memory.cpp:38-102 | All three leave in the accessed bytes, read as a number of the access width, the sum modulo that width, the bitwise AND, OR or XOR, the larger or smaller in unsigned or two's complement order, or the operand; no other byte changes |
| `AmoMeaning.CoreMeaning` | rtl/dcache/rtl/tb/hpdcache_test_amo.h:48-87 | What each core operation computes, on numbers, bits and orders of the access width |
| `AmoMeaning.MemMeaning` | rtl/dcache/rtl/tb/hpdcache_test_mem_resp_model_base.h:269-305 | What each operation of the memory interface computes, on numbers, bits and orders of the access width |
| `AmoMeaning.SimMeaning` | simulator/models/cxx/dpi_perfect_memory.cpp:75-88 | What the simulator computes for each operation on eight bytes |
| `AmoMeaning.SimHalfMeaning` | simulator/models/cxx/dpi_perfect_memory.cpp:66-88 | What the simulator computes for each operation on four bytes, although it sign-extends them |
| `Words.ByteBits` | rtl/dcache/rtl/tb/hpdcache_test_amo.h:69-73 | The byte operators are AND, OR, XOR and NOT of each bit |
| `Words.NumberBits` | rtl/dcache/rtl/tb/hpdcache_test_amo.h:54-60 | Bit k of byte i of a word is bit 8i+k of the number it stands for |
| `Words.SignedTwos` | rtl/dcache/rtl/tb/hpdcache_test_amo.h:54-60 | The signed readings are the two's complement of the number, of 64 and of the low 32 bits |
| `MemResponse.AtomicResultMeaning` | rtl/dcache/rtl/tb/hpdcache_test_mem_resp_model.h:267-281 | The accessed bytes of the result of a memory-side atomic operation |
| `Testbench.AtomicWordMeaning` | rtl/dcache/rtl/tb/hpdcache_test_scoreboard.h:710-727 | The word that a served atomic request leaves holds the result of the core operation on the bytes of memory and of the request |
| `SparseMemory.PutByte` | simulator/models/cxx/dpi_perfect_memory.cpp:142-160 | A masked word write replaces the enabled bytes of that word and no other byte of the flat view |
| `SparseMemory.Memory.Write` | simulator/models/cxx/dpi_perfect_memory.cpp:142-160 | The lane loop makes the masked word write, and refuses addresses beyond the limit |
| `SparseMemory.Memory.Read` | simulator/models/cxx/dpi_perfect_memory.cpp:193-205 | Returns the four bytes of the flat view, zeros where nothing was written |
| `SparseMemory.Memory.BusRead` | simulator/models/cxx/dpi_perfect_memory.cpp:16-24 | A bus read returns the 64 bytes of the flat view around the address |
| `SparseMemory.Memory.BusWrite` | simulator/models/cxx/dpi_perfect_memory.cpp:26-36 | A bus write replaces exactly the enabled bytes below the limit, for every byte address, although words without enables are skipped |
| `SparseMemory.Memory.WriteBlock` | simulator/models/cxx/dpi_perfect_memory.cpp:162-191 | Every byte after a block write of any alignment and size, 32-bit address wrap-around included, in terms of the bytes the block reaches |
| `SparseMemory.BlockExact` | simulator/models/cxx/dpi_perfect_memory.cpp:166-172 | A block write touches exactly its own bytes, for all contents, if and only if it starts word-aligned or reaches the next word boundary |
| `SparseMemory.BlittedMeaning` | simulator/models/cxx/dpi_perfect_memory.cpp:162-191 | Byte d of a block lands at its start plus d, around the end of the address space, if that address exists; every other byte stays |
| `SparseMemory.Memory.MemoryAmo` | simulator/models/cxx/dpi_perfect_memory.cpp:38-102 | For every operation code, address of a word, size and address limit: every byte afterwards, the old bus line as answer, and an abort without effect on a reserved code; 32-bit address wrap-around included |
| `SparseMemory.AmoAligned` | simulator/models/cxx/dpi_perfect_memory.cpp:47-102 | On a naturally aligned access the double word in memory becomes the one that the three implementations agree on |
| `SparseMemory.AmoValueMeaning` | simulator/models/cxx/dpi_perfect_memory.cpp:54-94 | The value stored by an operation on four or eight bytes at any word address, as a number |
| `SparseMemory.ExclusiveBytes` | simulator/models/cxx/dpi_perfect_memory.cpp:89-90 | A store-exclusive stores the operand bytes, a load-exclusive leaves every byte as it was |
| `ElfLoader.Load` | simulator/models/cxx/loadelf.cpp:31-42 | Succeeds if and only if every segment is loadable, and leaves each byte as the block writes of the segments, in order, do |
| `ElfLoader.LoadedIsImage` | simulator/models/cxx/loadelf.cpp:31-42 | With well-placed segments memory is the process image: file bytes, zeros up to p_memsz, later segments winning |
| `ElfLoader.ImageInside` | simulator/models/cxx/loadelf.cpp:31-42 | In the process image the last PT_LOAD segment that holds a byte decides it: its file byte, or zero beyond p_filesz |
| `ElfLoader.ImageOutside` | simulator/models/cxx/loadelf.cpp:31-42 | A byte that no PT_LOAD segment holds is zero in the process image |
| `ElfLoader.LoadableMeaning` | simulator/models/cxx/loadelf.cpp:32-40 | Every PT_LOAD segment of non-zero size must be within the file and no larger there than in memory |
| `ElfLoader.WellPlacedSegment` | simulator/models/cxx/loadelf.cpp:33-40 | A well-placed segment leaves exactly its own bytes |
| `ElfLoader.MisplacedSegment` | simulator/models/cxx/loadelf.cpp:33-40 | Every other segment smaller than the 32-bit address space damages a byte for some file surroundings: the placement condition is exact |
| `MemModel.LazyIsInvisible` | rtl/dcache/rtl/tb/sc_verif_lib/modules/mem_model/include/mem_model.h:67-115 | For every sequence of masked writes and reads one initial memory explains all values read |
| `MemModel.LazyMatchesEager` | rtl/dcache/rtl/tb/sc_verif_lib/modules/mem_model/include/mem_model.h:67-115 | Under an initial memory that holds the drawn values, the lazy and the eager memory agree on every word and every read |
| `MemModel.Memory.ReadMemory` | rtl/dcache/rtl/tb/sc_verif_lib/modules/mem_model/include/mem_model.h:67-89 | A read materialises the word and returns it |
| `MemModel.Memory.WriteMemory` | rtl/dcache/rtl/tb/sc_verif_lib/modules/mem_model/include/mem_model.h:91-115 | A write merges into the word, drawn at random if it was absent |
| `Words.BeToMask` | rtl/dcache/rtl/tb/sc_verif_lib/modules/mem_model/include/mem_model.h:117-130 | The mask loop gives 0xff in exactly the enabled lanes |
| `Words.MergeIsSelect` | rtl/dcache/rtl/tb/sc_verif_lib/modules/mem_model/include/mem_model.h:98-113 | Merging under that mask replaces exactly the enabled lanes |
| `Words.MergeBits` | rtl/dcache/rtl/tb/sc_verif_lib/modules/mem_model/include/mem_model.h:98-113 | A masked update takes the bits of the mask from the data and the others from the old word |
| `Ram.RamModel.Write` | rtl/dcache/rtl/tb/sc_verif_lib/modules/mem_model/include/ram_model.h:89-107 | Enabled bytes become known with the written value; all other cells are unchanged |
| `Ram.RamModel.Read` | rtl/dcache/rtl/tb/sc_verif_lib/modules/mem_model/include/ram_model.h:60-87 | Bytes come with their valid bits |
| `Ram.RamModel.GetBmap` | rtl/dcache/rtl/tb/sc_verif_lib/modules/mem_model/include/ram_model.h:109-113 | The bitmap bit is whether the cell is known |
| `IdPool.Pool.Allocate` | rtl/dcache/rtl/tb/hpdcache_test_sequence.h:150-166 | With an ID available the probe terminates at the first free ID after its start; the ID is in range and was not held |
| `IdPool.FirstFreeMeaning` | rtl/dcache/rtl/tb/hpdcache_test_sequence.h:156-164 | The ID is the k-th one from the random start, around the end, and each before it is held |
| `IdPool.Pool.Deallocate` | rtl/dcache/rtl/tb/hpdcache_test_sequence.h:168-177 | Releases exactly that ID and reports whether it was held |
| `IdPool.EveryRunConsistent` | rtl/dcache/rtl/tb/hpdcache_test_scoreboard.h:404-453 | Over every run with any number of requests in flight: held IDs are distinct and in range, each waiting, in flight or dropped, and neither the duplicate-ID nor the unused-ID error fires |
| `IdPool.NextConsistent` | rtl/dcache/rtl/tb/hpdcache_test_scoreboard.h:795-799 | Every allocation, request and response keeps that |
| `IdFlow.Flow.Sound` | rtl/dcache/rtl/tb/hpdcache_test_scoreboard.h:404-453 | In every state that the pool and scoreboard methods reach together, with any events at the core and at the memory interface in any order, no duplicate-ID and no unused-ID message was printed, and every key of the inflight table is a held ID |
| `IdFlow.Flow.MemReadReq` | rtl/dcache/rtl/tb/hpdcache_test_scoreboard.h:803-846 | A read request at the memory interface touches no core ID, and a load-exclusive takes the oldest atomic request |
| `IdFlow.Flow.MemReadResp` | rtl/dcache/rtl/tb/hpdcache_test_scoreboard.h:848-925 | A beat of a read response at the memory interface touches no core ID |
| `IdFlow.Flow.MemWriteReq` | rtl/dcache/rtl/tb/hpdcache_test_scoreboard.h:927-985 | A write request at the memory interface touches no core ID, and an atomic one takes the oldest atomic request |
| `IdFlow.Flow.MemWriteResp` | rtl/dcache/rtl/tb/hpdcache_test_scoreboard.h:987-1013 | A write response at the memory interface touches no core ID |
| `IdFlow.Flow.Allocate` | rtl/dcache/rtl/tb/hpdcache_test_sequence.h:150-166 | The allocation is a step of the ID machine, always with a free ID |
| `IdFlow.Flow.Request` | rtl/dcache/rtl/tb/hpdcache_test_scoreboard.h:404-611 | A core request under an allocated ID is a step of the ID machine: tracked, or dropped, which happens only when the FIFO of atomic requests is full |
| `IdFlow.Flow.RequestCmo` | rtl/dcache/rtl/tb/hpdcache_test_scoreboard.h:414-453 | A maintenance request without response is a step of the ID machine that releases its ID |
| `IdFlow.Flow.Respond` | rtl/dcache/rtl/tb/hpdcache_test_scoreboard.h:613-801 | A response of any ID, error flag and data is a step of the ID machine |
| `Scoreboard.Board.CoreCmo` | rtl/dcache/rtl/tb/hpdcache_test_scoreboard.h:404-453 | Counts a duplicate ID, else releases the ID at once |
| `Requests.WithinErrorRegion` | rtl/dcache/rtl/tb/hpdcache_test_mem_resp_model_base.h:252-267 | The scan returns the flag of the first overlapping segment |
| `Requests.InErrorMeaning` | rtl/dcache/rtl/tb/hpdcache_test_mem_resp_model_base.h:252-267 | An access faults if and only if the segment of least index that overlaps it is an error segment |
| `Requests.OverlapMeaning` | rtl/dcache/rtl/tb/hpdcache_test_mem_resp_model_base.h:252-257 | Two regions overlap if and only if some address is in both |
| `Requests.ReservationMeaning` | rtl/dcache/rtl/tb/hpdcache_test_scoreboard.h:521-569 | Over every trace an SC is possibly atomic if and only if the latest LR did not fault, was for the same 8-byte word, and has since seen no SC and no store or AMO to that word |
| `Uncached.RegistersAgree` | rtl/dcache/rtl/src/hpdcache_uncached_sarg.sv:269-310 | Over every trace and for every line size, the reservation register of the cache, which compares line and word in the line and snoops stores, equals that of the scoreboard; an SC is forwarded to memory exactly when the trace holds its reservation |
| `Uncached.RegisterStep` | rtl/dcache/rtl/src/hpdcache_uncached_sarg.sv:364-391 | Every request changes both registers alike |
| `Uncached.SameWord` | rtl/dcache/rtl/src/hpdcache_uncached_sarg.sv:276-309 | Same line and same word in the line is same 8-byte word |
| `Uncached.SnoopMeaning` | rtl/dcache/rtl/src/hpdcache_uncached_sarg.sv:291-304 | A store of any size that stays in its line hits the reservation if and only if one of its bytes lies in the reserved word |
| `Uncached.StatusMeaning` | rtl/dcache/rtl/src/hpdcache_uncached_sarg.sv:847-855 | The accessed bytes of the status word stand for 0 or 1, wherever they are in the word |
| `Uncached.Register.Snoop` | rtl/dcache/rtl/src/hpdcache_uncached_sarg.sv:291-304 | A store resets the register if and only if it covers the reserved word |
| `Uncached.Register.Operate` | rtl/dcache/rtl/src/hpdcache_uncached_sarg.sv:352-364 | An AMO resets the register if and only if it hits the reserved word |
| `Uncached.Register.Conditional` | rtl/dcache/rtl/src/hpdcache_uncached_sarg.sv:378-402 | An SC always resets the register, and goes to memory if and only if it hits |
| `Uncached.Register.Reserve` | rtl/dcache/rtl/src/hpdcache_uncached_sarg.sv:528-537 | The answer to an LR sets the register, or resets it on an error |
| `Uncached.Register.Clock` | rtl/dcache/rtl/src/hpdcache_uncached_sarg.sv:916-945 | The set and reset terms of the valid bit |
| `Requests.HoldsStep` | rtl/dcache/rtl/tb/hpdcache_test_scoreboard.h:521-569 | One more request keeps, ends or makes a reservation exactly as the trace-level definition says |
| `MemResponse.Model.ReadOperation` | rtl/dcache/rtl/tb/hpdcache_test_mem_resp_model.h:127-208 | Every beat of the burst: an error response that touches nothing, or the words at the address of the beat, each at its place on the bus; ID, last flag, and the exclusive record of a load-exclusive |
| `MemResponse.Model.WriteOperation` | rtl/dcache/rtl/tb/hpdcache_test_mem_resp_model.h:210-349 | Error response touching nothing; masked write of all words; atomic operation of any size and offset answering the old bytes; store-exclusive that consumes its record, whatever it held at first, and is dropped unless it overlaps it |
| `MemResponse.StoredWord` | rtl/dcache/rtl/tb/hpdcache_test_mem_resp_model.h:295-321 | A multi-word write gives each word of its range the enabled bytes of its own bus word, and no other word anything |
| `MemResponse.BurstCovers` | rtl/dcache/rtl/tb/hpdcache_test_mem_resp_model.h:163-207 | Every byte of an aligned read burst is in its beat, at its place on the bus |
| `MemResponse.SmallReadCovers` | rtl/dcache/rtl/tb/hpdcache_test_mem_resp_model.h:163-179 | A read of less than a word has its whole word in its beat |
| `MemResponse.WriteCovers` | rtl/dcache/rtl/tb/hpdcache_test_mem_resp_model.h:295-321 | Every byte after an aligned write: the enabled bytes of its range are stored, and every other byte stays |
| `MemResponse.StoredBytes` | rtl/dcache/rtl/tb/hpdcache_test_mem_resp_model.h:303-309 | A masked write of one word, byte by byte; it touches nothing when no byte is enabled |
| `Scoreboard.Board.MakeEntry` | rtl/dcache/rtl/tb/hpdcache_test_scoreboard.h:470-559 | The entry has the error and atomic flags of the request and what the shadow RAM knew |
| `Scoreboard.Board.CoreReq` | rtl/dcache/rtl/tb/hpdcache_test_scoreboard.h:390-612 | The whole new state for every request, with the duplicate-ID and full-FIFO errors |
| `Scoreboard.Board.CheckData` | rtl/dcache/rtl/tb/hpdcache_test_scoreboard.h:681-708 | An error is counted if and only if some accessed and known byte differs |
| `Scoreboard.AccessMeaning` | rtl/dcache/rtl/tb/hpdcache_test_scoreboard.h:681-690 | The bytes compared are those of the address range of the request |
| `Scoreboard.DetectsWrongByte` | rtl/dcache/rtl/tb/hpdcache_test_scoreboard.h:681-708 | A response byte that differs from what the shadow RAM knew is reported |
| `Scoreboard.DetectsWrongStatus` | rtl/dcache/rtl/tb/hpdcache_test_scoreboard.h:656-678 | A status other than 0 for an SC that was forwarded and atomic, and other than 1 for any other, is reported |
| `Scoreboard.DetectsErrorFlag` | rtl/dcache/rtl/tb/hpdcache_test_scoreboard.h:646-649 | An error flag other than the expected one is reported, except for stores |
| `Scoreboard.AcceptsOthers` | rtl/dcache/rtl/tb/hpdcache_test_scoreboard.h:613-801 | No other response is reported |
| `Scoreboard.Board.FindUnset` | rtl/dcache/rtl/tb/hpdcache_test_scoreboard.h:749-766 | The enables are exactly the accessed bytes that are unknown |
| `Scoreboard.Board.ApplyAmo` | rtl/dcache/rtl/tb/hpdcache_test_scoreboard.h:710-728 | The shadow receives the result computed from the response, under the request enables |
| `Scoreboard.Board.FinishSc` | rtl/dcache/rtl/tb/hpdcache_test_scoreboard.h:656-678 | The status is checked against the outcome, and the data are recorded if and only if the SC succeeded |
| `Scoreboard.Board.CoreResp` | rtl/dcache/rtl/tb/hpdcache_test_scoreboard.h:613-801 | No error is counted if and only if the response is acceptable; new shadow, table and ID pool, with both early exits |
| `Scoreboard.Board.MemReadReq` | rtl/dcache/rtl/tb/hpdcache_test_scoreboard.h:803-846 | Duplicate ID, unexpected and multiple load-exclusive are counted; tables after the request |
| `Scoreboard.Board.MemReadResp` | rtl/dcache/rtl/tb/hpdcache_test_scoreboard.h:848-925 | An unknown ID is counted on every beat; the request leaves the table with the last one |
| `Scoreboard.Board.MemWriteReq` | rtl/dcache/rtl/tb/hpdcache_test_scoreboard.h:927-985 | No error if and only if the ID is new and an atomic write stands for the single atomic request in flight; tables after the request |
| `Scoreboard.Board.MemWriteResp` | rtl/dcache/rtl/tb/hpdcache_test_scoreboard.h:987-1013 | An unknown ID is counted; the atomicity of the answer is kept |
| `Testbench.Bench.Serve` | rtl/dcache/rtl/tb/hpdcache_test_scoreboard.h:390-801 | Over every serial run, with the register of the cache deciding which SC reaches memory: every known shadow byte equals the memory byte, no error is ever counted, the reservations of scoreboard, cache and memory are those of the trace; reads return the bytes of memory, an SC succeeds exactly when it does not fault and overlaps the latest LR, which still holds its reservation, and memory afterwards is that of the request |
| `Testbench.ServedAgrees` | rtl/dcache/rtl/tb/hpdcache_test_scoreboard.h:572-801 | Every request, effective or not, leads from agreeing shadow and memory to agreeing ones |
| `Testbench.EffectMeaning` | rtl/dcache/rtl/tb/hpdcache_test_mem_resp_model.h:253-259 | What the two reservation records decide for an SC is what the trace says, and likewise for its error flag |
| `Testbench.HeldStep` | rtl/dcache/rtl/tb/hpdcache_test_mem_resp_model.h:167-172 | The exclusive record of memory stays that of the LR which holds the reservation |
| `Testbench.AtomicAnswer` | rtl/dcache/rtl/tb/hpdcache_test_scoreboard.h:710-728 | The answer to an AMO passes the comparison, and the word the scoreboard derives from it is the one memory wrote |
| `Testbench.ReadAnswer` | rtl/dcache/rtl/tb/hpdcache_test_scoreboard.h:682-772 | The answer to a read passes the comparison, and fills in exactly the unknown accessed bytes |
| `Testbench.ServedKnows` | rtl/dcache/rtl/tb/hpdcache_test_scoreboard.h:572-801 | The scoreboard learns: after a read the accessed bytes are known, after a write the enabled ones, each as memory has it |
| `Testbench.KnownIsMemory` | rtl/dcache/rtl/tb/sc_verif_lib/modules/mem_model/include/ram_model.h:60-113 | Agreement means that every known byte of an accessed word is the byte of memory |
| `Testbench.AnswersMeaning` | rtl/dcache/rtl/tb/hpdcache_test_mem_resp_model.h:163-207 | What an answer tells the core, byte address by byte address, and the number in the status of an SC |
| `Testbench.SuccessMeaning` | rtl/dcache/rtl/tb/hpdcache_test_mem_resp_model.h:253-259 | An SC takes effect if and only if it does not fault and shares a byte with an LR that still holds the reservation of its word |
| `Testbench.AgreesStep` | rtl/dcache/rtl/tb/sc_verif_lib/modules/mem_model/include/ram_model.h:60-113 | A change confined to one slot and its word keeps agreement everywhere, absent aliasing modulo the RAM size |

## Left out

- AXI side-band fields (lock, atop, cache, prot) and OpenPiton invalidations: they pass through unchanged.
- ReadMachine.EveryRunCorrect: assumes that read bursts return in AR order with the requested number of beats, that no beat comes from an atomic AW, and that no request is offered while the metadata FIFO is full; `ReadMachine.ArAccounting` and `ReadAdapter.Adapter.Clock` say what happens otherwise.
- RefillAdapter.EveryRunCorrect: assumes a slave that ends every burst after the number of beats the AR asked for; the adapter counts none.
- CacheDirectory.Directory.Replace: asks for a preceding `reset()`, because the constructors leave the arrays undefined; a failed assertion is an outcome that leaves the set as it is.
- Testbench.Bench.Serve: requests are served one at a time and passed straight to memory, so cache hits, reordering and write buffering are not modelled, and of the cache only its reservation register, its forwarding of AND as CLR of the complement and its status word are; addresses that fall on the shadow slot of another used word are excluded; the scoreboard's reservation starts invalid, where the source leaves it undefined; errors on cacheable atomic requests are not enabled.
- IdFlow.Flow.Request: a request carries an ID that was allocated and not yet used, as the driver of the sequence guarantees.
- MemModel.Memory.ReadMemory: only the random initialisation mode, since the constructor ignores the mode it is given (mem_model.h:48).
- Requests.ReservationMeaning: starts from an invalid reservation.
- MemResponse.Model.WriteOperation: transfers that stay within the bus, beyond which the source slices outside the data.
- Scoreboard.Board.CoreResp: accesses that read stay inside their 64-bit word, beyond which the source reads outside its buffers or shifts by a negative amount. The core interface has one 64-bit word, the default configuration.
- Uncached.RegistersAgree: accesses of at most one word, and requests one after the other; the state machine around the register is reduced to these events.
- Cache maintenance requests with a response, prefetches and the directory hooks of the scoreboard; performance counters, messages and random delays.
- SparseMemory.Memory.MemoryAmo: word-aligned addresses, as the source asserts.
- ElfLoader.Load: an assertion failure, or a p_filesz above p_memsz (whose padding size wraps around), is the result `false`; file parsing, section headers and symbols are left out, and 64-bit sums of offset and size do not wrap.
- ElfLoader.LoadedIsImage: segments smaller than the 32-bit address space, since sizes are cut to 32 bits.
- Secded.EccEncode: the word has as many bits as needed instead of 64; `toByte` and the debug output are left out.
- `generic_cache_data.h`, the rename checker, commit log and Konata formatting, the disassembler, JTAG, host system calls, tile wiring and wrappers: input/output, or small finite tables.
