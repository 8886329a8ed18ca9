# A verified model of the Omnicron coproduct machine

This project models the stateful and the arithmetic core of the Omnicron repository in
Dafny and proves what that core is meant to guarantee.

* **The coproduct blackboard** keeps an append-only list of contributions, two 256-bit
  summary boards, 256 inverted-index fibers of depth eight, and a validated union-find.
  `Coproduct` gives its meaning: a state is the list of stored contributions and the list
  of accepted unions, and a run is a list of requests. `Blackboard` is the stored machine,
  a class over arrays whose invariant says that its meaning is the run of its history and
  that boards and fibers are exact. `CoproductRuns` proves laws of whole runs.
* **The union-find** (`UnionFind`) is proved for any size. `Classes` (representative and
  rank of every element) is the meaning of the parent and rank arrays; finds keep it, and
  it is the equivalence closure of the accepted pairs. The blackboard uses size 256.
* **Validation and CONS** (`Validation`, `Cons`): the rotate/XOR fold is a quasigroup under
  every resolver profile, and a witness is valid exactly when a compensation law holds.
* **The population count** (`Popcount`) of a board is the number of its coordinates.
* **The algorithmic clock** (`Clock`, `Orbits`): the eighth power of the tick is the
  identity, hence exactly when two peers resolve as synchronised.
* **COBS**: `Cobs` holds the recursive block decoder, the standard encoder with 254-byte
  splitting (Cheshire and Baker, IEEE/ACM Transactions on Networking 7(2), 1999), and the
  bounded in-place decoder; `Gossip` and `GossipCodec` hold the 64-byte packet and its
  66-byte frame.
* **Smaller machines**: the FNV-1a export comparator (`Export`; FNV-1a is section 2 of
  draft-eastlake-fnv), the BASE(n) accumulator (`Radix`) and the textual address frame
  (`HexFrame`).

`dafny verify dfyconfig.toml` checks everything.

## How the code is represented

* The unsigned integer types are ranges of the naturals, declared in `WordTypes`.
* A 64-bit lane, a hash state and an accumulator are natural numbers below their word
  size; every operation that can wrap says so (`% 2^64`, `% 2^32`). A right shift is
  division by a power of two, a left shift is multiplication, and `&`, `|`, `^` are defined
  one binary digit at a time in `Words`.
* CONS words are 32-bit vectors. Their rotations are written out at each use, and the
  `WrittenOut` lemmas tie them to the rotation functions.
* A clock state is its sixteen bits, lowest first; `Clock.OscillateOnNumbers` ties the
  advance law to shifts, ors and xors of 16-bit numbers.
* The 32-bit parent and rank entries of the union-find are naturals; parents stay below
  the size and `UnionFind.RankIsLogarithmic` bounds the ranks, so nothing can wrap.
* Ghost parameters and the ghost fields `accepted`, `history`, `seed` and `ticked` record
  what happened. No decision reads them.
* The two loops of a find, the body of each decode loop, and the preflight and commit parts
  of an injection are methods of their own.

## Where the code differs from its comments, or from what one might expect

* The conflict board is commented as marking coordinates claimed by contributions of
  distinct origin (`src/omnicron-coproduct-partition.c:211`), but no source identity is
  compared: a coordinate is in conflict exactly when at least two contributions claim it.
  `CoproductRuns.OneSourceConflicts` is a run that contradicts the comment, and
  `CoproductRuns.OriginsDifferIff` says exactly which runs agree with it.
* A validation result does not name the contributions it was computed from, so a valid
  result for one pair also unites any other pair. `Coproduct.UnboundWitnessIsUnsound` is
  such a run; `Coproduct.ClassesSoundIff` says exactly when classes stay sound: when the
  caller validates the pair it is about to unite.
* The gossip frame has three layout bytes (13 to 15) that unpacking ignores, so different
  frames can carry one packet (`Gossip.TwoFramesOnePacket`). Frames correspond one to one to
  raw images, not to packets; `Gossip.SamePacketIff` and `Gossip.ReencodeIff` give the exact
  conditions.
* The general COBS decoder copies data bytes without looking at them, so it also accepts
  frames that no encoder produces (`Cobs.CopiedZerosAreAccepted`); `Cobs.EncodingIffZeroFree`
  says exactly which accepted frames are encodings. The gossip decoder refuses such zeros.
* Injection order can be observed once an injection is refused
  (`CoproductRuns.RefusalDependsOnOrder`); `CoproductRuns.ExchangeUnnoticedIff` says exactly
  when exchanging two neighbours cannot.
* The centroid is the zero state for both orientations, so a resolution is the state itself.

## Model

| member | source | states |
|---|---|---|
| Board.BoardsAreSets | src/omnicron-coproduct-partition.c:48-66 | Or, and and clear of boards are union, intersection and emptiness of the coordinate sets that the bit test defines. |
| Board.TestReadsNumber | src/omnicron-coproduct-partition.c:44-58 | Coordinate p is binary digit p of the four lanes side by side, lowest lane first. |
| Popcount.LaneCountIsDigitSum | src/omnicron-coproduct-partition.c:76-80 | For every 64-bit lane the three masked additions and the gathering multiplication yield the number of ones in the lane's binary expansion; nothing is lost to the modulus. |
| Popcount.Count | src/omnicron-coproduct-partition.c:73-83 | The loop over the four lanes returns the cardinality of the set of coordinates the board has. |
| Popcount.SwarCountIsCardinality | src/omnicron-coproduct-partition.c:73-83 | For every board the four lane counts add up to the number of its coordinates. |
| Popcount.InclusionExclusion | src/omnicron-coproduct-partition.c:72-83 | For all boards the computed counts of the or and of the and add up to the computed counts of the two boards; disjoint boards simply add up. |
| UnionFind.UnionFind.constructor | src/omnicron-coproduct-partition.c:161-167 | A fresh union-find of any size: nothing accepted, every element its own parent with rank 0. |
| UnionFind.UnionFind.ClimbToRoot | src/omnicron-coproduct-partition.c:169-172 | The first loop of a find ends at the representative, after at most rank(root) links. |
| UnionFind.UnionFind.Compress | src/omnicron-coproduct-partition.c:173-178 | The second loop redirects the climbed path to the root, needs no more steps than the climb, and leaves ranks and meaning alone. |
| UnionFind.UnionFind.Find | src/omnicron-coproduct-partition.c:169-179 | In every reachable state a find returns the representative; two finds agree exactly when the accepted pairs connect the elements; 2^steps is at most the size; the new parent array is given in full. |
| UnionFind.RelinkFlattens | src/omnicron-coproduct-partition.c:173-177 | After compression exactly the climbed elements point straight at the root and every other link is as before. |
| UnionFind.RelinkKeepsMeaning | src/omnicron-coproduct-partition.c:173-177 | Redirecting any prefix of the climbed path leaves every representative unchanged and rank strictly increasing along every link. |
| UnionFind.LinkRepresents | src/omnicron-coproduct-partition.c:193-200 | Hanging the root that loses the rank comparison under the other one makes the arrays represent the union of the two classes. |
| UnionFind.UnionFind.Link | src/omnicron-coproduct-partition.c:193-200 | The rank comparison as written turns arrays that represent some classes into arrays that represent their union. |
| UnionFind.UnionFind.UnionValidated | src/omnicron-coproduct-partition.c:182-202 | Accepted exactly for a valid witness and two indices in range; then the left root survives unless its rank is the smaller one, both classes follow it, and only a tie raises the left root's rank by one; otherwise both arrays are untouched. |
| UnionFind.SameRepIffConnected | src/omnicron-coproduct-partition.c:161-202 | For any size and any list of accepted pairs, two elements have one representative exactly when they are related by the reflexive-symmetric-transitive closure of the pairs. |
| UnionFind.UniteAllIsSound | src/omnicron-coproduct-partition.c:161-202 | After any unions, rank strictly increases from every element to its representative and 2^rank(root) is at most the size of the root's class. |
| UnionFind.RankIsLogarithmic | src/omnicron-coproduct-partition.c:193-200 | 2^rank never exceeds the number of elements, so with 256 elements no rank exceeds 8. |
| UnionFind.RootsAreConserved | src/omnicron-coproduct-partition.c:182-202 | Roots plus accepted pairs that joined two previously unconnected elements always add up to the size. |
| UnionFind.UntouchedStaysSingleton | src/omnicron-coproduct-partition.c:161-202 | An element no accepted pair mentions remains a rank-0 class of its own. |
| Blackboard.Blackboard.constructor | src/omnicron-coproduct-partition.c:221-227 | The initial blackboard is valid and has an empty history. |
| Blackboard.Blackboard.HasRoom | src/omnicron-coproduct-partition.c:244-251 | The preflight accepts exactly the contributions whose every claimed coordinate has fewer than eight claimants. |
| Blackboard.Blackboard.Claim | src/omnicron-coproduct-partition.c:268-273 | Appending the index to each claimed fiber turns every fiber into the claimant list of the longer contribution list. |
| Blackboard.Blackboard.BoardsStayExact | src/omnicron-coproduct-partition.c:255-266 | The new occupancy and conflict bits say exactly "claimed at least once" and "claimed at least twice" for the longer contribution list. |
| Blackboard.Blackboard.Commit | src/omnicron-coproduct-partition.c:253-275 | After the preflight the contribution is appended and all four linked structures agree again. |
| Blackboard.Blackboard.InjectContribution | src/omnicron-coproduct-partition.c:239-278 | OK exactly when fewer than 256 contributions are stored and each claimed fiber counts fewer than eight; then the contribution is appended under the old count and indexed in full, otherwise the capacity status is returned and boards, fibers, contributions and count are unchanged. |
| Blackboard.Blackboard.StoredFiberIsExact | src/omnicron-coproduct-partition.c:209-278 | In every reachable blackboard a stored fiber counts, and lists in strictly increasing order, exactly the stored contributions whose board has its coordinate, at most eight. |
| Blackboard.Blackboard.StoredBoardsAreExact | src/omnicron-coproduct-partition.c:209-278 | The stored occupancy and conflict bits hold exactly when the fiber counts at least one and at least two. |
| Coproduct.ClaimantsExact | src/omnicron-coproduct-partition.c:209-278 | A fiber lists, strictly increasing, exactly the indices of the stored contributions whose board has the bit. |
| Coproduct.RunKeepsInv | src/omnicron-coproduct-partition.c:239-278 | In every run at most 256 contributions are stored, no fiber exceeds eight, and every accepted union names stored contributions. |
| Coproduct.RunIsAppendOnly | src/omnicron-coproduct-partition.c:229-278 | Stored contributions and accepted unions of a run are prefixes of those of every continuation. |
| CoproductRuns.InjectedIffWithinCapacity | src/omnicron-coproduct-partition.c:239-278 | A list of injections from the empty blackboard succeeds in full exactly when it has at most 256 members and no coordinate is claimed by more than eight of them. |
| CoproductRuns.InjectedIffCounted | src/omnicron-coproduct-partition.c:29-278 | The same in numbers: at most 256 members, and for each of the 256 coordinates at most eight indices whose board has it. |
| CoproductRuns.InjectionOrderIrrelevant | src/omnicron-coproduct-partition.c:239-278 | Whether a list of injections succeeds in full is the same for every permutation of it; for lists that do, so is the length of every fiber the run leaves behind. |
| Blackboard.OrderLeavesNoTrace | src/omnicron-coproduct-partition.c:239-278 | Two stored blackboards that injected the same contributions in full, in any two orders, have the same occupancy, conflict and fiber lengths. |
| CoproductRuns.RefusalDependsOnOrder | src/omnicron-coproduct-partition.c:246-251 | For lists that are partly refused the order does show: two orders of one list leave different fiber lengths. |
| CoproductRuns.ExchangeUnnoticedIff | src/omnicron-coproduct-partition.c:239-278 | In any state, exchanging two neighbouring injections leaves every fiber length the same exactly when the two do not compete for room or claim the same coordinates. |
| CoproductRuns.OneSourceConflicts | src/omnicron-coproduct-partition.c:253-266 | Injecting one contribution twice puts every coordinate it claims in conflict, with a single source. |
| CoproductRuns.OriginsDifferIff | src/omnicron-coproduct-partition.c:209-278 | After every request of a run each contested coordinate has claimants of two sources, exactly when every accepted injection met single claimants of other sources only. |
| Blackboard.Blackboard.ConflictIsTwoOrigins | src/omnicron-coproduct-partition.c:209-219 | Under that condition a stored conflict bit means exactly that two stored claimants have different sources. |
| CoproductRuns.FibersConserveClaims | src/omnicron-coproduct-partition.c:268-273 | The fiber lengths sum to the population counts of all stored boards. |
| CoproductRuns.RunConservesRoots | src/omnicron-coproduct-partition.c:161-202 | In every run the roots number 256 less the merging unions, and every index not yet injected is a rank-0 singleton. |
| Blackboard.Blackboard.StoredFibersConserveClaims | src/omnicron-coproduct-partition.c:268-273 | The stored fiber counters add up to the computed population counts of all stored boards. |
| Blackboard.Blackboard.StoredRootsAreConserved | src/omnicron-coproduct-partition.c:139-202 | The self-parented entries of the stored parent array and the merging unions add up to 256, and entries of indices not yet injected are still their own parents with rank 0. |
| Blackboard.RouteReadsThreeBits | src/omnicron-coproduct-partition.c:324-362 | The selector consists of bits 15, 14 and 7 of the address, and the bus is remote exactly from 0x8000 on. |
| Blackboard.ComposedReads | src/omnicron-coproduct-partition.c:520-532 | In a composition the projection is the low byte of the resolved word, bit 15 of the word decides the bus, and bits 15, 14 and 7 form the selector. |
| Blackboard.OverlapIsShared | src/omnicron-coproduct-partition.c:526-527 | The overlap board holds exactly the shared coordinates, so its count is positive exactly when there is one. |
| Blackboard.Blackboard.ConsContributions | src/omnicron-coproduct-partition.c:504-535 | Indices out of range are refused; otherwise the result names both indices, the word folds the left car and the right cdr, projection, bus and selector are read from the word, the overlap holds the shared coordinates, and the conflict flag holds exactly when there is one. |
| Cons.FoldWrittenOut | src/omnicron-coproduct-partition.c:460-479 | The modelled fold is the xor of car rotated by one, cdr rotated by three, and the profile in both halves. |
| Cons.RecoverCarWrittenOut | src/omnicron-coproduct-partition.c:482-484 | The modelled car recovery is the composition of rotations and xors that the code computes. |
| Cons.RecoverCdrWrittenOut | src/omnicron-coproduct-partition.c:486-488 | The modelled cdr recovery is the composition of rotations and xors that the code computes. |
| Cons.FoldBit | src/omnicron-coproduct-partition.c:460-479 | Bit i of the fold is the sum modulo 2 of bit i-1 of car, bit i-3 of cdr (modulo 32) and bit i of the profile (modulo 16). |
| Cons.RulesAndFacts | src/omnicron-coproduct-partition.c:1177 | The pair 0x12345678, 0x55667788 under profile 1 folds to 0x8F5A10B3, and both are recovered from it. |
| Cons.Quasigroup | src/omnicron-coproduct-partition.c:475-502 | Under every profile each of car, cdr and cons is determined by the other two, and each recovery computes the one it names. |
| Cons.SameFoldIff | src/omnicron-coproduct-partition.c:475-479 | Two pairs fold alike exactly when the change of car is the change of cdr rotated by two. |
| Cons.SwapUnchangedIff | src/omnicron-coproduct-partition.c:474-479 | CONS is order-sensitive: exchanging car and cdr is unnoticed exactly when their xor is 0, 0x55555555, 0xAAAAAAAA or 0xFFFFFFFF. |
| Validation.WitnessIsConstant | src/omnicron-coproduct-partition.c:587-590 | The segment witness is 0x1E for every sector prefix. |
| Validation.ScopeClosesIff | src/omnicron-coproduct-partition.c:627-630 | The structural gate closes exactly the scopes below four. |
| Validation.ValidIff | src/omnicron-coproduct-partition.c:642-682 | A witness is valid exactly for one scope below four, one profile, and a compensated change of car and cdr. |
| Validation.RefusalReason | src/omnicron-coproduct-partition.c:648-680 | The reason names the first test that failed, in the order of the code, and a match exactly for valid witnesses; words that were not compared are reported as zero. |
| Validation.ValidationIsSymmetric | src/omnicron-coproduct-partition.c:642-682 | Exchanging the references exchanges the two reported words and changes neither verdict nor reason. |
| Validation.ReportedWordsRecover | src/omnicron-coproduct-partition.c:668-672 | Whenever words were compared, each reported word recovers the car and the cdr of its own reference. |
| Validation.WitnessIffEquivalent | src/omnicron-coproduct-partition.c:642-682 | For stored contributions a valid witness is equality of scope (below four), profile and resolved word. |
| Blackboard.Blackboard.Merge | src/omnicron-coproduct-partition.c:693-694 | Once flag and indices have passed, the pair is accepted and the two classes are joined by the rank rule. |
| Blackboard.Blackboard.UniteContributions | src/omnicron-coproduct-partition.c:684-695 | Not validated exactly for an invalid flag; otherwise an invalid index exactly when one index is not stored; otherwise OK, and exactly this pair is accepted. Contributions and boards are kept, and a refused union leaves the arrays alone. |
| Coproduct.WitnessedRunMergesSoundly | src/omnicron-coproduct-partition.c:642-695 | If each union carried the witness computed from the two contributions it names, every accepted union of different indices joined equivalent contributions. |
| Coproduct.ConnectedAreEquivalent | src/omnicron-coproduct-partition.c:684-695 | Soundness of the accepted pairs extends along every chain of unions. |
| Coproduct.WitnessedRunClassesSound | src/omnicron-coproduct-partition.c:642-695 | After any run with so computed witnesses, two different indices of one class have one scope below four, one profile and one resolved word. |
| Coproduct.StepMergesSoundlyIff | src/omnicron-coproduct-partition.c:684-695 | A request keeps every accepted pair equivalent exactly when it is not a union that is accepted although validating its two stored contributions fails. |
| Coproduct.ClassesSoundIff | src/omnicron-coproduct-partition.c:684-695 | For arbitrary witnesses, the classes after a run are sound exactly when, before every union of two different indices that was accepted, validation of the two stored contributions would have succeeded. |
| Coproduct.UnboundWitnessIsUnsound | src/omnicron-coproduct-partition.c:684-695 | A run with sound classes exists in which a witness that validation computed from two stored contributions, used on another pair, makes the classes unsound. |
| Blackboard.Blackboard.SameClass | src/omnicron-coproduct-partition.c:1211-1213 | Comparing two finds on a blackboard decides the closure of its accepted unions and changes no meaning; on a witnessed history a positive answer implies equivalence. |
| Blackboard.Blackboard.OneClassOneKey | src/omnicron-coproduct-partition.c:642-695 | On the stored machine, one representative means one scope, profile and resolved word, if each union used its own witness. |
| Clock.RotlIsShifts | src/omnicron-coproduct-partition.c:562-570 | Moving the sixteen bits is, on the number they denote, the or of two shifts truncated to 16 bits. |
| Clock.OscillateOnNumbers | src/omnicron-coproduct-partition.c:898-903 | On numbers the advance law is the xor of the three rotations and 0x1D1D. |
| Clock.SameValueSameBits | src/omnicron-coproduct-partition.c:1095-1101 | States that denote the same number are the same bits, so comparing states is comparing numbers. |
| Clock.TwiceIsOscillateSquared | src/omnicron-coproduct-partition.c:898-903 | Two ticks are the xor of the rotations by 2, 6 and 12 and a constant. |
| Clock.TwoTicksOnNumbers | src/omnicron-coproduct-partition.c:898-903 | On numbers two ticks are the xor of the rotations by 2, 6 and 12 and 0x8888. |
| Clock.FourTimesIsTwiceSquared | src/omnicron-coproduct-partition.c:898-903 | Four ticks are the xor of the rotations by 4, 8 and 12; the constants have cancelled. |
| Clock.FourTimesIsInvolution | src/omnicron-coproduct-partition.c:898-903 | Four ticks done twice are the identity. |
| Clock.EightTicksRestore | src/omnicron-coproduct-partition.c:958-960 | Eight ticks restore every clock state. |
| Clock.OnlyModEight | src/omnicron-coproduct-partition.c:958-960 | Any number of ticks equals that number modulo eight, and a tick is a bijection that seven further ticks undo. |
| Clock.RunsMeetIff | src/omnicron-coproduct-partition.c:1055-1065 | Equal counts meet exactly for equal seeds; equal seeds meet exactly when the counts agree modulo the seed's period; in general the seeds lie the difference of the counts apart. |
| Clock.RestoredIff | src/omnicron-coproduct-partition.c:898-903 | One, two and four ticks restore a seed exactly when the sums of four of its bits at distance 1, 2 and 4 form the numbers 0xCACA, 0x2222 and 0. |
| Clock.PeriodFromSeed | src/omnicron-coproduct-partition.c:898-960 | The period of a seed - 1, 2, 4 or 8 - is read from those sums, without running the clock. |
| Orbits.ReturnsIff | src/omnicron-coproduct-partition.c:958-960 | A count of steps restores a state exactly when it is a multiple of the state's period, which is 1, 2, 4 or 8. |
| Clock.SyncPeer.constructor | src/omnicron-coproduct-partition.c:1055-1060 | A peer starts at its seed with the counter at zero. |
| Clock.SyncPeer.Tick | src/omnicron-coproduct-partition.c:1062-1065 | The state takes one step of the law, and the counter goes up by one, from 2^64 - 1 to zero. |
| Clock.RunPeer | src/omnicron-coproduct-partition.c:1055-1065 | A peer after n ticks has the n-fold law of its seed as state and n modulo 2^64 as counter. |
| Clock.ResolutionIsState | src/omnicron-coproduct-partition.c:974-1027 | The centroid resolution of a state is the state, whatever the orientation. |
| Clock.CheckResolved | src/omnicron-coproduct-partition.c:1095-1101 | Decides, for every pair of peers after any runs, when they resolve as synchronised, in terms of seeds and tick counts. |
| Cobs.EncodeLast | examples/esp32/esp32_omi_core.c:54-68 | A final nonzero block of at most 254 bytes is encoded as its length plus one and its bytes. |
| Cobs.EncodeShort | examples/esp32/esp32_omi_core.c:54-68 | A block of fewer than 254 nonzero bytes that ends at a zero is encoded as its length plus one and its bytes; the zero is implied. |
| Cobs.EncodeFull | examples/esp32/esp32_omi_core.c:62-68 | A block of 254 nonzero bytes that is not closed last is encoded as 255 and its bytes; no zero is implied. |
| Cobs.DecodeBlock | examples/esp32/esp32_omi_core.c:47-69 | The decoder answers a frame that starts with a complete block by the block, a zero if it is neither full nor last, and the answer to the rest. |
| Cobs.DecodeEncode | examples/esp32/esp32_omi_core.c:38-72 | For every byte string and either convention for a final full block, decoding the encoding yields the string when it fits and truncation when it does not. |
| Cobs.DecodesIffEncoding | examples/esp32/esp32_omi_core.c:38-72 | A nonempty zero-free frame decodes to d exactly when d fits and the frame is one of the two encodings of d. |
| Cobs.ZeroFreeIsEncoding | examples/esp32/esp32_omi_core.c:47-69 | A zero-free frame that decodes is an encoding of what it decodes to, and the lemma returns which convention it follows. |
| Cobs.EncodingIffZeroFree | examples/esp32/esp32_omi_core.c:47-69 | A nonempty frame that decodes is one of the two encodings of its content exactly when it contains no zero. |
| Cobs.CopiedZerosAreAccepted | examples/esp32/esp32_omi_core.c:54-60 | A single block decodes to its data bytes whatever they are, zeros included. |
| Cobs.EncodeZeroFree | examples/esp32/esp32_omi_core.c:49-52 | An encoding never contains the byte the decoder rejects as a zero leak. |
| Cobs.LengthAccounting | examples/esp32/esp32_omi_core.c:47-71 | A successful decode of a nonempty source returns one byte less than the source, and one less again for each 0xFF block that is not the last. |
| Cobs.BlockProgress | examples/esp32/esp32_omi_core.c:48-68 | A loop iteration either refuses with the status of the whole frame or moves one expanded block from the input to the output. |
| Cobs.CopyBytes | examples/esp32/esp32_omi_core.c:54-60 | The inner loop copies a block's bytes, and fails exactly when input or room runs out, also when source and destination are one buffer. |
| Cobs.ExpandBlock | examples/esp32/esp32_omi_core.c:54-68 | The loop body appends the block, with its zero unless it is full or last, and leaves the unread input intact. |
| Cobs.DecodeBounded | examples/esp32/esp32_omi_core.c:38-72 | The loop over the buffers returns length and bytes of the recursive block decoder, reports zero leak and truncation exactly where it does, writes nothing beyond the capacity, and may decode in place. |
| Cobs.DecodeEncoding | examples/esp32/esp32_omi_core.c:38-72 | An encoding in the source buffer is decoded with OK when it fits and reported as truncated, with length 0, when it does not. |
| LittleEndian.FromToBytes | examples/esp32/esp32_p2p_gossip.c:28-54 | Reading back the little-endian bytes of a value that fits yields the value. |
| LittleEndian.ToFromBytes | examples/esp32/esp32_p2p_gossip.c:28-54 | Writing the value that was read yields the bytes it was read from. |
| LittleEndian.Put | examples/esp32/esp32_p2p_gossip.c:28-38 | The put loop writes the little-endian bytes at its place and nothing else. |
| LittleEndian.Get | examples/esp32/esp32_p2p_gossip.c:40-54 | The or-and-shift loop reads the positional value of the bytes. |
| GossipCodec.PackRaw | examples/esp32/esp32_p2p_gossip.c:56-64 | The raw buffer is the packet's fields in the 64-byte layout, with zeros between. |
| GossipCodec.UnpackRaw | examples/esp32/esp32_p2p_gossip.c:66-73 | The packet is read from the same offsets. |
| Gossip.PackLayout | examples/esp32/esp32_p2p_gossip.c:56-64 | Byte by byte: both counters lowest byte first at 0 and 4, the phase at 12, three zeros, the board at 16, the digest at 48. |
| Gossip.UnpackLayout | examples/esp32/esp32_p2p_gossip.c:66-73 | Each field is read from the same bytes. |
| Gossip.UnpackPack | examples/esp32/esp32_p2p_gossip.c:56-73 | Unpacking a packed packet restores every field. |
| Gossip.PackUnpackIff | examples/esp32/esp32_p2p_gossip.c:56-73 | Packing an unpacked raw image restores the image exactly when bytes 13 to 15 are zero. |
| Gossip.SamePacketIff | examples/esp32/esp32_p2p_gossip.c:66-73 | Two raw images unpack to one packet exactly when they agree outside bytes 13 to 15. |
| GossipCodec.CloseStep | examples/esp32/esp32_p2p_gossip.c:94-97 | Meeting a zero and writing the code byte back keeps the buffer a prefix of the encoding. |
| GossipCodec.Stuff | examples/esp32/esp32_p2p_gossip.c:91-106 | The back-patching loop produces the 66-byte frame of the raw buffer; the code byte never exceeds 65 and nothing beyond the frame is written. |
| GossipCodec.EncodeFrame | examples/esp32/esp32_p2p_gossip.c:75-107 | Less than 66 bytes of capacity is refused and writes nothing; otherwise the frame of the packet is written. |
| Gossip.ShortEncoding | examples/esp32/esp32_p2p_gossip.c:93-106 | A message under 254 bytes grows by exactly one byte, contains no zero, and has one encoding. |
| Gossip.StageIffDecode | examples/esp32/esp32_p2p_gossip.c:128-146 | The frame decoder's COBS stage succeeds exactly on zero-free bodies that the general decoder accepts, with the same bytes; a body without zeros is never refused as a zero leak. |
| GossipCodec.BlockStage | examples/esp32/esp32_p2p_gossip.c:128-144 | One iteration of the decode loop either refuses with the status of the stage or moves one expanded block. |
| GossipCodec.UnstuffBlock | examples/esp32/esp32_p2p_gossip.c:132-143 | The loop body refuses with the status that comes first in reading order, and otherwise appends the expanded block. |
| GossipCodec.Unstuff | examples/esp32/esp32_p2p_gossip.c:128-144 | The decode loop computes the COBS stage. |
| Gossip.CarriesIff | examples/esp32/esp32_p2p_gossip.c:119-146 | A frame passes the COBS stage with given raw bytes exactly when it is their encoding; so it has 66 bytes and its only zero is the last. |
| Gossip.SameRawSameFrame | examples/esp32/esp32_p2p_gossip.c:109-155 | No two frames that pass the COBS stage carry the same raw bytes. |
| Gossip.RoundTrip | examples/esp32/esp32_p2p_gossip.c:75-155 | The frame of a packet is accepted with every field restored exactly when the step counts agree, and is otherwise a sync mismatch. |
| Gossip.ReencodeIff | examples/esp32/esp32_p2p_gossip.c:109-155 | Encoding the packet of an accepted frame gives the frame back exactly when the three unused bytes it carries are zero. |
| Gossip.TwoFramesOnePacket | examples/esp32/esp32_p2p_gossip.c:109-155 | For every packet there are two different frames that are accepted with it. |
| Gossip.AnswerIff | examples/esp32/esp32_p2p_gossip.c:109-155 | Each status in terms of the wire: a zero leak exactly for a well-framed body with a zero, acceptance and sync mismatch exactly for the frames of raw images by their step count, and a corrupt frame otherwise. |
| GossipCodec.DecodeAndVerify | examples/esp32/esp32_p2p_gossip.c:109-155 | The answer is that of the frame's specification, and any refusal leaves the output packet untouched. |
| Export.HashEquations | examples/compiler/binary_export_verifier.c:22-31 | The hash of nothing is 0x811C9DC5, and one more byte is xored in and multiplied by 16777619 modulo 2^32. |
| Export.HashOfLetterA | examples/compiler/binary_export_verifier.c:22-31 | The hash of the letter a is the published 0xE40C292C. |
| Export.ComputeFnv1a | examples/compiler/binary_export_verifier.c:22-31 | The loop computes the FNV-1a hash of any length of input. |
| Export.MultiplyInvertible | examples/compiler/binary_export_verifier.c:27 | Multiplication by the prime modulo 2^32 is undone by multiplication with 0x359C449B. |
| Export.HashUndone | examples/compiler/binary_export_verifier.c:25-28 | The hash can be run backwards: from the final state and the bytes, undoing each multiplication and then each xor restores the initial state. |
| Export.HashFromInjective | examples/compiler/binary_export_verifier.c:25-28 | Different hash states stay different under the same bytes. |
| Export.OneByteChangesHash | examples/compiler/binary_export_verifier.c:22-31 | Two strings of one length that differ in exactly one position have different hashes. |
| Export.MetaCompile | examples/compiler/binary_export_verifier.c:33-57 | The compiled image has length 12: the eight header bytes, 4x+2y with its highest byte first, zeros, and the hash of the first twelve bytes as signature. |
| Export.Compare | examples/compiler/binary_export_verifier.c:63-82 | Each status has its exact condition: a length above 64, different lengths, different hashes, different contents, none of these; the index is written only when bytes were compared, and is the first difference or the length. |
| Export.SignedOkIff | examples/compiler/binary_export_verifier.c:63-82 | Correctly signed images compare OK exactly when their contents are equal. |
| Export.OneByteIsHashMismatch | examples/compiler/binary_export_verifier.c:63-82 | Correctly signed images that differ in one byte always compare as a hash mismatch. |
| Export.CompiledOkIff | examples/compiler/binary_export_verifier.c:33-82 | Compiled images compare OK exactly when their tracking forms agree; only (0,0) compares OK with the first form. |
| Radix.BaseMetricSeedModel.Init | examples/radix/base_metric_seed_model.c:18-50 | Exactly the bases 2, 8, 10, 16, 58 and 64 are accepted; they reset the model and set the shift to 1, 3, 0, 4, 0 and 6; any other base changes nothing. |
| Radix.BaseMetricSeedModel.Inject | examples/radix/base_metric_seed_model.c:52-71 | Each refusal has its exact condition: base, digit, overflow. Shift-and-or and multiply-add both yield accumulator times base plus digit; refusals keep the accumulator, which remains the positional value of the accepted digits. |
| Radix.FeedIff | examples/radix/base_metric_seed_model.c:52-71 | A digit list of any length is accepted in full exactly when each digit is below the base and the value is below 2^32, and the result is that value. |
| Radix.FeedRoundTrip | examples/radix/base_metric_seed_model.c:52-71 | Feeding the base-n digits of any 32-bit value restores the value. |
| Radix.InjectAll | examples/radix/base_metric_seed_model.c:52-71 | Injecting a digit list into a fresh model, one digit at a time until one is refused, ends with the status and the accumulator of the specification; it succeeds exactly when each digit is below the base and the value is below 2^32. |
| Radix.InjectDigits | examples/radix/base_metric_seed_model.c:52-71 | Injecting the base-n digits of any 32-bit value into a fresh model succeeds and leaves the value in the accumulator. |
| HexFrame.HexValueIff | examples/esp32/esp32_omi_core.c:79-84 | A character has value v exactly when it is digit v in lower or in upper case. |
| HexFrame.HexValueRefuses | examples/esp32/esp32_omi_core.c:79-84 | Any character but the twenty-two digits is refused. |
| HexFrame.PrintThenParse | examples/esp32/esp32_omi_core.c:86-95 | Four printed hex digits of a 16-bit value parse back to it. |
| HexFrame.ParseThenPrint | examples/esp32/esp32_omi_core.c:79-95 | Printing the value of four hex digits gives them back in lower case. |
| HexFrame.ParseSegment | examples/esp32/esp32_omi_core.c:86-95 | The loop succeeds exactly on four hex digits and returns their value, the first digit the highest. |
| HexFrame.ParseFrame | examples/esp32/esp32_omi_core.c:97-107 | Parsing succeeds exactly on 39 characters with a joint in every fifth place and hex digits elsewhere, and segment k is the value of the four digits from 5k on; a failure leaves each segment as it was or with its own group's value. |
| HexFrame.PrintThenParseFrame | examples/esp32/esp32_omi_core.c:97-107 | Printing any segments gives a frame that parses to them. |
| HexFrame.ParseThenPrintFrame | examples/esp32/esp32_omi_core.c:97-107 | Parsing a frame and printing it gives the frame in lower case. |

## Left out

- NULL arguments and optional out-parameters: every reference is present and every result is returned.
- `main` functions, printed reports and the golden fixture: input and output only.
- Blackboard.Blackboard.ConsContributions: the source leaves its out-parameter unwritten on an invalid index; the model returns an unspecified result there.
- Blackboard.Blackboard.SameClass: stands for comparing two finds, which the source writes inline where it reports a union.
- Cobs.DecodeBounded: a failed decode may have written part of the destination; the contract bounds what is written but does not say which bytes.
- GossipCodec.Stuff: raw buffer and wire buffer are different arrays, as in the source, where the raw buffer is local.
- Clock.RunPeer: stands for a caller that ticks a peer n times; the source leaves that loop to its users.
- Cobs.DecodeEncoding: stands for a caller that decodes an encoding; the source has no encoder with full blocks.
- Radix.InjectAll: stands for a caller that injects digit after digit; the source leaves that loop to its users.
- HexFrame.ParseFrame: characters are abstract, so bytes above 127 and the terminating zero byte are not modelled.
- The visible coordinate stored in a fiber (it is the fiber's own number), single-bit set, board xor and the plane mirror.
- The tracking square, the selector table, the nibble interleave and the forward quadrant map, the delta law with constant 0x5A3C, and the Polybius diagonals: finite or one-line facts.
- The Hamming codeword, clock bands and hands, and the azimuth: diagnostic views that no decision above reads. A sync peer keeps the state and the step counter only.
- Floating-point geometry of the centroid vector: display code.
- The reconciliation step and the parabolic form of `examples/esp32/esp32_omi_core.c`, and the remaining example programs: branch tables and fixed-offset reads.
- `reference/omnicron-coproduct-partition.c`: an older copy of the modelled file.
