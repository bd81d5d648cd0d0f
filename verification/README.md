# v6pool: rotation, sessions, claims and handshake, in Dafny

v6pool is a proxy that sends every request from a different IPv6 address of a routed
prefix. This project models the parts of it that carry the guarantees and proves them:

- **The address cycle** (`Words`, `OddStride`, `Addresses`, `Cycles`, `Stream`). A
  128-bit counter, kept in two words, moves by an odd stride; the bit loop writes it
  reversed and XOR-masked into the host bits of a prefix of any length. The loop is
  proved equal to an arithmetic function, and from that function follow injectivity and
  the exact breadth-first coverage at every prefix level.
- **Skipping** (`Hygiene`, `SkipBound`, `Draws`, `Keys`, `Tweaks`, `Evaluation`,
  `KnownFailure`, `KnownAddresses`). Which positions are skipped, on exactly which cycles the bound of eight
  skips is enough, for exactly which strides it is enough whatever the mask, what a stream
  is sure to hand out and how soon, and for exactly which prefix lengths an account has a
  destination whose stream fails, with one such run of the proxy and some first addresses
  spelled out.
- **Keys and walks** (`Keys`, `Tweaks`, `Walks`). When two streams are the same, when two
  cycles visit the same addresses in the same order, and that the destination hash reaches
  every word.
- **Keyed and sliced picks** (`Mixer`, `Slices`, `SliceTheorems`, `SlicedRuns`). The mixer
  is a bijection; the repair loop has a closed form; disjoint slices share an address
  exactly when a condition on their bounds holds, and likewise a slice is left; and over
  every interleaving of callers, exactly when two sliced answers are the same address.
- **The proxy's locked state** (`Rotation`, `Picks`, `ProxyRuns`, `ProxyTheorems`,
  `SessionLife`, `Freshness`, `Restarts`, `Proxy`). The object with its maps, ring and
  gauges; a step machine in which any number of callers interleave their locked sections;
  and theorems about every run: sessions stay put and live exactly as long as they should,
  the gauge is exact under conditions each of which is needed, and every pick of every cycle is a fixed function of
  its key and the positions consumed, which tells exactly when two picks coincide.
- **Claims** (`Claims`). Recording, adding, deleting and untracking interface addresses,
  interleaved: nothing leaks exactly when two time windows together fit in the TTL.
- **SOCKS5 and usernames** (`Socks5`, `Socks5Replies`, `Socks5Handler`, `Usernames`). The
  buffer-reusing reader equals a parser; the parser and an encoder invert each other; what
  a client is told, and for exactly which input; splitting a session token off a username
  is exact under an exact condition.

Words are natural numbers below 2^64. `And`, `Or`, `Xor` and `AndNot` are defined bit by
bit; `Shl`, `Shr`, `Low` and `Times` are multiplication, division and remainder by a
power of two and repeated addition, and `Words.ShlIsProduct`, `Words.ShrLowAreDivMod` and
`Words.TimesIsProduct` say so. Go strings are byte sequences and times are integers. An
address's text form is used by the program only as a map key, so the address itself
stands for it.

The imperative code is imperative here: the classes `Stream`, `Proxy`, `Claimer` and
`Conn` and the loops of `at`, `Next`, `sanitizeHost`, `indexOf`, the eviction, retry and
sweep loops and the buffer reads are methods proved against the functions that the
theorems speak about. Each locked section of the proxy is a method whose new state is the
machine's step function applied to the old one.

## Where the code and its comments differ

The model follows the code.

- `isAllOnes` compares an already masked word with 64 ones, so the all-ones host is
  flagged only from width 64 up (`Hygiene.AllOnesMeaning`); a stream comes to hand it out
  exactly when the width is below 64 (`Draws.AllOnesDrawnIff`).
- The comment on `needsHygiene` puts the marker test at width 48; the code starts at 40.
- Eight skips do not always reach a clean address. `Draws.CleanStreamIff` says for exactly
  which cycles they do, `SkipBound.AlwaysCleanIff` for exactly which strides they do
  whatever the mask. `Keys.SomeDestinationFailsIff`: whatever the seed and the account,
  some destination's stream hands out a reserved or marked address exactly when the prefix
  has at most 85 bits. `Draws.FailsEachLap` bounds how soon, and `KnownFailure.SiteRunFails`
  is a run: a /64 with seed 1, its first account and the host name `vkf.test`.
- "Different accounts never walk the same address sequence" holds for one destination
  (`Keys.AccountsDifferAt`). Across destinations it is false: the key is the XOR of seed,
  domain and tweak (`Keys.OriginsAgreeIff`), so for every destination of one account there
  is one at which another account walks the very same sequence (`Keys.AccountsShare`).
  Streams with different keys can coincide as well, exactly as `Walks.SameWalkIff` says.
- "No address is ever repeated" is false. `Freshness.RepeatIff` says exactly when two picks
  of an account for a destination are the same address, over every run; within one life of
  an entry none repeats before the pool has been walked
  (`Freshness.FreshAddressesDiffer`), and after a restart the first one does
  (`Freshness.RestartRepeats`, and the run of `Restarts.RestartedCycleRepeats`).
- A slice that holds a reserved or marker value can leave its range and can meet another
  account's slice (`SliceTheorems.NarrowSliceKeptIff`,
  `SliceTheorems.NarrowSlicesDisjointIff`).
- Sessions are keyed by token alone: another account's commit replaces a live session
  and the gauge then counts one too many (`ProxyTheorems.LiveSessionReplacedIff`,
  `ProxyTheorems.SharedTokenOverwrites`). A late commit of the same account over its own
  expired session does the same (`ProxyTheorems.LateCommitOverwrites`), and so does a check
  at the very moment of expiry, which finds the session neither live nor expired
  (`SessionLife.InstantCheckOverwrites`). Without these three the gauge is in sync
  (`SessionLife.GaugeIsExact`).
- The sweeper's recheck alone does not prevent a leaked claim
  (`Claims.NeverLeaksIff`, `Claims.LeakHappens`).
- Claims are described as idle-timed, but a call that finds its address present does not
  refresh the claim: an address in constant use is swept one TTL after its first claim
  (`Claims.UseNeverRefreshes`, `Claims.SweptInUse`).

## Model

| member | source | states |
|---|---|---|
| Streams.SetAddrBit | internal/pool/pool.go:280-288 | sets exactly one address bit of the byte array to v and keeps the other bits |
| Streams.Stream.constructor | internal/pool/pool.go:206-225 | the high and low word of the start are the mixtures of the key with 0x10 and 0x11, the stride's high word that with 0x12 and the mask's low word that with 0x15; the whole value is the origin of the key |
| Streams.Stream.Advance | internal/pool/pool.go:243-252 | the two-word add with carry is one stride on the ring of 2^128 positions |
| Streams.Stream.At | internal/pool/pool.go:254-276 | the bit loop returns the prefix followed by the bit-reversed counter XOR the mask, as arithmetic |
| Streams.Stream.Next | internal/pool/pool.go:227-241 | skips exactly the leading flagged positions up to the bound, returns the address it stops at and leaves the counter one past it |
| Streams.NewPool | internal/pool/pool.go:33-43 | prefix lengths below 0 become 0, above 128 become 128, and others are kept, with the prefix and the seed |
| Streams.OriginIsMixed | internal/pool/pool.go:206-225 | for every pool, domain and tweak: start, stride and mask are the six words mixed from the key with salts 0x10 to 0x15, in that order, the stride made odd and the mask cut to the host bits or to one word |
| Evaluation.MixesIff | internal/pool/pool.go:172-177 | the mixer computes the one word that its additions, exclusive ors and products modulo 2^64 lead to |
| Cycles.AddrBitAt | internal/pool/pool.go:254-276 | every address bit is the prefix's bit or counter bit k XOR the mirrored mask bit |
| Cycles.AddrAtParts | internal/pool/pool.go:254-276 | an address is its host number below the prefix's leading bits, so it lies in the prefix |
| Cycles.AddrAtInjective | internal/pool/pool.go:182-189 | two positions give the same address if and only if their counters agree modulo 2^width |
| Cycles.HostFieldIff | internal/pool/pool.go:254-276 | a field of the host has a given value exactly when the mirrored counter field has the reversed, masked value |
| Cycles.SameGroupIff | internal/pool/pool.go:254-256 | two positions share a /(bits+k) group exactly when their counters agree on the low k bits |
| Cycles.ExactCoverage | internal/pool/pool.go:182-189 | for every prefix length, start, odd stride, mask and k up to the width, any 2^k consecutive positions visit each /(bits+k) group of the prefix exactly once |
| Cycles.VisitsStayInside | internal/pool/pool.go:182-189 | every visited group lies inside the prefix |
| Cycles.StepsShareGroupIff | internal/pool/pool.go:182-189 | two steps of a cycle lie in one /(bits+k) group exactly when they are a multiple of 2^k apart |
| Cycles.NearStepsDiffer | internal/pool/pool.go:182-189 | positions fewer than 2^k steps apart lie in different /(bits+k) groups |
| Cycles.OppositeHalf | internal/pool/pool.go:254-256 | positions n and n+2^k agree on the first bits+k bits and differ at the next, so a wrap re-enters the same group in its other half |
| OddStride.StepsReach | internal/pool/pool.go:186-187 | an odd stride reaches every residue modulo 2^n within 2^n steps |
| OddStride.StepsMeetIff | internal/pool/pool.go:186-187 | odd-stride steps meet modulo 2^n exactly when they are a multiple of 2^n apart |
| Hygiene.HostValueMeaning | internal/pool/pool.go:312-327 | the (hi, lo) pair is the address modulo 2^width |
| Hygiene.HostValueOfAddrAt | internal/pool/pool.go:254-327 | the host number read back from a cycle address is the width-bit reversal of the counter XOR the mask |
| Hygiene.AllOnesMeaning | internal/pool/pool.go:329-341 | the all-ones test holds exactly for the all-ones host of widths 64 and up |
| Hygiene.MarkerMeaning | internal/pool/pool.go:165-170 | the EUI-64 test is a test of host bits 24 to 39 for every width from 40 |
| Hygiene.NeedsHygieneMeaning | internal/pool/pool.go:290-310 | whether an address is skipped depends on its host number alone: reserved values above width 2, the marker from width 40 |
| Hygiene.NeedsHygieneIs | internal/pool/pool.go:290-310 | the same in plain arithmetic: hosts 0 and 1 above width 2, all ones from width 64, 0xfffe in bits 24 to 39 from width 40 |
| Hygiene.SkipsMeaning | internal/pool/pool.go:227-241 | all skipped positions are flagged and the stop is clean unless the budget ran out |
| SkipBound.UncleanIff | internal/pool/pool.go:227-241 | a draw returns a flagged address exactly when nine positions in a row are flagged |
| SkipBound.LowReservedOnce | internal/pool/pool.go:290-305 | hosts 0 and 1 never occur within 2^(width-1) steps of each other |
| SkipBound.NarrowDraw | internal/pool/pool.go:227-241 | widths below 40 skip at most one position and always return a clean address |
| SkipBound.NoTwoMarkersInARow | internal/pool/pool.go:227-252 | if the 16 stride bits under the marker are neither 0 nor 0xffff, consecutive positions never both carry it |
| SkipBound.QuickDraw | internal/pool/pool.go:227-252 | under that condition at most five positions are skipped and the address is clean |
| SkipBound.NeverFragileUpTo42 | internal/pool/pool.go:227-252 | at widths 40 to 42 every odd stride is safe |
| SkipBound.NineFlaggedOnlyIfStuck | internal/pool/pool.go:227-252 | nine flagged positions in a row need a stuck cycle: one that moves less than an eighth of the marker's block, or less than a seventh with hosts 0 and 1 one move before or after it |
| SkipBound.StuckFails | internal/pool/pool.go:227-252 | every stuck cycle has nine flagged positions in a row |
| SkipBound.CleanCycleIff | internal/pool/pool.go:179-180 | eight skips suffice from every position of a cycle exactly when its width is below 40 or it is not stuck |
| SkipBound.FragileFails | internal/pool/pool.go:227-252 | every stride that moves less than a seventh of the block has a mask whose cycle is stuck |
| SkipBound.AlwaysCleanIff | internal/pool/pool.go:179-180 | eight skips suffice for every mask and every position exactly when the width is below 40 or the stride is not fragile |
| SkipBound.AllOnesNeverDrawn | internal/pool/pool.go:329-341 | from width 64 up no draw, clean or not, returns the all-ones host |
| Draws.FlaggedRunIsMet | internal/pool/pool.go:227-252 | wherever a stream starts and its draws fall, nine flagged positions anywhere on its cycle spoil one of its first 2^width draws |
| Draws.CleanStreamIff | internal/pool/pool.go:179-180 | every address a stream will ever hand out is clean exactly when its width is below 40 or its cycle is not stuck, and exactly when its first 2^width draws are |
| Draws.FailsEachLap | internal/pool/pool.go:227-252 | a cycle that moves at most a ninth of the marker's block fails once in every lap: with drift d, within ring / d draws and one more |
| Keys.OriginsAgreeIff | internal/pool/pool.go:202-225 | two streams of one pool are the same, start included, exactly when domain XOR tweak agree |
| Keys.AccountsDifferAt | internal/pool/pool.go:55-60 | two accounts never share a stream at one destination |
| Keys.AccountsShare | internal/pool/pool.go:55-60 | for every destination of one account there is a destination at which another account has the very same stream |
| Keys.StuckKey | internal/pool/pool.go:202-252 | for every prefix of at most 85 bits, a key whose six words make a stuck cycle |
| Keys.SomeTweakFails | internal/pool/pool.go:202-241 | for every pool of at most 85 bits, seed included, and every domain, a tweak whose stream hands out a flagged address |
| Keys.SomeDestinationFailsIff | internal/proxy/proxy.go:111-117 | for every pool, seed included, and every account, some normalised destination's stream hands out a flagged address exactly when the prefix has at most 85 bits |
| Tweaks.TweakReaches | internal/proxy/proxy.go:389-401 | every word is the hash of some normalised destination |
| Walks.SameWalkIff | internal/pool/pool.go:243-276 | two streams over one prefix visit the same addresses in the same order exactly when they start at the same host and stride alike under masks that differ in the lowest bit at most, or oppositely under masks that agree in the lowest bit at most |
| Walks.SameDraws | internal/pool/pool.go:227-241 | such streams hand out the same addresses, draw by draw |
| Evaluation.MixIs | internal/pool/pool.go:172-177 | what the mixer makes of a given word, by way of the values between |
| KnownFailure.SiteFails | internal/proxy/proxy.go:325-332 | in a /64 with seed 1, one of the first 7.8 million draws of its first account for the host name `vkf.test` is flagged |
| KnownFailure.SiteRunFails | internal/proxy/proxy.go:265-299 | a run of the proxy, whatever its ring and caps, whose last reply is that address |
| KnownAddresses.FirstAddress | internal/pool/pool.go:206-276 | in a /64 with seed 1 the first address of its first account for `vkf.test` ends in f4de:ca69:2b70:991c |
| KnownAddresses.SlicedHosts | internal/pool/pool.go:81-116 | with the slice 1000..1999 of that /64, sequence numbers 1 and 2 are hosts 1287 and 1201 |
| KnownAddresses.WideSlicedHost | internal/pool/pool.go:118-141 | with the subnets 1000..1999 of a /48, sequence number 1 is identifier f51f:cb3d:8514:8ca8 in subnet 1287 |
| Draws.AllOnesHandedOut | internal/pool/pool.go:329-341 | below width 64 every stream hands out the all-ones host among its first 2^width draws |
| Draws.AllOnesDrawnIff | internal/pool/pool.go:329-341 | some draw of a stream returns the all-ones host exactly when the width is below 64 |
| Draws.DrawsDiffer | internal/pool/pool.go:227-252 | draws fewer than 2^width / 9 apart are different addresses |
| Mixer.UnmixMix | internal/pool/pool.go:172-177 | the mixer has a left inverse, so distinct words mix to distinct words |
| Mixer.MixUnmix | internal/pool/pool.go:172-177 | the same inverse is a right inverse, so every word is a mixed value |
| Mixer.AccountDomainsDistinct | internal/pool/pool.go:55-60 | different account indices of one pool have different domains |
| Slices.SanitizeHost | internal/pool/pool.go:143-163 | the loop computes the closed form and never runs out of its eight passes |
| Slices.SanitizedMeaning | internal/pool/pool.go:143-163 | the result stays in the host space and is clean, exactly the clean values are unchanged, and repairing is idempotent |
| Slices.FlipMarker | internal/pool/pool.go:152-154 | the XOR on a marked value subtracts 2^33 and removes the marker |
| Slices.IPForNarrow | internal/pool/pool.go:95-116 | writes the repaired raw host below the untouched prefix bits |
| Slices.IPForWide | internal/pool/pool.go:118-141 | writes the masked subnet below the prefix bits and a repaired identifier in the low word |
| Slices.IPForAcct | internal/pool/pool.go:80-93 | returns the sliced address of the mixed sequence number, and the prefix itself for /128 |
| Slices.SlicedAddrParts | internal/pool/pool.go:62-71 | for all sequence numbers, domains and slices the address lies in the prefix and carries its host number |
| SliceTheorems.WideSlicesDisjoint | internal/pool/pool.go:118-141 | accounts with disjoint in-range subnet slices of a wide pool never share an address |
| SliceTheorems.NarrowSlicesDisjointIff | internal/pool/pool.go:95-116 | accounts with disjoint in-range slices of a narrow pool share no address exactly when neither the values 0, 1, 2 and all-ones nor a marker and its repaired form fall into both slices |
| SliceTheorems.NarrowSliceKeptIff | internal/pool/pool.go:69-75 | a narrow account stays in its slice exactly when repair maps none of its hosts out of it |
| SliceTheorems.WideSliceKept | internal/pool/pool.go:118-141 | a wide account's subnet always stays in its slice |
| SliceTheorems.SameRepairIff | internal/pool/pool.go:143-163 | which two different hosts are repaired to the same value |
| SliceTheorems.DrawOf | internal/pool/pool.go:80-116 | every host of a slice is drawn, repaired, by some sequence number |
| SliceTheorems.DrawsRepeatIff | internal/pool/pool.go:80-141 | on wide pools and the unsliced /64 two sequence numbers share an address exactly when they fall into one subnet and their raw identifiers are both 0, 1, 2 or all-ones, or one is repaired onto the other |
| SliceTheorems.RepeatOnlyAfterRepair | internal/pool/pool.go:80-93 | on wide pools and the unsliced /64 two sequence numbers share an address only if repair moved one of the raw values |
| SlicedRuns.AnswersDiffer | internal/proxy/proxy.go:280-285 | over every interleaving of sliced callers, two answers are two draws of the shared counter, and their numbers agree exactly when the draws are a multiple of 2^64 apart |
| SlicedRuns.NumbersDiffer | internal/proxy/proxy.go:280-285 | before 2^64 draws no sequence number is answered twice |
| SlicedRuns.AnswersMeetIff | internal/proxy/proxy.go:280-285 | on a wide pool two answers for one account and destination are the same address exactly when their draws are a multiple of 2^64 apart, or they share a subnet and repair makes their identifiers equal |
| SlicedRuns.CleanAnswersDiffer | internal/proxy/proxy.go:280-285 | before 2^64 draws two answers with clean identifiers are different addresses |
| SlicedRuns.NarrowAnswersMeetIff | internal/pool/pool.go:97-116 | on a narrow pool two answers are the same address exactly when their raw hosts are equal or repair makes them so |
| Rotation.DrawFreshMeaning | internal/proxy/proxy.go:287-299 | a pick with its skips and ring retries consumes positions and returns the address of the last one consumed |
| Rotation.StaleOnlyIfAllStale | internal/proxy/proxy.go:360-367 | a cycle pick returns a recently seen address exactly when every candidate was seen recently |
| Rotation.OverwriteOldest | internal/proxy/proxy.go:372-377 | overwriting the slot at the index and moving on is leaving a queue at the front and entering at the back |
| Rotation.StreamKeyInjective | internal/proxy/proxy.go:320 | usernames without NUL bytes give each (account, destination) its own entry |
| Rotation.TouchedSize | internal/proxy/proxy.go:319-332 | a lookup keeps the table within its cap |
| Picks.RecordKeeps | internal/proxy/proxy.go:368-379 | recording keeps the ring free of duplicates and equal to the last recorded addresses |
| Picks.FirstFreshStale | internal/proxy/proxy.go:280-285 | a sliced pick returns a recent address exactly when all four candidates were recent |
| Picks.CyclePickSource | internal/proxy/proxy.go:316-332 | a hit continues its own cycle and a miss draws from the deterministic origin |
| Picks.CyclePickStaleIff | internal/proxy/proxy.go:287-299 | a full-pool pick returns a recent address exactly when all of four draws in a row were recent |
| Picks.FreshPickKeeps | internal/proxy/proxy.go:265-299 | every pick, cycle or sliced, keeps the rotation invariant and returns an address inside the prefix |
| Picks.SweepKeeps | internal/proxy/proxy.go:462-477 | a sweep keeps the rotation invariant |
| Picks.StreamMax | internal/proxy/proxy.go:101-105 | the cap is the configured one when that is positive and 1024 otherwise |
| ProxyRuns.StepKeeps | internal/proxy/proxy.go:407-477 | every step of every caller keeps the invariant, never turns the clock back and hands back only addresses inside the prefix |
| ProxyRuns.RunSafety | internal/proxy/proxy.go:316-477 | in every state of every run the table is within its cap with an exact gauge, the ring is the last recorded addresses without duplicates, the session counters balance, and all stored addresses are inside the prefix |
| ProxyRuns.RepliesInside | internal/proxy/proxy.go:265-299 | every address handed back in any run lies inside the configured prefix |
| ProxyRuns.DropKeeps | internal/proxy/proxy.go:438-455 | dropping stored sessions keeps the counters balanced |
| ProxyRuns.CommitKeeps | internal/proxy/proxy.go:427-433 | storing a session keeps the counters balanced, an overwrite counting as one |
| ProxyRuns.HitPerforms | internal/proxy/proxy.go:407-412 | a call alone that finds its session is one step of the machine and replies its address |
| ProxyRuns.MissPerforms | internal/proxy/proxy.go:407-436 | a call alone that does not is three steps of the machine, of which the last replies the picked address |
| ProxyTheorems.LiveSessionReplacedIff | internal/proxy/proxy.go:407-436 | a session still live after a step was replaced by it exactly when the step is another account's commit for the token |
| ProxyTheorems.SessionSurvives | internal/proxy/proxy.go:407-455 | a token used by one account keeps its session, under every interleaving, until the session expires |
| ProxyTheorems.StickyAnswersAgree | internal/proxy/proxy.go:407-436 | all calls for such a token that finish in one session's life return the same address |
| ProxyTheorems.AnswerIsStored | internal/proxy/proxy.go:407-436 | the address handed back is the one stored for the token right afterwards |
| ProxyTheorems.SharedTokenOverwrites | internal/proxy/proxy.go:422-434 | two accounts with one token: a run in which the second replaces the first's live session and the gauge reads two for one stored |
| ProxyTheorems.LateCommitOverwrites | internal/proxy/proxy.go:422-434 | one account alone: two callers miss together and the second commits after the first one's session has run out, and the gauge reads two for one stored |
| SessionLife.MissedCheck | internal/proxy/proxy.go:408-416 | a check that misses removes the token's session, lowers the gauge and counts a drop exactly when the session has expired, and changes no session otherwise |
| SessionLife.CommitStores | internal/proxy/proxy.go:427-433 | a commit that finds no live session stores one that expires one TTL after its clock reading |
| SessionLife.SweepLeaves | internal/proxy/proxy.go:446-455 | after a sweep exactly the sessions not expired at its clock reading are left, unchanged, and each one gone is counted |
| SessionLife.SessionLivesExactly | internal/proxy/proxy.go:407-436 | over every run, a committed session answers its account exactly until the commit's clock reading plus the TTL, unless another commit for the token comes first |
| SessionLife.GaugeIsExact | internal/proxy/proxy.go:407-455 | over every run with one account to a token, one open call to a token and no check at the very moment of expiry, nothing is overwritten and the gauge is the number of stored sessions |
| SessionLife.InstantCheckOverwrites | internal/proxy/proxy.go:409-415 | one account, one call after the other: a check at the very moment of expiry leaves a session that the commit overwrites, and the gauge reads two for one stored |
| Freshness.EntryLostOnlyIf | internal/proxy/proxy.go:334-346 | a cycle is lost only to a sweep that found it idle or, from a full table, as an entry with the least last use |
| Freshness.CyclePosition | internal/proxy/proxy.go:316-332 | in every state of every run a tracked cycle is the deterministic origin of the step that started it, moved by the stride times the positions consumed since |
| Freshness.PickIs | internal/proxy/proxy.go:287-299 | every full-pool pick of every run, hit or miss, is the address that lies as many strides after its cycle's origin as positions were consumed in this life of the entry |
| Freshness.LifeMeetIff | internal/proxy/proxy.go:265-299 | two picks in one life of an entry, its first included, share a /(bits+k) group, or an address, exactly when the positions consumed between them are a multiple of 2^k, or of 2^width |
| Freshness.FreshGroupsDiffer | internal/proxy/proxy.go:265-299 | two picks in one life lie in different /(bits+k) groups as long as fewer than 2^k positions were consumed between them |
| Freshness.FreshAddressesDiffer | internal/proxy/proxy.go:265-299 | in one life no address repeats before 2^width positions were consumed |
| Freshness.RepeatIff | internal/proxy/proxy.go:265-332 | over every run, evictions and sweeps included, two picks of one account for one destination are the same address exactly when the positions consumed in their lives differ by a multiple of 2^width |
| Freshness.RestartRepeats | internal/proxy/proxy.go:325-332 | two picks that each start the cycle return the same address whenever its first address is in neither ring |
| Restarts.WalkRun | internal/proxy/proxy.go:287-299 | picks of one account for one destination are the draws of its stream, one by one, as long as the ring has seen none of them |
| Restarts.RestartedCycleRepeats | internal/proxy/proxy.go:325-332 | for every ring smaller than a ninth of the pool, a run of picks, an idle sweep and a pick whose last address is its first |
| Proxies.Proxy.constructor | internal/proxy/proxy.go:88-126 | the proxy starts with empty tables, ring and gauges and with its sequence counter at 0 |
| Proxies.Proxy.BrHit | internal/proxy/proxy.go:383-387 | the set lookup decides membership in the ring's queue |
| Proxies.Proxy.RecordRecent | internal/proxy/proxy.go:368-380 | the ring's queue changes as recording says and its companion set follows |
| Proxies.Proxy.EvictStreamLocked | internal/proxy/proxy.go:334-346 | removes exactly one entry, one with minimal last use |
| Proxies.Proxy.MakeRoom | internal/proxy/proxy.go:325-327 | the eviction loop ends below the cap after removing at most one, oldest, entry |
| Proxies.Proxy.StreamLocked | internal/proxy/proxy.go:316-332 | the table after a lookup: a hit refreshed, a miss started at its origin, an oldest victim dropped from a full table |
| Proxies.Proxy.DrawUnseen | internal/proxy/proxy.go:290-296 | draws until an address is unseen or three retries are spent |
| Proxies.Proxy.DrawCycle | internal/proxy/proxy.go:287-296 | the looked-up cycle, moved by the draw and nothing else, and the gauge |
| Proxies.Proxy.FreshCycle | internal/proxy/proxy.go:287-299 | the object's new state and address are the machine's full-pool pick |
| Proxies.Proxy.DrawSliced | internal/proxy/proxy.go:280-285 | takes the next numbers of the counter, one by one modulo 2^64, while the ring has seen their addresses and at most four; returns the address of the last number taken, where the counter then stands |
| Proxies.Proxy.FreshSliced | internal/proxy/proxy.go:280-285 | the object's new state and address are the machine's sliced pick on the numbers that follow the counter, which moves to the number of the address returned |
| Proxies.Proxy.FreshIP | internal/proxy/proxy.go:271-299 | the object's new state and address are the machine's pick; the counter stands still for full-pool accounts and moves to the returned address's number for sliced ones |
| Proxies.Proxy.SweepStreams | internal/proxy/proxy.go:462-477 | every cycle left was used within the hour before the first clock reading and every cycle gone was not within the hour before the last; those left are unchanged, the cap holds and the gauge is their number |
| Proxies.Proxy.DropSessionLocked | internal/proxy/proxy.go:438-443 | removes the session and lowers the gauge by one |
| Proxies.Proxy.StickyCheck | internal/proxy/proxy.go:408-416 | returns a live session of the account; otherwise removes the token's session and lowers the gauge exactly when it expired before the second clock reading; it is the machine's first section |
| Proxies.Proxy.StickyCommit | internal/proxy/proxy.go:422-435 | lets a live session of the account win, and otherwise stores the new one, expiring after the TTL, and counts it; it is the machine's second section |
| Proxies.Proxy.StickyIP | internal/proxy/proxy.go:407-436 | without interference a live session is returned and nothing changes; otherwise one pick is made and stored until the TTL has passed; either way old and new state are joined by the machine's own steps, which reply the address returned |
| Proxies.Proxy.StickyPick | internal/proxy/proxy.go:418-435 | after a miss, one pick of the machine and the commit of its address |
| Proxies.Proxy.SweepSessions | internal/proxy/proxy.go:445-455 | exactly the sessions that expired before the clock reading go, the others are unchanged and the gauge falls by their number; it is the machine's step |
| Claims.ClaimTTL | internal/claim/claim.go:29-41 | the TTL is the configured one when that is positive and five minutes otherwise |
| Claims.Claimer.constructor | internal/claim/claim.go:29-41 | a claimer starts with no claims |
| Claims.Claimer.EnsureClaimed | internal/claim/claim.go:43-56 | an address already present changes nothing; otherwise it is tracked from now and added unless the kernel refuses |
| Claims.Claimer.CollectStale | internal/claim/claim.go:60-72 | collects every claim stale at the first clock reading and only claims stale at the last |
| Claims.Claimer.Sweep | internal/claim/claim.go:58-89 | every address stale at the first reading is tried and none still fresh at the last; those the kernel lets go leave the interface and the claims together, and nothing else changes |
| Claims.StepKeeps | internal/claim/claim.go:47-89 | every interleaved step keeps the no-leak invariant when the two windows fit in the TTL |
| Claims.LeakHappens | internal/claim/claim.go:47-89 | with longer windows a twelve-step run leaves an added address untracked |
| Claims.NeverLeaksIff | internal/claim/claim.go:47-89 | under any interleaving, every address added and not removed stays tracked exactly when the record-to-add and delete-to-untrack windows together are at most the TTL |
| Claims.UseNeverRefreshes | internal/claim/claim.go:47-56 | while an address stays on the interface its claim keeps the time it had, over every run and however often the address is used, and sweepers may collect it exactly when that time is stale |
| Claims.SweptInUse | internal/claim/claim.go:47-89 | a run in which an address is used and, at the same moment, swept |
| Usernames.IndexOf | internal/proxy/proxy.go:203-210 | the index of the first occurrence, or -1 exactly when there is none |
| Usernames.SplitUsername | internal/proxy/proxy.go:195-201 | cuts at the first separator |
| Usernames.SplitUnique | internal/proxy/proxy.go:195-201 | a username has one split |
| Usernames.SplitRecoversIff | internal/proxy/proxy.go:195-210 | splitting base + "-session-" + token gives base and token exactly when base neither contains the separator nor ends in "-session" |
| Usernames.ConstantTimeEqual | internal/proxy/proxy.go:212-223 | the accumulating comparison decides equality |
| Usernames.Authenticate | internal/proxy/proxy.go:181-193 | accepts an account only with a name that splits into the account's and the token returned, and with the account's password, and refuses only if there is no such account |
| Usernames.AcceptedIff | internal/proxy/proxy.go:181-201 | the outcome is a given account and token exactly when the name splits into that account's name and that token and the password is the account's |
| Usernames.RefusedIff | internal/proxy/proxy.go:181-193 | login is refused exactly when the name and password are no account's |
| Usernames.LoginWithToken | internal/proxy/proxy.go:181-201 | an account name that can be split off logs in with any token and its own password, and with no other password |
| Usernames.LoginWithoutToken | internal/proxy/proxy.go:181-201 | a name without the separator logs in as itself, with no token, with its own password and with no other |
| Socks5.EncodedIsDialled | internal/proxy/socks5.go:22-124 | an encoded method list with 0x02, accepted credentials and a CONNECT request is dialled with its account, token, host and port, and exactly its bytes are consumed |
| Socks5.DialledIsEncoded | internal/proxy/socks5.go:22-124 | every stream that reaches the dial is such an encoding, with any credential-version and reserved byte |
| Socks5.DialIff | internal/proxy/socks5.go:22-124 | both directions, for every stream, account set and leftover |
| Socks5.LoginRoundTrip | internal/proxy/socks5.go:50-65 | encoding and parsing credentials recovers version, user and password |
| Socks5.RequestRoundTrip | internal/proxy/socks5.go:77-114 | encoding and parsing a request recovers command, host and port for all three address types |
| Socks5.ReplyRoundTrip | internal/proxy/socks5.go:138-154 | a client reading the reply recovers the code and the bind address, an IPv4-mapped one as IPv4 |
| Socks5Replies.OutcomeIff | internal/proxy/socks5.go:22-119 | for every input each refusal comes exactly when the input, message by message, calls for it, and the bytes written are given for every outcome |
| Socks5Replies.MethodHeardIff | internal/proxy/socks5.go:28-48 | a client reads method 2 exactly if it offered it and the reply could be written, 0xff exactly if it offered others only, and nothing else |
| Socks5Replies.StatusHeardIff | internal/proxy/socks5.go:50-75 | a client reads login status 0 exactly if it sent the name and password of an account and the replies could be written, status 1 exactly if it sent others |
| Socks5Replies.CodeHeardIff | internal/proxy/socks5.go:77-119 | a client reads code 8 exactly for an unknown address type, code 7 exactly for a whole request with another command than CONNECT, and no other code before the dial |
| Socks5Replies.DialNeedsLogin | internal/proxy/socks5.go:67-124 | no stream is dialled for an account whose name and password it did not send |
| Socks5Replies.BobIsRefused | internal/proxy/socks5.go:67-72 | the bytes of a login as bob with the password x are answered 05 02 01 01 unless that is an account's password |
| Socks5Replies.BobConnects | internal/proxy/socks5.go:85-119 | the bytes of a CONNECT request to an IPv4 address, a name and an IPv6 address, with a big-endian port |
| Socks5Replies.BobIsToldWhy | internal/proxy/socks5.go:42-119 | the bytes answered to a BIND request, to an unknown address type and to a client without username/password |
| Socks5Handler.Conn.ReadFull | internal/proxy/socks5.go:22-25 | fills the buffer's first n bytes with the next n input bytes, or fails |
| Socks5Handler.ReadGreeting | internal/proxy/socks5.go:23-45 | the scanned method list agrees with the parser |
| Socks5Handler.ReadLogin | internal/proxy/socks5.go:50-65 | user and password survive the buffer's reuse |
| Socks5Handler.ReadRequest | internal/proxy/socks5.go:77-114 | command, host and port survive the buffer's reuse |
| Socks5Handler.HandleSOCKS5 | internal/proxy/socks5.go:17-124 | outcome, bytes written and bytes consumed are those of the parser on every input; the very bytes of every refusal; login is refused exactly to credentials that are no account's, and only an account that sent its own is dialled for |

## Left out

- HTTP forwarding, CONNECT hijacking, relaying and dialing: network I/O over library types.
- Interface and route inspection and the `ip` command: the interface is an address set whose additions and deletions may fail; the interface name and its cache are not modelled.
- Auto-pool, fixed-source, single-interface and address-list modes: the pool is a parameter; only the static prefix mode of source selection is modelled.
- Configuration loading, metrics rendering, logging, the skip and pick counters: plumbing around the modelled state.
- Randomness and timing: the seed is an arbitrary word; that comparison time does not depend on the data is not a functional property.
- Slices.IPForNarrow: addresses are 16-byte values returned by value; aliasing of the returned slice with the local array is not modelled.
- Hygiene.NeedsHygieneMeaning: stated for 16-byte addresses, the only ones a cycle produces; the branch for other lengths is not modelled.
- Proxies.Proxy.FreshSliced: the shared counter is advanced by one caller at a time here; `SlicedRuns` interleaves callers on the counter with the ring as it happens to be, and the sliced pick of `ProxyRuns` allows any sequence numbers.
- Proxies.Proxy.StickyIP: sequential; interleavings are in `ProxyRuns`, `ProxyTheorems` and `SessionLife`.
- Socks5Handler.HandleSOCKS5: ends at the decision to dial; the two replies it waits for may fail to be written, a failing last reply is not distinguished.
- Claims.Claimer.Sweep: sequential; interleavings are in the protocol part of `Claims`.
- Keys.SomeDestinationFailsIff: destinations are byte strings of any length; those built by `Tweaks.TweakReaches` are far longer than a host name. `KnownFailure` has an ordinary one.
- Freshness.RepeatIff: for configurations in which a username names one account and holds no NUL byte; otherwise two accounts can share a table key.
- Restarts.RestartedCycleRepeats: a witness for rings smaller than a ninth of the pool; for larger ones `Freshness.RepeatIff` still says exactly which picks repeat.
