# Verification of the store, the simulator and the vendored cryptography

A Dafny 4.11 model of the hard parts of this repository and machine-checked proofs about it:
`dafny verify dfyconfig.toml` checks everything.

| file | models |
|---|---|
| `Arith.dfy`, `Bits.dfy`, `MachineWords.dfy` | powers, division and residues, divisibility; bitwise operations on naturals, bit by bit and as 32-bit words |
| `Limbs.dfy`, `Mpi.dfy`, `MpiBits.dfy`, `MpiBytes.dfy` | limb arithmetic with wraparound, signed multi-precision integers, shifts, byte strings |
| `MpiDiv.dfy` | two-by-one limb division in both forms, Knuth's Algorithm D, reduction |
| `Montgomery.dfy`, `ExpMod.dfy` | Montgomery multiplication and sliding-window exponentiation |
| `GcdInv.dfy`, `Dhm.dfy` | binary gcd, binary extended inverse, Diffie-Hellman blinding |
| `Blocks.dfy` | bytes, blocks, byte-string operations shared by the modes |
| `CcmSpec.dfy`, `CcmFormat.dfy`, `CcmRaw.dfy`, `CcmStale.dfy`, `Ccm.dfy` | CCM on values, its formatting, its data calls in any state, after earlier operations, and as a stream |
| `Xts.dfy`, `Gf128.dfy`, `Padding.dfy`, `Cbc.dfy` | XTS with its tweaks as powers, and CBC, over an abstract block cipher |
| `Jenkins.dfy`, `JenkinsWords.dfy`, `Store.dfy` | the hash, the slab allocator and the key-value store |
| `Sequences.dfy`, `Lru.dfy`, `Walk.dfy` | the TLB and cache simulator: levels, and whole accesses |
| `Der.dfy`, `Base64.dfy` | encoders, decoders and their round trips |

A multi-precision integer is an object with a sign and a sequence of limbs below B = 2^biL; biL is an
arbitrary constant, 32 or 64, so every result holds for both. Methods are specified through the
integer value, and most allow the source's aliasing of targets and operands. A block cipher is an
arbitrary function on 16-byte blocks; where decryption matters, `Inverse(E, D)` says that D undoes E.
Item pointers in the store are chunk numbers of the one page the allocator carves.

Places where the code departs from the plain property, each kept as the code has it:

- `mbedtls_mpi_exp_mod` with a negative base and odd exponent returns N itself, not 0, when N divides the power (`ExpMod.ExpMeaning`, `ExpMod.WholeModulus`).
- `mbedtls_mpi_gcd` with B = 0 returns A with its sign (`GcdInv.GcdExact`).
- `mbedtls_mpi_div_mpi` reads the operands' signs after it has written Q, so Q may be an operand only where those signs do not matter (`MpiDiv.AliasedExact`, `MpiDiv.SignLost`).
- `mbedtls_mpi_mod_mpi` with R in the place of the modulus never ends (`MpiDiv.SpinningMod`).
- A failure in `dhm_update_blinding` leaves a pair that the next call with the same exponent squares although it need not blind, and the call succeeds with a wrong secret (`DhmBlinding.SecretExact`, `DhmBlinding.SpoiltSecret`). An exponent that differs from pX, checked before the call, makes it right again (`DhmBlinding.RunSecrets`).
- `slabs_clsid` returns an unsigned -1 that `slabs_alloc` can never catch, so items over 16 KiB are excluded by a precondition.
- A failed `cache_set` has already removed the key's old value.
- A zero tag hits on an unused way the first time it is used (`Lru.TrueLruIff`).
- Address space 0xffff shares TLB tags with kernel pages in `mixpageasid` (`Lru.MixCollision`, `Walk.EntryClash`); this needs a user page that no 48-bit canonical address has (`Walk.EntryExact`).
- CCM* without a tag ignores the message length, so its counter can wrap; `CcmSpec.CountersDistinct` gives the exact condition.
- `mbedtls_ccm_starts` clears neither y nor the state bits. `CcmStale.StaleExact` says exactly when what is left matters, and in `Ccm.RefusedForever` one refused call blocks all later ones.
- The Base64 decoder drops the digits of an incomplete last group without an error (`Base64.OutSize`).
- DER writing of a negative number keeps only its magnitude, and of a negative int only its lowest byte; both parse without an error (`Der.MpiRoundTrip`, `Der.NegativeInts`).
- DER writing of the number zero looks at the byte after the cursor (`Der.WriteMpi`).

## Model

| member | source | states |
|---|---|---|
| Limbs.MulAddcDouble | mbedtls-3.1.0/library/bn_mul.h:935-941 | the double-width multiply-accumulate step is exact: low and carry limb together are s*b + c + d |
| Limbs.MulAddcHalf | mbedtls-3.1.0/library/bn_mul.h:947-966 | the half-limb step meets the same equation, wraparound of its sums included |
| Limbs.MulAddcUnique | mbedtls-3.1.0/library/bn_mul.h:935-966 | that equation has one solution in limbs, so the two forms of the macro agree |
| Mpis.Copy | mbedtls-3.1.0/library/bignum.c:216-257 | the target takes sign and value, also onto itself, and never loses limbs |
| Mpis.CmpAbs | mbedtls-3.1.0/library/bignum.c:1031-1058 | three-way comparison of the magnitudes, whatever leading zero limbs either operand has |
| Mpis.CmpMpi | mbedtls-3.1.0/library/bignum.c:1063-1093 | three-way comparison of the signed values |
| Mpis.AddAbs | mbedtls-3.1.0/library/bignum.c:1115-1169 | the magnitude is the exact sum, with either operand as target; the carry never leaves the buffer |
| Mpis.SubHlp | mbedtls-3.1.0/library/bignum.c:1188-1203 | limb-wise difference modulo B^n with the final borrow, also in place |
| Mpis.SubAbs | mbedtls-3.1.0/library/bignum.c:1208-1258 | the exact difference of magnitudes, and the negative-value error exactly when it would be negative |
| Mpis.AddMpi | mbedtls-3.1.0/library/bignum.c:1263-1293 | signed addition on the values, under any aliasing |
| Mpis.SubMpi | mbedtls-3.1.0/library/bignum.c:1298-1328 | signed subtraction on the values, under any aliasing |
| Mpis.MulHlp | mbedtls-3.1.0/library/bignum.c:1390-1452 | adds b times a window of limbs at an offset; the carry chain ends inside the target |
| Mpis.MulMpi | mbedtls-3.1.0/library/bignum.c:1457-1504 | the value is the product, under any aliasing |
| Mpis.MulInt | mbedtls-3.1.0/library/bignum.c:1509-1542 | the one-limb product, computed as A + A*(b-1) |
| MpiBits.Bitlen | mbedtls-3.1.0/library/bignum.c:375-389 | the bit length characterised by 2^(r-1) <= v < 2^r |
| MpiBits.Lsb | mbedtls-3.1.0/library/bignum.c:341-352 | the exponent of the largest power of two that divides the value |
| MpiBits.ShiftL | mbedtls-3.1.0/library/bignum.c:936-982 | multiplication of the value by 2^count; no bit is lost |
| MpiBits.ShiftR | mbedtls-3.1.0/library/bignum.c:987-1026 | the magnitude is divided by 2^count, rounding down |
| MpiBytes.GetByteValue | mbedtls-3.1.0/library/bignum.c:306-307 | byte i of the limbs is byte i of the value, for both limb widths |
| MpiBytes.Size | mbedtls-3.1.0/library/bignum.c:394-397 | the number of bytes n with 256^(n-1) <= v < 256^n, zero for zero |
| MpiBytes.WriteBinary | mbedtls-3.1.0/library/bignum.c:890-931 | the big-endian form of the magnitude, refused exactly when it does not fit |
| MpiBytes.BigendianToHost | mbedtls-3.1.0/library/bignum.c:757-784 | limbs end for end and bytes inside each limb swapped in place, odd counts included |
| MpiBytes.ReadBinary | mbedtls-3.1.0/library/bignum.c:815-846 | the value is the unsigned big-endian value of any byte string |
| MpiDiv.IntDivIntWide | mbedtls-3.1.0/library/bignum.c:1561-1581 | saturates on overflow, else returns the unique quotient and remainder of the two-limb dividend |
| MpiDiv.IntDivIntHalf | mbedtls-3.1.0/library/bignum.c:1561-1638 | the half-limb algorithm meets the same specification despite wraparound in its intermediates |
| MpiDiv.DivisionUnique | mbedtls-3.1.0/library/bignum.c:1548-1638 | quotient and remainder are unique, hence both forms return the same digits |
| MpiDiv.EstimateDigit | mbedtls-3.1.0/library/bignum.c:1706-1728 | the digit after the three-by-two correction is never too small and at most one too large, with the divisor's top bit clear |
| MpiDiv.DivTopDigit | mbedtls-3.1.0/library/bignum.c:1693-1702 | repeated subtraction yields the top digit and a remainder below the shifted divisor, preserving Z*D + X |
| MpiDiv.DivDigit | mbedtls-3.1.0/library/bignum.c:1704-1741 | one round preserves Z*D + X and leaves X below the shifted divisor: a single add-back suffices |
| MpiDiv.DivCore | mbedtls-3.1.0/library/bignum.c:1676-1741 | the scaled operands satisfy the division identity with a remainder below the divisor |
| MpiDiv.DivMpi | mbedtls-3.1.0/library/bignum.c:1643-1766 | quotient and remainder of truncated division for all operands, either result absent; when the quotient is an operand, exactly what is then written; the zero-divisor error exactly for zero |
| MpiDiv.AliasedExact | mbedtls-3.1.0/library/bignum.c:1672-1758 | with the quotient in the place of an operand, quotient and remainder are right if and only if the signs, read after the overwriting, come out right or do not matter |
| MpiDiv.SignLost | mbedtls-3.1.0/library/bignum.c:1743-1747 | witness: dividing -7 by 2 in place gives 3 |
| MpiDiv.TruncDivMeaning | mbedtls-3.1.0/library/bignum.c:1643-1766 | that pair is characterised by A = Q*B + R, R smaller than B in magnitude, and R zero or of A's sign |
| MpiDiv.ModMpi | mbedtls-3.1.0/library/bignum.c:1790-1811 | the residue in [0, B), with the error for each sign of the modulus |
| MpiDiv.SpinningMod | mbedtls-3.1.0/library/bignum.c:1790-1811 | with R in the place of the modulus a closing loop makes any number of rounds and goes on |
| Montgomery.NewtonStep | mbedtls-3.1.0/library/bignum.c:1875-1887 | one Newton step doubles the number of correct low bits of the inverse, wraparound included |
| Montgomery.MontgInit | mbedtls-3.1.0/library/bignum.c:1875-1887 | mm satisfies m*mm = -1 modulo 2^biL for every odd limb, for 32 and 64 bits |
| Montgomery.CondAssign | mbedtls-3.1.0/library/constant_time.c:301-324 | masking alone copies the limbs or leaves them |
| Montgomery.MontStep | mbedtls-3.1.0/library/bignum.c:1923-1935 | one row keeps the accumulator below 2N and divides exactly by B |
| Montgomery.MontFinish | mbedtls-3.1.0/library/bignum.c:1937-1956 | the unconditional subtraction and masked copy leave the representative below N |
| Montgomery.Montmul | mbedtls-3.1.0/library/bignum.c:1911-1956 | a value below N whose product with R is A*B modulo N |
| ExpMod.RepMul | mbedtls-3.1.0/library/bignum.c:2089-2111 | Montgomery representatives multiply like the numbers they stand for |
| ExpMod.MontmulUnique | mbedtls-3.1.0/library/bignum.c:1911-1956 | there is only one such value below N |
| ExpMod.Montred | mbedtls-3.1.0/library/bignum.c:1963-1973 | leaving the domain divides by R modulo N |
| ExpMod.SafeCondAssign | mbedtls-3.1.0/library/constant_time.c:536-560 | branch-free conditional assignment of sign and magnitude |
| ExpMod.Select | mbedtls-3.1.0/library/bignum.c:1990-2002 | the selected table entry, while every entry is read |
| ExpMod.WindowIndex | mbedtls-3.1.0/library/bignum.c:2175-2200 | every table index has its top window bit set, and prefix = h*2^nbits + window |
| ExpMod.BuildTable | mbedtls-3.1.0/library/bignum.c:2113-2136 | the upper half of the table holds the powers it is indexed by |
| ExpMod.ScanBit | mbedtls-3.1.0/library/bignum.c:2158-2200 | one exponent bit in any scanner state keeps the invariant between exponent prefix, window and power |
| ExpMod.ScanAll | mbedtls-3.1.0/library/bignum.c:2138-2201 | after all bits the accumulator holds a^h and the pending window completes the exponent |
| ExpMod.Leftover | mbedtls-3.1.0/library/bignum.c:2203-2214 | the unfinished window is consumed bit by bit, completing the exponent |
| ExpMod.ComputeRR | mbedtls-3.1.0/library/bignum.c:2074-2087 | R^2 mod N, from or into the cache |
| ExpMod.ExpModMpi | mbedtls-3.1.0/library/bignum.c:2007-2239 | refuses exactly the bad arguments; else the result is the power of the magnitude of A modulo N with the source's sign fix, and the cache stays right for N |
| ExpMod.ExpMeaning | mbedtls-3.1.0/library/bignum.c:2007-2239 | that result is congruent to A^E, lies in [0, N], and is the reduced residue if and only if it is not the case that A is negative, E odd and N divides the power (then it is N) |
| ExpMod.CoprimeBase | mbedtls-3.1.0/library/bignum.c:2007-2239 | a base with no common factor with N > 1 always gives the reduced residue |
| ExpMod.MultipleBase | mbedtls-3.1.0/library/bignum.c:2221-2225 | a negative multiple of N to an odd power gives N |
| ExpMod.WholeModulus | mbedtls-3.1.0/library/bignum.c:2221-2225 | witness: (-3)^1 mod 3 comes out as 3 |
| GcdInv.GcdRound | mbedtls-3.1.0/library/bignum.c:2310-2334 | one round keeps the gcd up to the shared power of two and shrinks TA + TB |
| GcdInv.GcdLoop | mbedtls-3.1.0/library/bignum.c:2310-2346 | the rounds end, and the shifted result is the gcd |
| GcdInv.GcdMpi | mbedtls-3.1.0/library/bignum.c:2244-2353 | the greatest common divisor of the magnitudes of A and B for every A and nonzero B; B = 0 returns A |
| GcdInv.GcdExact | mbedtls-3.1.0/library/bignum.c:2262-2270 | the result is the gcd if and only if it is not the copied negative A |
| GcdInv.HalvingExact | mbedtls-3.1.0/library/bignum.c:2523-2549 | the cofactors are even, or become even by the adjustment, and the relation is kept |
| GcdInv.HalveAll | mbedtls-3.1.0/library/bignum.c:2523-2549 | halving keeps U1*TA + U2*TB = TU and ends with TU odd |
| GcdInv.ExtendedRounds | mbedtls-3.1.0/library/bignum.c:2521-2564 | the loops end with V1*TA + V2*TB = 1 |
| GcdInv.InvMod | mbedtls-3.1.0/library/bignum.c:2488-2581 | 0 <= X < N and A*X = 1 mod N when gcd(A, N) = 1, and each error exactly in its case, leaving X alone |
| DhmBlinding.BlindsSquare | mbedtls-3.1.0/library/dhm.c:397-406 | squaring both values keeps Vi^X * Vf = 1 mod P |
| DhmBlinding.BlindsFresh | mbedtls-3.1.0/library/dhm.c:412-425 | the fresh pair satisfies the identity |
| DhmBlinding.Transparent | mbedtls-3.1.0/library/dhm.c:458-469 | blinding, exponentiating and unblinding with a pair that blinds gives GY^X mod P |
| DhmBlinding.RandomBelow | mbedtls-3.1.0/library/dhm.c:194-204 | the draw in [2, P - 2], an error for small P with the target intact, or an error that leaves any junk in it |
| DhmBlinding.Context.UpdateBlinding | mbedtls-3.1.0/library/dhm.c:372-431 | for every outcome of draws, inversion and exponentiation, exactly what pX, Vi and Vf then hold, failures included |
| DhmBlinding.Context.CalcSecret | mbedtls-3.1.0/library/dhm.c:436-483 | in any state of the pair: exactly which outcome occurs, what the state then is, and the secret as GY^X times the factor of the pair used |
| DhmBlinding.Context.CalcSecretBytes | mbedtls-3.1.0/library/dhm.c:436-483 | the same with the output as the shortest big-endian form of the secret, and untouched on failure |
| DhmBlinding.SecretExact | mbedtls-3.1.0/library/dhm.c:372-469 | a successful call gives GY^X mod P if X is new or Vi is 1, and otherwise GY^X * (Vi^X * Vf)^2 mod P for the pair it found |
| DhmBlinding.WrongFactorShows | mbedtls-3.1.0/library/dhm.c:458-469 | for an invertible GY that is right if and only if the squared factor is 1 |
| DhmBlinding.RunSecrets | mbedtls-3.1.0/library/dhm.c:372-483 | over every run, going on after failures: a success whose exponent changed at some call since the last failure is GY^X mod P, and every success is GY^X times the exact factor |
| DhmBlinding.RememberedIsPx | mbedtls-3.1.0/library/dhm.c:383-387 | the remembered exponent is the last one whose peer value was in range, whatever failed |
| DhmBlinding.Session | mbedtls-3.1.0/library/dhm.c:372-483 | any calls on a context, failures included, are such a run, and its clean successes deliver GY^X mod P |
| DhmBlinding.ZeroExponent | mbedtls-3.1.0/library/dhm.c:383-390 | on a fresh context exponent zero succeeds with secret 0 instead of 1 |
| DhmBlinding.SpoiltSecret | mbedtls-3.1.0/library/dhm.c:397-418 | witness: after a failed first or second draw the third call succeeds with secret 0 or 5 instead of 3 |
| Jenkins.MixReversible | src/jenkins_hash.c:81-89 | the six rounds of mix are undone by an explicit inverse in both orders: a bijection on three words |
| JenkinsWords.MixIsWords | src/jenkins_hash.c:81-89 | the lines of the macro on 32-bit machine words compute the same numbers |
| JenkinsWords.FinalIsWords | src/jenkins_hash.c:115-124 | so do those of the final macro |
| JenkinsWords.EmptyKey | src/jenkins_hash.c:128-137 | the empty key hashes to 0xdeadbeef |
| JenkinsWords.FourScore | src/jenkins_hash.c:128-182 | the published value 0x17770551 of a text of 30 bytes |
| Jenkins.HashByWords | src/jenkins_hash.c:139-182 | the 32-bit path, with its masked reads past the key, is the specified function of the key bytes only |
| Jenkins.HashByHalves | src/jenkins_hash.c:207-252 | so is the 16-bit path |
| Jenkins.HashByBytes | src/jenkins_hash.c:254-294 | so is the byte path |
| Jenkins.JenkinsHash | src/jenkins_hash.c:128-299 | equal bytes hash alike at every address and whatever follows them |
| Store.AllocStep | src/slabs.c:106-129 | taking the free list's head keeps every list, the index and the contents |
| Store.FreeStep | src/slabs.c:131-141 | returning a chunk keeps every list, the index and the contents |
| Store.UnlinkStep | src/cache.c:55-77 | the writes to the neighbours' links remove exactly one key from the map and one chunk from its chain |
| Store.LinkStep | src/cache.c:110-113 | the link writes at the head add exactly one key to the map and one chunk to its chain |
| Store.ChunkConservation | src/slabs.c:13-158 | free list and chains have no repetition, are pairwise disjoint and together are exactly the carved chunks |
| Store.BucketKeys | src/cache.c:28-37 | every item sits in its key's bucket, is indexed, and is the only one there with its key |
| Store.SizeExact | src/cache.h:18-20 | an item is within the chunk size exactly when some 64-byte chunk can hold its key and value |
| Store.Cache.constructor | src/slabs.c:81-104 | initialisation ends in a valid state with an empty map and every chunk free |
| Store.Cache.SlabsClsid | src/slabs.c:68-78 | the smallest class that holds the size; 2^32-1 exactly for zero and oversized requests |
| Store.Cache.SlabsAlloc | src/slabs.c:106-129 | fails exactly when the size is not of the 64-byte class or no chunk is free, and then changes nothing |
| Store.Cache.SlabsFree | src/slabs.c:131-141 | the chunk becomes the head of the free list; the map is untouched |
| Store.Cache.SlabsMemoryUsed | src/slabs.c:143-158 | 64 times the number of live keys |
| Store.Cache.ItemGet | src/cache.c:28-37 | finds the key's item exactly when the map binds it |
| Store.Cache.ItemUnlink | src/cache.c:55-77 | removes the key from the map, and returns its chunk exactly when it was bound |
| Store.Cache.ItemAlloc | src/cache.c:40-53 | a filled chunk, or nothing exactly when the item does not fit or no chunk is free |
| Store.Cache.CacheGet | src/cache.c:80-94 | -1 exactly for an absent key, else the value cut to maxnval-1 bytes and terminated, nothing beyond |
| Store.Cache.CacheSet | src/cache.c:96-116 | 0 exactly when key and value have at most 30 bytes together and the key is bound or fewer than 524288 are; the key is then bound to the value, otherwise removed; other keys untouched |
| Store.Session | src/cache.c:80-116 | every run from initialisation answers as a bounded finite map, and memory used is 64 bytes per live key |
| Store.ReadsLatest | src/cache.c:80-116 | while a run names at most 524288 keys, each key reads as its latest fitting write, or absent |
| Lru.SetIsRecency | tracing/tlbcache.c:224-249 | after any tags a set is the recency list cut or padded with zeros to the ways |
| Lru.StackDistance | tracing/tlbcache.c:224-249 | the tags in front of a tag are exactly the distinct tags used since its last use |
| Lru.HitExact | tracing/tlbcache.c:230-248 | a tag is present if and only if fewer than assoc distinct tags came since its last use, or it is a never-used zero tag taken for padding |
| Lru.TrueLruIff | tracing/tlbcache.c:230-248 | true LRU on an access if and only if it is not the first use of tag zero with unused ways left |
| Lru.Inclusion | tracing/tlbcache.c:224-249 | a set with fewer ways is a prefix of one with more, for every trace |
| Lru.MoreWaysFewerMisses | tracing/tlbcache.c:251-269 | over whole traces more ways in the same sets never miss more |
| Lru.LevelIsLru | tracing/tlbcache.c:224-249 | the same exact condition for addresses and whole traces across all sets |
| Lru.SplitExact | tracing/tlbcache.c:225-226 | set and tag together determine the address |
| Lru.ValLog2 | tracing/util.h:9-17 | the power of two factor with an odd cofactor |
| Lru.LogOfPower | tracing/util.h:9-17 | on a power of two the count is its exponent |
| Lru.AccessSet | tracing/tlbcache.c:229-248 | the in-place scan and rotation are the move-to-front step; zero is returned exactly on a hit, otherwise the evicted tag, or 1 for a tag of 0; no other set changes |
| Lru.Level.Access | tracing/tlbcache.c:224-249 | keeps every set equal to what its tags make of it, and reports hits exactly |
| Lru.CycleHelper | tracing/tlbcache.c:251-269 | the second level sees exactly the first level's misses in order, and each counter grows by its own misses outside warm-up |
| Lru.SpanExact | tracing/tlbcache.c:303-306 | the lines or pages counted are exactly those the accessed bytes touch |
| Lru.MixCollision | tracing/util.h:20-32 | two tagged pages collide if and only if they are the same page and space, the same kernel page, or a user page of space 0xffff and the kernel page with its low bits |
| Walk.PageAccepted | tracing/util.h:20-32 | the assertion on the top bits holds exactly for addresses of 60 significant bits |
| Walk.SharedUnits | tracing/tlbcache.c:298-306 | two addresses share a line exactly when they agree from bit 6 up, and a page from bit 12 up |
| Walk.EntryExact | tracing/tlbcache.c:298-301 | two 48-bit addresses share a TLB entry if and only if they lie in the same page of the same space, or in the same kernel page |
| Walk.EntryClash | tracing/util.h:20-32 | beyond 48 bits a user page of space 0xffff does share an entry with a kernel page |
| Walk.WalkExact | tracing/tlbcache.c:298-301 | counting up from the signed, mixed page number visits exactly the entries of the accessed bytes |
| Walk.Levels.Access | tracing/tlbcache.c:251-269 | one walk on the side its kind selects: new traces and counters of all three levels, as a function of the old |
| Walk.Machine.constructor | tracing/tlbcache.c:94-148 | six empty levels of the configured sizes |
| Walk.Machine.CycleAccess | tracing/tlbcache.c:271-309 | entries go to the TLBs and lines to the caches of the access's kind; instruction counters; nothing when disabled |
| Walk.AdvanceCounted | tracing/tlbcache.c:251-269 | outside warm-up every step keeps each counter equal to its level's misses over the whole trace, and second levels asked once per miss |
| Walk.Simulate | tracing/tlbcache.c:271-309 | after any accesses of a newly enabled machine the first levels have seen exactly the entries and lines of their kind in order, and all six counters are exact |
| CcmSpec.AbsorbIsCbcMac | mbedtls-3.1.0/library/ccm.c:304-328 | byte-wise absorption with a closing encipherment is CBC-MAC of the zero-padded string |
| CcmSpec.FlagsStandard | mbedtls-3.1.0/library/ccm.c:180-182 | the flags byte is the one of section A.2.1 of NIST SP 800-38C |
| CcmSpec.TagIsStandard | mbedtls-3.1.0/library/ccm.c:141-483 | the tag is the standard's MAC of the formatted input, masked with counter block zero |
| CcmSpec.CountersDistinct | mbedtls-3.1.0/library/ccm.c:430-435 | counter blocks and block zero are distinct if and only if the block count is below 256^q |
| CcmSpec.TaggedCountersDistinct | mbedtls-3.1.0/library/ccm.c:184-191 | with a tag the length check makes them distinct for every message |
| CcmSpec.DecryptUndoesEncrypt | mbedtls-3.1.0/library/ccm.c:488-582 | the ciphertext streams back to the plaintext and the tag recomputed from it is equal |
| CcmFormat.FirstBlockBytes | mbedtls-3.1.0/library/ccm.c:168-191 | with a tag, byte 0 of the first block is 64 for associated data plus 8*((t-2)/2) plus q-1, then come the nonce and the message length in q bytes |
| CcmFormat.FirstByteNoTag | mbedtls-3.1.0/library/ccm.c:180-182 | without a tag it is 0xf8 plus q-1 |
| CcmFormat.FirstFromByte | mbedtls-3.1.0/library/ccm.c:180-191 | on a y that is not clear those bits are ored into y[0] and the length is written over the end |
| CcmFormat.AcceptedSettings | mbedtls-3.1.0/library/ccm.c:155-191 | what is accepted, in numbers: nonces of 7 to 13 bytes, associated data below 65280, tags of 4, 6, ..., 16 bytes with a length that fits, or no tag in CCM* |
| CcmFormat.CtrBlockBytes | mbedtls-3.1.0/library/ccm.c:213-226 | a counter block is q-1, the nonce and the counter in q bytes |
| CcmFormat.StreamByte | mbedtls-3.1.0/library/ccm.c:110-133 | byte i of block j of the message meets byte i of the enciphered counter block j+1 |
| CcmFormat.AdBlocksBytes | mbedtls-3.1.0/library/ccm.c:290-328 | the associated data stands behind its length in two bytes and is filled with zeros |
| CcmFormat.FirstNotCounter | mbedtls-3.1.0/library/ccm.c:168-226 | no first block is a counter block |
| CcmFormat.PrefixFree | mbedtls-3.1.0/library/ccm.c:141-338 | a formatted input that begins another has the same parameters, associated data and message |
| CcmStale.StaleExact | mbedtls-3.1.0/library/ccm.c:141-265 | whatever earlier operations left behind, an acceptable operation is accepted and makes the standard's tag under every cipher if and only if there is no old error or finished data, and with a tag no old lengths, no foreign bit in y[0] and no started data |
| CcmStale.ClearIsHarmless | mbedtls-3.1.0/library/ccm.c:141-265 | a clear context meets that condition for every operation |
| Ccm.Context.FirstBlockIfReady | mbedtls-3.1.0/library/ccm.c:141-201 | in any state: accepts exactly the settings that fit together, and enciphers the first block formed in what y holds |
| Ccm.Context.Starts | mbedtls-3.1.0/library/ccm.c:203-238 | in any state: accepts exactly nonces of 7 to 13 bytes and, with lengths known, settings that fit |
| Ccm.Context.SetLengths | mbedtls-3.1.0/library/ccm.c:240-265 | in any state: accepts exactly the documented lengths and, once started, settings that fit |
| CcmRaw.AdRoundsMac | mbedtls-3.1.0/library/ccm.c:304-328 | within the declared length the rounds on y are the MAC over the associated data, closed at its end |
| CcmRaw.MsgRoundsMac | mbedtls-3.1.0/library/ccm.c:367-440 | within the declared length the rounds on y and ctr are MAC and counter of the message, and put out the key-stream image |
| Ccm.Context.UpdateAd | mbedtls-3.1.0/library/ccm.c:267-338 | in any state: refused exactly on an error, after finished data or beyond the declared length, with nothing changed, else the rounds on y; in its phase any split keeps the MAC state of what was fed |
| Ccm.Context.Update | mbedtls-3.1.0/library/ccm.c:340-446 | in any state: refused exactly on an error, beyond the declared length or without room, with nothing changed, else the rounds on y and ctr; in its phase any split keeps MAC state and counter and outputs exactly the key-stream image |
| Ccm.Context.Finish | mbedtls-3.1.0/library/ccm.c:448-483 | in any state: each refusal exactly in its case with nothing changed, else the masked y and a clear state; in its phase that is the tag of what was fed |
| Ccm.Context.AuthCrypt | mbedtls-3.1.0/library/ccm.c:488-514 | in any state: fails exactly on unacceptable settings or when old state refuses, else the key-stream image and the tag from where the old state lets it start; a stuck context stays stuck |
| Ccm.Context.MultiPart | mbedtls-3.1.0/library/ccm.c:203-483 | any split of the data and either order of setup gives the standard's output and tag |
| Ccm.Context.AuthDecrypt | mbedtls-3.1.0/library/ccm.c:559-582 | in any state: succeeds exactly when the tag matches, returning the plaintext, else zeros |
| Ccm.OneShot | mbedtls-3.1.0/library/ccm.c:488-540 | a one-shot call on a context whose left-behind state is harmless to it succeeds exactly on acceptable settings, with the standard's output and tag |
| Ccm.Judge | mbedtls-3.1.0/library/ccm.c:559-604 | auth_decrypt on such a context accepts exactly the standard's tag and returns the plaintext, else zeros |
| Ccm.Deliver | mbedtls-3.1.0/library/ccm.c:519-604 | auth_decrypt accepts every output of encrypt_and_tag and returns the message, and answers every other tag with an error and zeros; CCM and CCM*, on two contexts or one, with any harmless past |
| Ccm.PartsAgree | mbedtls-3.1.0/library/ccm.c:203-514 | data in any parts and setup order, and the one-shot call: the same answer, output and tag, in all four modes |
| Ccm.CompareTags | mbedtls-3.1.0/library/ccm.c:542-557 | the accumulated difference is zero exactly for equal tags |
| Ccm.Exchange | mbedtls-3.1.0/library/ccm.c:203-483 | sender and receiver each cut the data and order the setup in their own way, CCM* included: the message and the tag come back |
| Ccm.RefusedForever | mbedtls-3.1.0/library/ccm.c:155-166 | witness: one refused call without a tag makes the context refuse every later CCM call, acceptable or not |
| Xts.Gf128IsAlpha | mbedtls-3.1.0/library/aes.c:1094-1107 | the two-word update is the byte-wise multiplication of section 5.2 of IEEE Std 1619-2007 |
| Gf128.AlphaValue | mbedtls-3.1.0/library/aes.c:1094-1107 | the update doubles the 128-bit value, and on overflow xors x^128 + x^7 + x^2 + x + 1 |
| Gf128.TweakIsPower | mbedtls-3.1.0/library/aes.c:1147-1177 | tweak n is the first tweak times x^n modulo that polynomial, by carry-less products |
| Gf128.ReducedUnique | mbedtls-3.1.0/library/aes.c:1094-1107 | a residue below x^128 is unique |
| Xts.UnitBlock | mbedtls-3.1.0/library/aes.c:1147-1177 | block j of a data unit is its input masked with tweak j, ciphered and masked again |
| Xts.UnitStolen | mbedtls-3.1.0/library/aes.c:1147-1213 | what stands in the last whole block and behind it, from the two last tweaks, in both directions |
| Xts.DecryptUndoesEncrypt | mbedtls-3.1.0/library/aes.c:1112-1216 | decryption undoes encryption for every data unit of at least a block, stealing and swapped tweaks included |
| Xts.Context.CryptXts | mbedtls-3.1.0/library/aes.c:1112-1216 | lengths from one block to 2^20 blocks only; the output is the standard's data unit and nothing else is written |
| Xts.RoundTrip | mbedtls-3.1.0/library/aes.c:1112-1216 | encrypting and then decrypting returns every data unit of an accepted length |
| Xts.CryptBlocks | mbedtls-3.1.0/library/aes.c:1147-1177 | the block loop applies tweak j to block j, and skips one tweak before the last block of a decryption with leftover |
| Xts.Steal | mbedtls-3.1.0/library/aes.c:1179-1213 | the previous block's head moves behind it and its tail joins the leftover input |
| Padding.GetPkcs | mbedtls-3.1.0/library/cipher.c:782-805 | for every block size up to 255 accepts exactly the blocks that end in PKCS7 padding, with their data length |
| Padding.GetOneAndZeros | mbedtls-3.1.0/library/cipher.c:823-844 | accepts exactly the blocks that end in 80 00 ... 00, with their data length |
| Padding.GetZerosAndLen | mbedtls-3.1.0/library/cipher.c:862-884 | accepts exactly the blocks that end in 00 ... 00 length, with their data length |
| Padding.GetZeros | mbedtls-3.1.0/library/cipher.c:900-918 | cuts exactly the trailing zeros |
| Padding.AddPadding | mbedtls-3.1.0/library/cipher.c:772-898 | data bytes kept, the rest filled by the chosen scheme |
| Padding.FillExamples | mbedtls-3.1.0/library/cipher.c:772-898 | the fill of three data bytes in a block of eight, written out for each scheme |
| Padding.FillUnique | mbedtls-3.1.0/library/cipher.c:772-884 | in the three self-delimiting schemes a block has at most one data length |
| Padding.ReadsBack | mbedtls-3.1.0/library/cipher.c:772-918 | reading back the padding gives the data length: always for those schemes, and for zero filling if and only if the data is empty or ends in a nonzero byte |
| Cbc.EncryptedBlock | mbedtls-3.1.0/library/aes.c:1058-1075 | block i is the cipher of its plaintext xored with ciphertext block i-1, or with the initial value |
| Cbc.DecryptedBlock | mbedtls-3.1.0/library/aes.c:1039-1057 | block i of a decryption is deciphered and xored with ciphertext block i-1, or with the initial value |
| Cbc.IvChange | mbedtls-3.1.0/library/aes.c:1039-1057 | xoring d into the initial value of a decryption xors d into the first block and changes no other |
| Cbc.ChainInverse | mbedtls-3.1.0/library/aes.c:1006-1079 | CBC decryption undoes CBC encryption |
| Cbc.ChainConcat | mbedtls-3.1.0/library/aes.c:1006-1079 | CBC of a concatenation is CBC of the parts with the chaining value carried over |
| Cbc.CryptCbc | mbedtls-3.1.0/library/aes.c:1006-1079 | whole blocks in place of the output and the chaining value updated; other lengths refused |
| Cbc.Context.Update | mbedtls-3.1.0/library/cipher.c:592-678 | after any input the emitted bytes are CBC of a prefix fixed by the total length alone, and nothing behind them is written; a padded decryption holds back up to a block |
| Cbc.Context.Finish | mbedtls-3.1.0/library/cipher.c:939-1032 | completes the one-shot result, and reports a missing block or bad padding exactly |
| Cbc.EncryptParts | mbedtls-3.1.0/library/cipher.c:592-678 | any division of the message gives the one-shot CBC of the padded message |
| Cbc.DecryptParts | mbedtls-3.1.0/library/cipher.c:592-678 | any other division of the ciphertext returns the message, for zero filling if and only if it ends on a block boundary or in a nonzero byte |
| Der.WriteLen | mbedtls-3.1.0/library/asn1write.c:37-99 | the shortest length octets, written backwards; too small a buffer and lengths from 2^32 are refused exactly |
| Der.LenShortest | mbedtls-3.1.0/library/asn1write.c:37-99 | no other length octets for a length are shorter |
| Der.ContentShortest | mbedtls-3.1.0/library/asn1write.c:127-256 | the contents of nonnegative ints and positive numbers are two's complement forms with a clear top bit, and no other is shorter |
| Der.Octets | mbedtls-3.1.0/library/asn1write.c:37-256 | identifier, length and integer octets, written out |
| Der.BitOctets | mbedtls-3.1.0/library/asn1write.c:344-375 | bit string contents, written out |
| Der.WriteTaggedInt | mbedtls-3.1.0/library/asn1write.c:229-256 | for every int the shortest element of its value, or of its lowest byte when it is negative; an error exactly when that does not fit, touching nothing outside the room |
| Der.WriteMpi | mbedtls-3.1.0/library/asn1write.c:127-161 | the element of the magnitude, or an error exactly when it does not fit; for zero the content is empty, or a zero when the byte after the cursor has its top bit set |
| Der.WriteBitstring | mbedtls-3.1.0/library/asn1write.c:344-375 | the bit string element with unused bits cleared, or an error exactly when it does not fit |
| Der.WriteNamedBitstring | mbedtls-3.1.0/library/asn1write.c:301-342 | the same after leaving out exactly the trailing zero bits |
| Der.TrimBits | mbedtls-3.1.0/library/asn1write.c:311-339 | the shifting scan finds the last set bit |
| Der.TrimmedMeaning | mbedtls-3.1.0/library/asn1write.c:301-339 | the trimmed length ends in a set bit and everything behind it is zero |
| Der.GetLen | mbedtls-3.1.0/library/asn1parse.c:45-101 | accepts exactly length octets whose content is present |
| Der.GetTag | mbedtls-3.1.0/library/asn1parse.c:103-116 | accepts exactly elements of the tag; otherwise the error is that of the tag, the length octets or the missing data |
| Der.GetTaggedInt | mbedtls-3.1.0/library/asn1parse.c:137-179 | accepts exactly nonempty nonnegative contents below 2^31 and returns their value; each refusal has its error |
| Der.GetMpi | mbedtls-3.1.0/library/asn1parse.c:196-211 | returns the unsigned value of the content with the cursor after it, or the error of the missing element |
| Der.GetBitstring | mbedtls-3.1.0/library/asn1parse.c:214-242 | accepts exactly elements that end the input with at most seven unused bits; each refusal has its error |
| Der.Traverse | mbedtls-3.1.0/library/asn1parse.c:248-294 | on every byte string and for every callback it succeeds exactly when the input is a sequence whose tags all pass and whose matching elements the callback accepts, and has then visited exactly those in order |
| Der.WriteRaw | mbedtls-3.1.0/library/asn1write.c:111-125 | the bytes in front of the cursor, or an error exactly when they do not fit |
| Der.WriteSequence | mbedtls-3.1.0/library/asn1write.c:37-125 | a sequence composed backwards from the writers is the nested encoding of its elements, or an error exactly when that does not fit |
| Der.WrittenSequence | mbedtls-3.1.0/library/asn1parse.c:248-294 | a written sequence is a sequence of what was written |
| Der.SequenceUnique | mbedtls-3.1.0/library/asn1parse.c:248-294 | a byte string is a sequence of at most one list of elements |
| Der.SequenceRoundTrip | mbedtls-3.1.0/library/asn1parse.c:248-294 | traversing a written sequence succeeds exactly when its tags pass and the callback accepts the matching elements, and then visits exactly those in order |
| Der.IntRoundTrip | mbedtls-3.1.0/library/asn1write.c:229-256 | every int that fits the buffer is accepted by the parser to the end, as itself if and only if it is nonnegative, else as its value modulo 256 |
| Der.NegativeInts | mbedtls-3.1.0/library/asn1write.c:229-256 | witness: -1 and -200 are read back as 255 and 56 |
| Der.MpiRoundTrip | mbedtls-3.1.0/library/asn1write.c:127-161 | every number comes back as its magnitude, so unchanged if and only if it is nonnegative, whatever byte follows |
| Der.BitstringRoundTrip | mbedtls-3.1.0/library/asn1write.c:301-375 | bit strings come back bit for bit; named ones lose only trailing zero bits |
| Bits.BitwiseBits | mbedtls-3.1.0/library/constant_time.c:164-173 | every bit of and, or and exclusive or comes from the same bit of the operands |
| Base64.MaskMeaning | mbedtls-3.1.0/library/constant_time.c:164-173 | the branch-free mask is 0xff exactly inside the range |
| Base64.AlphabetIs | mbedtls-3.1.0/library/constant_time.c:330-340 | the alphabet is that of the standard, written out |
| Base64.Vectors | mbedtls-3.1.0/library/base64.c:44-109 | test vectors of RFC 4648 |
| Base64.Marks | mbedtls-3.1.0/library/base64.c:125-167 | the marks written out, a refused blank and a skipped line break |
| Base64.DigitsInverse | mbedtls-3.1.0/library/constant_time.c:330-359 | the two digit conversions are inverse, and all other characters are refused |
| Base64.Encode | mbedtls-3.1.0/library/base64.c:44-109 | writes the encoding and a terminator, or reports the size needed, exactly |
| Base64.Scan | mbedtls-3.1.0/library/base64.c:125-167 | accepts exactly well placed blanks around digits and at most two equals signs, and counts them |
| Base64.OutSize | mbedtls-3.1.0/library/base64.c:175-207 | the second pass writes the computed size less the bytes of an incomplete last group, never more |
| Base64.Decode | mbedtls-3.1.0/library/base64.c:114-212 | the three results exactly in their cases; the bytes of the complete groups, within the computed size |
| Base64.DecodeEncode | mbedtls-3.1.0/library/base64.c:44-212 | an encoded text is accepted, needs exactly the original size, and decodes to the original |
| Base64.RoundTrip | mbedtls-3.1.0/library/base64.c:44-212 | decoding what was encoded returns every byte string |

## Left out

- Allocation failure and the limit on limbs per number: the model describes the success path of memory allocation.
- Assembly and unrolled forms of MULADDC: only the two portable steps are modelled, applied one limb at a time.
- Timing, zeroization and constant-flow properties: only results are modelled; sign selection and equality masks in the conditional copies appear as comparisons.
- Some bit tests, shifts and joins of disjoint bit fields appear as division, remainder and addition.
- Prime generation, Miller-Rabin and random number generation: random draws of the blinding are parameters.
- Montgomery.Montmul: the scratch number T is wide enough and N has at least one limb, as its caller ensures.
- MpiDiv.ModMpi: R differs from the modulus, since the source's loop does not end otherwise (`MpiDiv.SpinningMod`).
- MpiDiv.IntDivIntHalf: when the divisor is already normalised the source shifts a limb by its full width and masks the result away; the model takes the masked result.
- ExpMod.ExpModMpi: a cache handed in for another modulus is excluded, as the source's callers must.
- DhmBlinding.Context.CalcSecret: P is above 1, and the draws are parameters: a number in range, or a failure with any value left in the target.
- Ccm.Context.Finish: at most 16 bytes of tag are asked for, since the source would read past y.
- Ccm, Xts and Cbc read their input as a value, so in-place operation with input and output in one buffer is not captured; failure of the block cipher is not modelled.
- Cbc.Context.Update: block size 16 only; the other modes of the cipher layer, its dispatch and its PSA branches are not modelled.
- Store: one size class is ever filled, as in the source, and sizeof(item) is 32; pointers are chunk numbers, so address arithmetic and mmap are not modelled, nor is dump_cache.
- Store.Cache.CacheGet: the destination holds maxnval bytes and maxnval is at least 1, since the source would copy a negative length otherwise.
- Lru.CycleHelper: the inclusive variant and evict are not modelled (the configuration never uses them), and walks stay below 2^32, where the source's counter would not end.
- Der.WriteMpi: for zero the byte after the cursor must exist, since the source reads it.
- MpiBytes.BigendianToHost: memory is that of a little-endian machine, and the byte-swap builtins appear as the portable loop.
- Der.Traverse: a callback is its return codes, as a function of all elements it has been given.
- Padding.AddPadding: block sizes above 255 are excluded, where the source's byte counters would not end.
- Base64.Decode: the destination pointer is not null.
- AES, ARIA, Camellia and DES themselves, the other cipher modes, ECDH, drivers, trace parsing and printing.
