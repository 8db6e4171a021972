# Quipu: a Dafny model of its self-contained cores

Quipu hides and protects secrets. This project models the parts of it whose correctness is an argument of their own,
and proves what the code and its documentation promise of them:

- **Secret sharing** (`Gf256`, `GfReference`, `GfInt`, `Interpolation`, `Shamir`, `ShamirTheorems`, `ShamirMixtures`). The branch-free
  loops over bytes are the field GF(2^8) of section 4.2 of FIPS 197, and no other product is; interpolation at 0 works for any
  number of points; any k shares give the secret back; the bytes of any k-1 shares dealt leave every candidate secret with exactly
  one choice of coefficients; an altered share never gives the original secret; what shares of different splits give.
- **The QST1 stream** (`Aead`, `StreamFormat`, `Stream`, `StreamTheorems`, `StreamLayout`). Both loops, over a reader that interrupts,
  delivers short and may fail, and a writer that may run out of room. Decryption undoes encryption under the passphrase and pepper it
  was made with and under no others, and of all byte strings it accepts whole genuine containers only, writing nothing but a
  beginning of one run's data on the way; what is written of a container that was cut, at every place.
- **The container with deniability** (`NegacionSpec`, `Negacion`, `NegacionTheorems`, `NegacionApertura`, `NegacionColision`,
  `NegacionLayout`). Creation with and without a hidden volume on one random tape; the operations an observer could count; who opens
  what, for every passphrase, profile and byte string, with a profile in hand or trying a list.
- **Padmé** (`Padme`, `PadmeBits`). Least multiple of the granule, overhead under an eighth, how many sizes an octave shows,
  and the frame that undoes itself.
- **The rate limiter** (`Netlimit`, `NetlimitRuns`). Eviction changes no answer along any run; when a query is refused, from the
  queries and answers before it alone; other addresses do not matter while there is room; how many admissions an interval can see,
  and when that is the quota.
- **Smaller cores**: the health test and bounded retry of the random source (`Aleatorio`), SplitMix64 (`SplitMix`),
  the paper carriers with their Base32 (`Base32`, `Lienzo`, `Matriz`, `Texto`, `PapelLayout`), honey encryption (`Honey`, `HoneyKeys`),
  the hash-chained corpus (`Corpus`).

`Results`, `Bytes`, `Utf8`, `Arithmetic` and `Residues` (how many numbers leave each remainder) hold what these share.
`dafny verify dfyconfig.toml` checks everything.

## How it is modelled

- Loops, buffers and objects of the source are methods, arrays and classes here, each proved against a function of its inputs or
  of the old state; the theorems are about those functions.
- Argon2id and HKDF are free constructors of a datatype: keys are equal only if everything they were derived from is. The
  passphrase is the bytes after NFKC, or `norm` of a string where normalisation matters; the pepper is appended
  without a separator, as `src/kdf.rs` does, so pairs that concatenate alike share a key in the model too.
- The AEAD is a box with a log. Opening succeeds exactly on a logged key, nonce, associated data and ciphertext; a
  ciphertext is sixteen bytes longer than its plaintext. `Aead.SealExists` shows that such a box exists.
- SHA-256 is any function: of Shamir's tag nothing is assumed beyond its eight bytes, and for the corpus a forgery exhibits two messages
  that the function confuses.
- Randomness is a parameter: for `aleatorio` and `negacion` the list of answers the system's source will give,
  elsewhere the bytes drawn.
- `usize` has 64 bits. Quantities that a caller could only make overflow with inputs near 2^64 carry a precondition.

## Where the code and its documentation part

- `src/shamir.rs` promises that k-1 shares reveal nothing. The health test of `src/aleatorio.rs` refuses coefficients with eight equal
  bytes in a row, so the promise holds in full exactly for k up to 8 (`ShamirTheorems.SecrecyExactly`); from k = 9 on, k-1 shares
  that all equal b rule out the byte b (`ShamirTheorems.AllEqualSharesRuleOut`). `split` maps coefficients to shares one to one for every k.
- `src/honey.rs` encrypts under any parameters, but `decrypt` accepts only those that `is_sane` does:
  the round trip holds if and only if they are (`Honey.DecryptInverts`).
- `src/shamir.rs` calls the tag a detector of shares from different splits, since what they give would not be the payload. It is the payload of
  a split exactly if the weighted differences from its own shares cancel out at every byte (`ShamirMixtures.CombineGivesExactly`,
  `ShamirMixtures.MixedSplits`); with one foreign share, exactly if that share is the genuine one (`ShamirMixtures.OneForeignShare`). No choice
  of threshold and secret rules it out: for every split and every other secret of its length some coefficients give a common share
  (`ShamirMixtures.SplitsCanShare`).
- `src/negacion.rs` discards a random passphrase, 64 hexadecimal digits, when there is no hidden volume. The decoy of an order that creates
  something opens on every tape if and only if there is a hidden volume, or the decoy's passphrase does not normalise like the digits of any
  32 bytes that pass the health test (`NegacionColision.DecoyIsSafeExactly`). If it does, on some tape the discarded volume opens instead,
  whatever the size, the decoy and the profile (`NegacionColision.DecoyFails`): the background has to equal the discarded ciphertext
  (`NegacionTheorems.DecoyOpensExactly`).
- `src/lab/corpus.rs` separates kind and data with a zero byte. A zero byte in a kind, or in data after bytes that are UTF-8, gives a
  second reading with the same hash (`Corpus.ZeroIsAmbiguous`); altering records goes unseen, whatever the hash, if and only if there is
  one (`Corpus.CommittedExactly`, `Corpus.PoisoningIsSeen`). And `verify` alone does not notice missing last entries
  (`Corpus.TruncationVerifies`).
- `src/netlimit.rs` calls its window sliding; it is a window that each address opens anew. No interval of a window's length sees more than
  the quota if and only if the quota is at most one or the window zero (`Netlimit.SlidesExactly`). Otherwise two quotas less one is the most
  there can be, and occurs under every configuration (`Netlimit.AdmissionsAreBounded`, `Netlimit.BoundIsMet`).
- `below` of `src/lab/engine.rs` promises uniform integers; its answers are equally frequent over the period of the generator if and only if
  n divides 2^64 (`SplitMix.BelowIsUniformExactly`).
- `decrypt_pin` of `src/honey.rs` promises digits; for a container of another alphabet it gives digits under every keystream if and only
  if the alphabet has at most ten symbols (`Honey.PinIsDigitsExactly`).

## Model

| member | source | states |
|---|---|---|
| Gf256.GfMul | src/shamir.rs:145-159 | the masked loop adds, for each set bit i of one factor, the other multiplied i times by x |
| Gf256.GfInv | src/shamir.rs:163-178 | the masked square-and-multiply loop is the power 254 |
| Gf256.MulAssoc | src/shamir.rs:145-159 | the product is associative |
| Gf256.MulComm | src/shamir.rs:145-159 | the product is commutative |
| Gf256.MulDistributes | src/shamir.rs:145-159 | it distributes over XOR on both sides |
| Gf256.MulOne | src/shamir.rs:145-159 | 1 is its identity |
| Gf256.NoZeroDivisors | src/shamir.rs:145-159 | a product is zero only if a factor is |
| Gf256.InverseLaw | src/shamir.rs:161-178 | a byte other than zero times its computed inverse is 1 |
| Gf256.InvZero | src/shamir.rs:161-162 | the inverse of zero is computed as zero |
| GfReference.MulIsProduct | src/shamir.rs:144-159 | the loop has 1 for identity, distributes, and commutes with `xtime` of section 4.2.1 of FIPS 197 |
| GfReference.ProductIsMul | src/shamir.rs:144-159 | any operation with those three properties is the loop, on all bytes |
| GfReference.XtimeIs | src/shamir.rs:152-155 | the branch-free doubling shifts, and subtracts the polynomial 0x11b exactly on overflow |
| Interpolation.InterpolationAtZero | src/shamir.rs:367-391 | the Lagrange sum at 0 over any distinct points recovers the value at 0 of any polynomial with as many coefficients |
| Interpolation.LambdasSumToOne | src/shamir.rs:367-382 | the weights of the interpolation at 0 add up to 1 |
| Interpolation.ThroughEvals | src/shamir.rs:311-327 | some polynomial passes through any values at distinct points |
| Interpolation.EvalsThrough | src/shamir.rs:311-327 | and it is the only one of its length |
| Shamir.Split | src/shamir.rs:287-331 | each error exactly when the source gives it; otherwise share j is, byte by byte, the polynomial with the payload byte and then all k-1 coefficients, at j |
| Shamir.Horner | src/shamir.rs:319-325 | the loop from the highest degree down evaluates the polynomial |
| Shamir.Combine | src/shamir.rs:337-406 | each error exactly when the source gives it; otherwise the interpolation at 0 of every byte, split into secret and tag |
| ShamirTheorems.CombineAnswers | src/shamir.rs:337-406 | every answer in its order: too few, differing in threshold, length or by a repeated or zero index, a tag that does not match, the secret |
| Shamir.SameSplit | src/shamir.rs:352-363 | the two checks accept exactly shares of one threshold and length with distinct indices other than zero |
| Shamir.Lambdas | src/shamir.rs:369-382 | the weights are the products of the other indices over the products of the differences |
| Shamir.Weighted | src/shamir.rs:385-391 | the inner loop is the interpolation at 0 of one byte |
| ShamirTheorems.AnySharesRecover | src/shamir.rs:287-406 | whatever the coefficients, any k or more distinct shares in any order give back exactly the secret |
| ShamirTheorems.ExactlyOneExplanation | src/shamir.rs:6-9 | for any k-1 distinct indices other than zero, any share bytes and any candidate byte, exactly one choice of coefficients explains them |
| ShamirTheorems.EverySecretOnce | src/shamir.rs:6-9 | so for every secret of that length with its tag, exactly one choice of all coefficients leads to the shares seen |
| ShamirTheorems.DealtSharesExplained | src/shamir.rs:287-331 | any k-1 of the shares dealt carry given bytes if and only if the coefficients are the one choice that explains them, whatever the secret |
| ShamirTheorems.DealtSharesHide | src/shamir.rs:6-9 | for any k-1 shares dealt and any other secret of that length, exactly one choice of coefficients deals the same shares; up to k = 8 the random source can deliver it |
| ShamirTheorems.EveryCoefficientCounts | src/shamir.rs:311-327 | changing any coefficient changes what any k-1 or more of the shares carry |
| ShamirTheorems.SecrecyExactly | src/shamir.rs:6-9 | every candidate stays possible after any k-1 shares if and only if k is at most 8, given what the random source refuses |
| ShamirTheorems.AllEqualSharesRuleOut | src/shamir.rs:313-317 | from k = 9 on, k-1 shares that all equal b cannot come from the byte b |
| ShamirTheorems.LambdaNonZero | src/shamir.rs:369-382 | no weight is zero |
| ShamirTheorems.OneValueMatters | src/shamir.rs:385-391 | changing one value changes what is interpolated |
| ShamirTheorems.AlteredShareIsNoticed | src/shamir.rs:488-498 | altering the data of one share in use gives an error or another secret, never the original |
| ShamirMixtures.CombineGivesExactly | src/shamir.rs:337-406 | any shares that pass the checks give the secret of a split if and only if their weighted distances from its shares cancel out at every byte |
| ShamirMixtures.OneForeignShare | src/shamir.rs:394-397 | with one share of another origin among those used, if and only if it equals the genuine one at its index |
| ShamirMixtures.MixedSplits | src/shamir.rs:394-397 | shares of two splits give the secret of either if and only if the weighted differences at the other's indices cancel out |
| ShamirMixtures.SplitsCanShare | src/shamir.rs:311-331 | for every split and other secret of its length there are coefficients the random source can deliver that deal the same first share |
| ShamirTheorems.ShareRoundTrip | src/shamir.rs:226-261 | a byte string parses to a share if and only if the share is well formed and that is its serialization |
| ShamirTheorems.ShareLayout | src/shamir.rs:226-234 | magic, threshold, index, length and data at their offsets, the length most significant byte first |
| ShamirTheorems.SplitDealsWellFormed | src/shamir.rs:287-331 | every share dealt is one that parses back |
| GfInt.ByteRoundTrip | src/shamir.rs:226-244 | bytes and the numbers they stand for are in one-to-one correspondence |
| GfInt.ToIntIs | src/shamir.rs:226-244 | the number of a byte is its value |
| Aead.Box.Decrypt | src/cipher.rs:46-61 | opens exactly what was sealed with the same key, nonce, associated data and ciphertext |
| Aead.OpenSealed | src/cipher.rs:27-61 | what was sealed opens to its plaintext |
| Aead.SealExists | src/cipher.rs:27-43 | a box as idealised exists |
| StreamFormat.HeaderRoundTrip | src/stream.rs:99-157 | an acceptable header parses back from its 57 bytes |
| StreamFormat.ParsedHeader | src/stream.rs:123-157 | whatever parses has sane parameters and a chunk size in range |
| StreamFormat.NonceInjective | src/stream.rs:160-166 | prefix, counter and final flag can be read off the nonce |
| StreamFormat.ChunkCountIs | src/stream.rs:233-264 | the number of chunks is max(1, ceil(len / chunk)) |
| StreamFormat.ContainerLength | src/stream.rs:218-264 | a container has 57 bytes, the data, and 16 more per chunk |
| Stream.Reader.Read | src/stream.rs:184-195 | the reader the loops face: interruptions, short reads, failures, and an end that stays |
| Stream.ReadChunk | src/stream.rs:184-195 | through any interruptions and short reads, fills the buffer or reaches the end with exactly the next bytes, and terminates |
| Stream.EncryptStream | src/stream.rs:198-266 | on success wrote the header and all chunks sealed under the key of passphrase and pepper, salt, parameters and prefix, and logged those seals; every other error exactly when the source gives it |
| Stream.EncryptChunks | src/stream.rs:233-264 | a stream is read, sealed and written chunk after chunk, the last one marked |
| Stream.EncryptFrom | src/stream.rs:240-264 | from a first chunk on, the loop of two swapped buffers writes and logs all that is left, or ends in one of the two errors, truncation only past the counter |
| Stream.DecryptStream | src/stream.rs:270-340 | on any bytes, writes a prefix of what they mean, all of it on success, and fails as they say or because of reader or writer |
| Stream.DecryptBlocks | src/stream.rs:294-338 | a body is opened and written block after block, following what it means |
| Stream.DecryptFrom | src/stream.rs:300-338 | from a first block on, the loop of two swapped buffers does so |
| StreamTheorems.ContainerOpens | src/stream.rs:270-340 | a container opens to its data, whatever else was sealed |
| StreamTheorems.RoundTrip | src/stream.rs:184-340 | decrypting what was encrypted writes the data, over any reader that does not fail |
| StreamTheorems.NoNonceTwice | src/stream.rs:160-166 | a run makes one seal per chunk, no two under the same nonce |
| StreamTheorems.SealsCountUp | src/stream.rs:233-264 | the seal with a given counter is that chunk of the data, final exactly if it is the last |
| StreamTheorems.BodyIsGenuine | src/stream.rs:294-338 | under the header of a run, decryption writes a beginning of its data, and succeeds on its own body only |
| StreamTheorems.OnlyGenuineContainersOpen | src/stream.rs:270-340 | after any runs with distinct headers, those that ran out of counter included, an accepted byte string is one whole genuine container under the passphrase and pepper it was made with; whatever is written is the beginning of the data of the run with that header |
| StreamTheorems.OpensExactly | src/stream.rs:198-340 | what an encryption wrote opens to its data under passphrases and peppers that concatenate to the ones given, and under any others nothing is written and decryption fails |
| StreamTheorems.KeysInjective | src/stream.rs:169-182 | stream keys are equal exactly if passphrase and pepper concatenate alike and salt, parameters and prefix agree |
| StreamTheorems.NothingOpens | src/stream.rs:270-340 | under a header that no run drew nothing is written |
| StreamLayout.HeaderLayout | src/stream.rs:99-121 | the fields of the header at their offsets, numbers most significant byte first |
| StreamLayout.HeaderParsesExactly | src/stream.rs:123-157 | which bytes are a header and of what; the others fail at the first check they do not pass |
| StreamLayout.NonceLayout | src/stream.rs:160-166 | prefix, counter and flag at their offsets |
| StreamLayout.BlockOf | src/stream.rs:233-264 | block j lies j whole blocks into the body: chunk j sealed under its number, the header as associated data, marked exactly if it is the last |
| StreamLayout.CutContainer | src/stream.rs:268-340 | a container cut at any place never opens; only whole chunks are written, and which error ends it |
| StreamLayout.CutIs | src/stream.rs:294-338 | in numbers: j chunks are written if the cut lies at least a tag into block j, then a failed decryption or truncation |
| Padme.PaddedIsLeastMultiple | crates/padme-frame/src/lib.rs:129-139 | never shrinks; the least multiple of the granule at or above the length |
| Padme.PaddedMonotone | crates/padme-frame/src/lib.rs:129-139 | longer data never has a shorter padded length |
| Padme.PaddedIdempotent | crates/padme-frame/src/lib.rs:129-139 | padding a padded length changes nothing |
| Padme.PaddedFits | crates/padme-frame/src/lib.rs:129-139 | padding a padded length does not overflow if padding the length did not |
| Padme.FixedIffMultiple | crates/padme-frame/src/lib.rs:129-139 | the fixed points are the multiples of their granule |
| Padme.PaddedInOctave | crates/padme-frame/src/lib.rs:129-139 | a padded length stays in its octave or ends it |
| Padme.OverheadBound | crates/padme-frame/src/lib.rs:15-19 | the overhead is under an eighth of the length, hence under 13 % |
| Padme.ObservableSizes | crates/padme-frame/src/lib.rs:261-280 | the octave of 2^e has exactly 2^s fixed points, s the bit length of e, at most 2e |
| PadmeBits.PaddedLenIsMasking | crates/padme-frame/src/lib.rs:129-139 | on 64-bit words the result is the sum with the mask, and-ed with the complement of the mask |
| Padme.Pad | crates/padme-frame/src/lib.rs:145-154 | the buffer built is length, data and zeros up to the padded length |
| Padme.FrameLayout | crates/padme-frame/src/lib.rs:145-154 | the length in eight bytes, the most significant first, the data, and zeros |
| Bytes.ByteOf | crates/padme-frame/src/lib.rs:145-154 | of k big-endian bytes the one at place i counts 256^(k-1-i) |
| Padme.UnpadExactly | crates/padme-frame/src/lib.rs:164-183 | a block yields data if and only if it starts with the data's length and the data |
| Padme.UnpadAnswers | crates/padme-frame/src/lib.rs:164-183 | too short, a length beyond what there is, or the data, with the figures |
| Padme.FrameRoundTrip | crates/padme-frame/src/lib.rs:145-183 | a frame followed by anything unpads to its data |
| Padme.SameSizeSameFrameLength | crates/padme-frame/src/lib.rs:129-154 | data that fit the same padded length have frames of one length |
| NegacionSpec.TamanoCanonicoIsLeast | src/negacion.rs:149-168 | the canonical size is the least on the ladder that is large enough, under twice what was asked; fixed exactly on the ladder |
| NegacionSpec.ConRegion | src/negacion.rs:353-358 | writing one region leaves the salt and the other region alone |
| NegacionSpec.ClaroDeRegion | src/negacion.rs:399-412 | a prepared region starts with the frame of the data and fills the region |
| Negacion.ClaroDeRegion | src/negacion.rs:399-412 | the buffer is that, or the error that says what did not fit, with the same draws |
| Negacion.SellarRegion | src/negacion.rs:499-515 | one region derives, prepares and seals as specified, with what it logs and costs |
| Negacion.SellarOtra | src/negacion.rs:566-599 | the second region is derived and sealed with or without a hidden volume, and written only with one |
| Negacion.Crear | src/negacion.rs:437-599 | result, draws, seals and operations are those of the specification, error paths included |
| Negacion.EscribirRegion | src/negacion.rs:353-358 | copying into a region changes that region alone |
| Negacion.Intentar | src/negacion.rs:607-644 | one derivation and two openings whatever they answer; the hidden volume wins |
| Negacion.AbrirConPerfiles | src/negacion.rs:696-705 | the first profile that opens, after trying them all |
| NegacionApertura.FirstProfileWins | src/negacion.rs:696-705 | the answer is what the first profile that opens gives, and nothing if and only if none opens |
| NegacionApertura.OwnProfileAnswers | src/negacion.rs:690-705 | in a container just created a list answers what the container's own profile does if it is in the list, and nothing otherwise |
| NegacionApertura.DecoyOpensItself | src/negacion.rs:660-705 | the decoy's passphrase opens the decoy with any list exactly if the profile is in it, and without a hint exactly if it is v1, unless the discarded volume answers |
| NegacionApertura.HiddenOpensItself | src/negacion.rs:660-705 | and the hidden volume's passphrase the hidden data |
| Negacion.Abrir | src/negacion.rs:660-688 | too short, opened or not, and at what cost |
| NegacionApertura.AbrirAnswers | src/negacion.rs:660-688 | too short under 1024 bytes; otherwise what the profile gives, profile v1 without a hint |
| NegacionTheorems.CreacionLograda | src/negacion.rs:467-599 | a creation that succeeds made exactly two seals under salt and total length, and the fixed list of operations |
| NegacionTheorems.CrearEnds | src/negacion.rs:437-599 | with a source that does not fail, every error exactly in its order and with its figures, and success exactly otherwise |
| NegacionLayout.CreationCost | src/negacion.rs:508-599 | with or without a hidden volume a success derives twice and seals each half once, all that it holds under 24 bytes |
| NegacionLayout.RefusedExactly | src/negacion.rs:437-520 | every refusal in its order and with its figures, from the lengths and passphrases of the order |
| NegacionTheorems.FiableExists | src/aleatorio.rs:239-284 | a source that never fails a request exists, so there are creations that succeed |
| NegacionTheorems.SameOutside | src/negacion.rs:508-599 | on one tape, with and without a hidden volume: equal outside the hidden region, which is the tape's without one, and the same operations on the same lengths |
| NegacionTheorems.SameDecoy | src/negacion.rs:480-516 | the background and the decoy's seal do not depend on there being a hidden volume |
| NegacionTheorems.OpeningCost | src/negacion.rs:690-705 | one derivation and two openings per profile, whatever the passphrase, the contents and the outcome |
| NegacionTheorems.AadInjective | src/negacion.rs:386-391 | salt and total length can be read off the authenticated data |
| NegacionLayout.AadLayout | src/negacion.rs:386-391 | the salt, and the length in eight bytes, the most significant first |
| NegacionLayout.RegionsAreHalves | src/negacion.rs:353-385 | sixteen bytes of salt and two halves, the odd byte in the hidden one |
| NegacionLayout.WrittenLayout | src/negacion.rs:508-599 | a container is the salt drawn, the decoy's cipher, and the hidden volume's or the background |
| NegacionLayout.RestIsDrawn | src/negacion.rs:399-412 | after the frame a region holds healthy bytes that the source delivered at one of three requests |
| NegacionLayout.HexDigits | src/negacion.rs:564-567 | two digits for each byte, the higher first |
| NegacionApertura.KeysInjective | src/negacion.rs:499-576 | keys and nonces of regions are equal exactly if passphrase, salt, profile and region are |
| NegacionApertura.NoKeyTwice | src/negacion.rs:499-576 | no two seals of a creation, nor of creations with different salts, share a key or a nonce |
| NegacionTheorems.RegionOpens | src/negacion.rs:607-644 | a region of any byte string opens exactly with the salt, length, passphrase, profile and bytes of its seal |
| NegacionTheorems.OtherRegionsStayShut | src/negacion.rs:372-391 | with another length or salt neither region opens |
| NegacionTheorems.WhoOpensWhat | src/negacion.rs:607-688 | for every passphrase and profile: the hidden data, the decoy, or nothing |
| NegacionTheorems.DecoyOpensExactly | src/negacion.rs:564-572 | on each tape, when the decoy's passphrase opens exactly the decoy, and when the discarded volume answers instead |
| NegacionColision.DecoyIsSafeExactly | src/negacion.rs:564-598 | the decoy opens whatever the cipher, the tape and the earlier seals if and only if there is a hidden volume or its passphrase normalises like none that can be discarded |
| NegacionColision.DecoyFails | src/negacion.rs:564-598 | otherwise, for every such order, on some tape the discarded volume opens instead |
| NegacionColision.DiscardedIsDrawn | src/negacion.rs:564-567 | the passphrase discarded normalises like the hexadecimal digits of 32 healthy bytes |
| NegacionColision.DecoyCanFail | src/negacion.rs:564-598 | for every normalisation and profile there is such an order |
| NegacionTheorems.HiddenOpensExactly | src/negacion.rs:607-688 | the hidden volume's passphrase opens exactly the hidden data |
| NegacionTheorems.OtherLengthOpensNothing | src/negacion.rs:372-385 | a byte string of another length or another salt opens nothing, for any passphrase and profiles: appending, cutting or prepending included |
| Netlimit.RateLimiter.AllowAt | src/netlimit.rs:46-68 | allowed exactly if the address has a live window or there is room, and the window is not full; the map is that of the specified step, within bounds |
| Netlimit.AllowsWithinQuota | src/netlimit.rs:46-68 | in numbers: allowed if and only if the address is live or there is room, and the quota of its window lasts; other live addresses keep their entries |
| Netlimit.RateLimiter.Count | src/netlimit.rs:60-67 | the entry is opened, renewed or kept, and counts one more exactly if it was below the quota; no other changes |
| Netlimit.AllowKeepsBounds | src/netlimit.rs:47-57 | the map never exceeds its bound nor a counter its limit |
| Netlimit.SameLive | src/netlimit.rs:49-51 | purging forgets no live address |
| Netlimit.NoRoomExactly | src/netlimit.rs:52-57 | refused for lack of room exactly when that many other addresses have live windows |
| Netlimit.OneCall | src/netlimit.rs:46-68 | one call answers as the limiter that never evicts, and stays in step with it |
| Netlimit.EvictionIsInvisible | src/netlimit.rs:46-68 | so does any run with a clock that does not go back |
| Netlimit.NewLimiterIsIdeal | src/netlimit.rs:31-38 | from a new limiter on |
| NetlimitRuns.RefusedExactly | src/netlimit.rs:46-68 | along any run from a new limiter a query is refused if and only if as many other addresses as can be tracked have current windows, or its own has admitted exactly the quota |
| NetlimitRuns.OthersDoNotMatter | src/netlimit.rs:46-68 | while an address finds room, the answers to it are those of the run in which nobody else asks |
| NetlimitRuns.FewAddressesHaveRoom | src/netlimit.rs:47-57 | and it always does with no more addresses than can be tracked |
| Netlimit.RunIsWellSpaced | src/netlimit.rs:59-67 | along any run, the windows of an address start more than `window` apart, also after eviction, and each admits at most its quota |
| Netlimit.RunIsOpened | src/netlimit.rs:59-67 | every window opens with an admission at its start |
| Netlimit.AdmissionsAreBounded | src/netlimit.rs:48-67 | no interval of length `window` sees two full quotas |
| Netlimit.BoundIsMet | src/netlimit.rs:46-68 | for any quota, window and number of addresses other than zero, some run admits two quotas less one within one window's length |
| Netlimit.SlidesExactly | src/netlimit.rs:19-36 | no run ever exceeds the quota within a window's length if and only if the quota is at most one or the window zero |
| Aleatorio.DiagnosisMeaning | src/aleatorio.rs:145-174 | healthy exactly if no eight consecutive bytes are equal; all zeros exactly if unhealthy and all bytes are; else the byte of the first run |
| Aleatorio.SaludDe | src/aleatorio.rs:145-174 | the loop with a run counter gives that diagnosis |
| Aleatorio.Llenar | src/aleatorio.rs:239-284 | result, buffer and number of requests are those of the specification, for any answers of the source |
| Aleatorio.LlenarGuarantees | src/aleatorio.rs:239-284 | at most three requests, stopping at the first permanent error; success only with a healthy delivery; zeros after a health failure |
| Aleatorio.SucceedsExactly | src/aleatorio.rs:239-284 | success if and only if one of the first three answers delivers bytes with no eight equal in a row and those before it were codes 23 or 24; the buffer is that delivery |
| SplitMix.Rng.NextU64 | src/lab/engine.rs:19-25 | the n-th draw of the object is the n-th word of its seed |
| SplitMix.Rng.Below | src/lab/engine.rs:27-33 | the next draw modulo n, which draws once, or 0 without drawing if n is 0 |
| SplitMix.BelowCounts | src/lab/engine.rs:27-33 | from any seed, of the first 2^64 draws floor(2^64 / n) or one more give each answer, and which |
| SplitMix.BelowIsUniformExactly | src/lab/engine.rs:27-33 | the answers are equally frequent if and only if n divides 2^64 |
| SplitMix.MixIsPermutation | src/lab/engine.rs:21-24 | the mixing of the state is undone by an explicit inverse, on both sides |
| SplitMix.CounterBijection | src/lab/engine.rs:20 | counting modulo 2^64 takes every value once |
| SplitMix.EveryWordOnce | src/lab/engine.rs:19-25 | from any seed, each 64-bit word comes at exactly one of the first 2^64 draws, and which |
| SplitMix.FirstWordsDistinct | src/lab/engine.rs:19-25 | those draws are pairwise distinct |
| SplitMix.SeedsDiffer | src/lab/engine.rs:116-119 | generators with different seeds differ at every draw |
| SplitMix.SeedsShareTheCycle | src/lab/engine.rs:14-25 | every seed enters the same cycle of words at some point |
| SplitMix.WordsRepeat | src/lab/engine.rs:19-25 | the words repeat after 2^64 draws |
| SplitMix.PublishedWords | src/lab/engine.rs:19-25 | the seed 0 begins with the published words of SplitMix64 |
| Lienzo.Lienzo.Poner | src/lab/papel.rs:117-121 | sets one point if it is on the sheet, and changes no other |
| Lienzo.Lienzo.Tinta | src/lab/papel.rs:123-125 | reads a point; paper outside the sheet |
| Lienzo.PintarPunto | src/lab/papel.rs:254-258 | the nested loops paint one square, as much as is on the sheet, and nothing else |
| Lienzo.LeerPunto | src/lab/papel.rs:269-279 | the nested loops give the vote of the square |
| Lienzo.DamagedSquare | src/lab/papel.rs:271-279 | a damaged square still votes its colour exactly up to half of its points inverted, or strictly less if it was ink |
| PapelLayout.VoteIs | src/lab/papel.rs:271-279 | a square votes ink exactly if more than half of its points are |
| PapelLayout.DamageIs | src/lab/papel.rs:271-279 | the damage of a square is how many of its points differ |
| Matriz.Matriz.Imprimir | src/lab/papel.rs:246-262 | every point of the sheet shows the bit of its module, or paper |
| Matriz.Matriz.Leer | src/lab/papel.rs:264-288 | the bytes whose bits are the votes of the modules |
| Matriz.AByte | src/lab/papel.rs:280-287 | setting each bit in its place gives the byte with those bits |
| Matriz.ReadsExactly | src/lab/papel.rs:241-288 | data within the capacity is read back if and only if every module written stands its damage |
| PapelLayout.MatrixPoint | src/lab/papel.rs:246-262 | a point is ink exactly if the bit whose number is that of its module, along the rows, is one, the highest of each byte first |
| PapelLayout.MatrixBit | src/lab/papel.rs:264-288 | and the bit read is the vote of that module |
| PapelLayout.MatrixCapacity | src/lab/papel.rs:241-244 | the capacity is as many bytes as have bits for the modules that fit |
| Matriz.CleanReads | src/lab/papel.rs:236-289 | a clean print is read back |
| Base32.ABase32 | src/lab/papel.rs:407-422 | the symbols hold the data's bits in order and then zeros, although the accumulator is never masked |
| Base32.Push | src/lab/papel.rs:411 | what sixteen bits drop was already written |
| Base32.Pop | src/lab/papel.rs:413-416 | the symbol taken is the highest pending bits, the rest stay pending |
| Base32.PacksUnique | src/lab/papel.rs:407-422 | only one list of symbols does |
| PapelLayout.SymbolBits | src/lab/papel.rs:407-422 | bit k of symbol j is bit 5j + k of the data, or zero beyond it |
| Base32.DeBase32 | src/lab/papel.rs:425-441 | exactly as many bytes as asked: those the symbols hold, then zeros |
| Base32.UnpackPacked | src/lab/papel.rs:407-441 | unpacking undoes packing, with or without symbols beyond the last |
| PapelLayout.UnpackedBit | src/lab/papel.rs:425-441 | bit i of the bytes is bit i of the symbols while they hold whole bytes, then zero |
| Texto.GlyphsDiffer | src/lab/papel.rs:62-95 | two symbols have the same glyph only if they are the same |
| Texto.Texto.Imprimir | src/lab/papel.rs:337-361 | every point of the sheet shows the dot of the glyph of its cell's symbol, or paper |
| PapelLayout.TextPoint | src/lab/papel.rs:337-361 | a point is ink exactly if it lies in the glyph of a cell, counted along the rows, on a dot that is drawn |
| PapelLayout.TextCapacity | src/lab/papel.rs:332-335 | the capacity is as many bytes as have bits for the cells that fit, five in each |
| Texto.LeerCelda | src/lab/papel.rs:374-399 | the first of the nearest templates |
| PapelLayout.NearestIs | src/lab/papel.rs:374-399 | a cell is read as the symbol with the fewest misread dots, of several the first |
| Texto.Texto.Leer | src/lab/papel.rs:363-403 | the bytes of the nearest symbols of the first cells |
| Texto.CellReads | src/lab/papel.rs:374-399 | fewer misread dots than half of what separates the glyph from every other are harmless |
| Texto.LegibleTextReads | src/lab/papel.rs:363-403 | data whose cells are all that legible is read back |
| Texto.TextReads | src/lab/papel.rs:327-441 | so is data within the capacity if every dot kept more than half of its points |
| Texto.CleanTextReads | src/lab/papel.rs:327-441 | a clean print is read back |
| Honey.KeystreamDigits | src/honey.rs:130-151 | digit i is the big-endian word i of the stream of the key of passphrase and pepper, salt and parameters, modulo the alphabet |
| Honey.Encrypt | src/honey.rs:156-196 | each error exactly when the source gives it; otherwise header and masked tokens |
| Honey.Decrypt | src/honey.rs:202-255 | the structural checks in their order, then the unmasked tokens |
| HoneyKeys.DecryptedSolves | src/honey.rs:243-254 | for every blob that parses, token plus stream word is the number in the blob, modulo the alphabet |
| HoneyKeys.EncryptedAdds | src/honey.rs:169-195 | every number written is token plus stream word, modulo the alphabet |
| HoneyKeys.PassphrasesAreIndependent | src/honey.rs:15-31 | for passphrases that do not concatenate alike with their peppers and any two secrets of the declared length, on some stream the blob opens to the one under the first and to the other under the second |
| HoneyKeys.OnlyTheSumCounts | src/honey.rs:130-151 | pairs of passphrase and pepper that concatenate alike open every blob alike |
| HoneyKeys.ParsesExactly | src/honey.rs:202-240 | which bytes parse and to what; the others fail at the first check they do not pass |
| HoneyKeys.ParsedToken | src/honey.rs:248-250 | token i is the big-endian pair of bytes at 39 + 2i |
| HoneyKeys.HeaderLayout | src/honey.rs:183-190 | the fields of the header at their offsets |
| HoneyKeys.EncryptRefuses | src/honey.rs:162-167 | no tokens or over a thousand, or one outside the alphabet |
| Honey.NoOracle | src/honey.rs:198-201 | success or the exact error depends on the blob alone; a success has the declared number of tokens, all of the alphabet |
| Honey.DecryptInverts | src/honey.rs:156-255 | the round trip holds if and only if the parameters are sane; if not, no passphrase opens |
| Honey.EncryptSucceedsExactly | src/honey.rs:156-167 | a secret is encrypted, under any parameters, if and only if some container of that alphabet opens to it |
| Honey.ParseWritten | src/honey.rs:183-240 | what was written parses to what was meant |
| Honey.OneDigit | src/honey.rs:246-252 | one digit links a ciphertext token, whatever its value, with a candidate |
| Honey.EverySecretIsPlausible | src/honey.rs:15-31 | for every secret of the declared length exactly one keystream leads to it |
| Honey.DigitsAreEven | src/honey.rs:52-54 | each digit has floor(2^64 / A) stream words or one more, and which |
| Honey.DigitsFromWords | src/honey.rs:130-151 | the digits of a stream are its words modulo A; streams and sequences of words are in one-to-one correspondence |
| Honey.DecoysAreEven | src/honey.rs:15-31 | the sequences of stream words under which a ciphertext opens to a given secret number between floor(2^64 / A)^L and (floor(2^64 / A) + 1)^L |
| Honey.DecryptPin | src/honey.rs:265-270 | any container that opens gives one character per token, with the truncation to a byte and the sum with '0' as they wrap |
| Honey.PinIsDigitsExactly | src/honey.rs:265-270 | these are decimal digits under every keystream if and only if the alphabet has at most ten symbols |
| Honey.PinRoundTrip | src/honey.rs:272-279 | a PIN is one to a thousand decimal digits, errors included, and converting it loses nothing |
| HoneyKeys.PinValues | src/honey.rs:267-279 | tokens are the values of the digits, and characters are '0' plus the token's low byte |
| Honey.PinDecoys | src/honey.rs:257-279 | any passphrase gives as many digits as the PIN has, and the right one the PIN |
| Corpus.Corpus.Append | src/lab/corpus.rs:47-55 | adds one linked entry, and a corpus built by appending stays one |
| Corpus.Corpus.Verify | src/lab/corpus.rs:73-83 | true exactly if every link recomputes |
| Corpus.VerifiesExactlyWhenBuilt | src/lab/corpus.rs:47-83 | a corpus verifies if and only if it is what appending its records gives |
| Corpus.MessageInjective | src/lab/corpus.rs:37-44 | two readings of a hashed message are one if neither kind has a zero byte, or if one has none and its data no text before a zero byte |
| Corpus.MessageLayout | src/lab/corpus.rs:37-44 | previous hash, kind, a zero byte, data; the root is thirty-two zeros |
| Corpus.SameEnding | src/lab/corpus.rs:73-83 | equal heads: equal entries backwards as far as both go, or one hash for two messages at the same place from the head |
| Corpus.HeadCommits | src/lab/corpus.rs:37-83 | verifying corpora with equal heads, the first unambiguous or both without zero bytes in the kinds, are equal, or two messages at one place share a hash, or the lengths differ and an entry hashes to the root |
| Corpus.PoisoningIsSeen | src/lab/corpus.rs:6-8 | whatever replaces the records under unaltered hashes fails to verify, or two messages at one place share a hash, if and only if the original is unambiguous |
| Corpus.ZeroIsAmbiguous | src/lab/corpus.rs:37-44 | a zero byte in a kind, or in data after a text, gives another corpus with the same messages and hashes |
| Corpus.TwinVerifies | src/lab/corpus.rs:73-83 | that corpus verifies with the same head, whatever the hash, and confuses nothing |
| Corpus.CommittedExactly | src/lab/corpus.rs:6-8 | length and head leave one verifying corpus, or a collision at one place, if and only if it is unambiguous |
| Utf8.TextAroundZero | src/lab/corpus.rs:16-20 | a zero byte cuts UTF-8 into UTF-8, so a separator can be looked for at any zero byte |
| Corpus.TruncationVerifies | src/lab/corpus.rs:73-83 | every prefix of a corpus built by appending verifies |

## Left out

- The base-N codec, the generic container, the dictionary bijection, Reed-Solomon and the VOPRF live in other crates, and with them goes `medir` of `src/lab/papel.rs`.
- The primitives themselves (XChaCha20-Poly1305, Argon2id, HKDF, SHA-2 and the signature and key-exchange schemes) are ideal or abstract here.
- Probability and computational bounds: secrecy is stated as what stays possible, decoys as how many words lead to them, forgery as an explicit collision.
- Wiping, stack cleaning and wall-clock time are not observable in the model; what `negacion` promises of the clock is modelled as the list of operations.
- Panics are not modelled: `expect` on the random source in `honey` and `stream`, and Argon2id refusing parameters. The draws are parameters there.
- `src/api.rs`, `src/pqsign.rs`, `src/pqhybrid.rs` and `src/firmante` compose the primitives at fixed offsets and would only add easy members.
- `run`, `byte` and the attack drivers of `src/lab` would only add easy members.
- The photocopier of `src/lab/papel.rs` blurs and thresholds in floating point; here damage is any set of inverted points.
- Start-up self tests, messages and display of errors, and the Python, PKCS#11 and network front ends.
- Honey.DecryptPin: wraps around when `b'0' + t` exceeds a byte, as release builds do; builds with overflow checks stop there.
- Shamir.Combine: takes a first share of at least eight bytes, which every share dealt or parsed has; the subtraction underflows otherwise.
- ShamirTheorems.ShareRoundTrip: speaks of payloads under 2^32 bytes, beyond which the length field is truncated.
- Padme.PaddedIsLeastMultiple: speaks of lengths whose padded length fits in 64 bits, as every other statement on Padmé here.
- NegacionTheorems.WhoOpensWhat: supposes that no earlier seal was made under the same salt, which is drawn afresh for each container.
- NegacionTheorems.RegionOpens: supposes the same of the salt of the byte string that is opened, which may be another one.
- NegacionTheorems.OtherLengthOpensNothing: supposes the same as `RegionOpens`.
- StreamTheorems.OnlyGenuineContainersOpen: supposes that no two runs drew the same header.
- Texto.TextReads: gives a sufficient condition; a cell can also be read right with more dots misread, as long as no other glyph is nearer.
- Texto.Texto.Leer: takes a sheet with at least one cell per row, also for no bytes at all, since the source divides by that number.
