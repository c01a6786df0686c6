# Verified model of the Falcon verifier and the EntryPoint ledger

Two independent parts of the repository are modelled and proved in Dafny 4.11.

**The Falcon-512 verification stack.** The contract `ZKNOX_NTT` multiplies polynomials modulo X^n + 1
and q with an in-place number-theoretic transform, written once in checked Solidity and once in
assembly over memory addresses. `ZKNOX_falcon` uses it for the norm test of a signature,
`HashToPoint_ZKNOX` samples the hashed polynomial from the counter-mode stream of
`ZKNOX_keccak_prng`, and `decode-final.js` and the helpers of `test/falcon-simple-wallet.test.ts`
parse keys and signatures bit by bit. The main results:

- the transform with its table loops computes, block by block, remainders modulo X^w - rho, so its
  outputs are the values of the input at the n roots of X^n + 1; forward and inverse undo each
  other in both directions; and transform, pointwise product and inverse transform give the
  schoolbook negacyclic product. This holds for every modulus, every power-of-two length the table
  covers, and all arrays. The assembly computes the same arrays wherever the checked version does not
  fail, and changes nothing else but its scratch word.
- `verify` accepts exactly the pairs for which the defining equation s1 + x * h = c modulo q and
  X^n + 1 has a solution within the norm bound, and reverts exactly when an entry of s2 exceeds q
  (or the gas for hashing runs out). `verify_opt` on a transformed key is `verify` on the key.
- the signature decoder accepts exactly the byte strings that start with the encoding of n
  coefficients up to 2047, in spite of its wrapping 32-bit accumulator, names what is wrong with every
  other, and the unchecked test decoders agree with the checking ones exactly where the latter accept.
- the generator's output is one stream, however reads are split; sampling is exact and unbiased.

**The ERC-4337 ledger.** `EntryPoint`, `StakeManager` and `NonceManager` keep deposits, stakes,
nonces and the ether of all accounts. Every call into another contract is modelled by an arbitrary
finite tree of calls that contract then makes back into the entry point, with an arbitrary answer;
gas readings are arbitrary but non-increasing and below 2^64. The main results, for every such
tree, every history of transactions and every state in between:

- solvency: ether held = deposits + stakes + prefunds of operations not yet executed + fees
  collected + ether forced in; it is the precondition of every external call of the contract;
- conservation: prefund = fee + one refund to the party charged, where fee, payer and the calls that
  survive are functions of the operation as submitted and its readings; the beneficiary receives the exact
  sum of the fees, and only gas and the beneficiary can make a validated bundle fail;
- authorization: how any bundle ends is decided, in terms of the operations as submitted, by the first
  operation that breaks a rule; in one that succeeds every account and every paymaster agreed for this time,
  and every aggregator vouched for its group;
- no replay: a successful bundle consists of operations never accepted before, each once;
- the events of an account explain its stake and its deposit to the last wei, and stake leaves only by
  a withdrawal that comes after an unlock and the greatest delay declared for it;
- nothing wraps in the prefund, the gas, the penalty or the cost of a validated operation;
- `handleAggregatedOps` without aggregators is `handleOps` on the concatenated list, failure codes
  included, and its reported failure index differs exactly as stated.

## How the model is organised

| files | what they hold |
|---|---|
| `ModArith`, `Polynomial`, `RootTable`, `FalconRoots`, `NttSpec`, `NttStages` | congruences, the schoolbook product, the laws of the tables, the transforms by their defining sums, the contents of the array after each stage |
| `Evm` | words, wrapping arithmetic, word-addressed memory |
| `ZknoxNtt`, `ZknoxNttAssembly` | the two implementations, as methods over arrays and over memory |
| `BigEndian`, `KeccakPrng`, `HashToPoint` | the generator as a class, and the sampling loop |
| `FalconParameters`, `ZknoxFalcon`, `FalconPipeline` | verification, and its meaning |
| `BitStream`, `SignatureCodec`, `DecodingErrors`, `KeyCodec`, `DecodeFinal`, `TestDecoders` | encodings as bit strings, and the decoders against them |
| `BitwiseOr`, `Ledger`, `GasAccounting`, `EntryPointModel` | the ledger as a value, and what each call does to it |
| `ValidationWindow`, `OperationRules` | what an operation must satisfy and what it is to pay, read off the operation as submitted, without the functions of `EntryPointModel` that compute it |
| `LedgerInvariants`, `LedgerSafety`, `LedgerTheorems`, `StakeLocking`, `AggregatedBundles` | invariants over all runs, and their consequences |
| `ValidationTheorems`, `BundleTheorems` | the code against those rules: one operation, the loops, whole bundles |
| `EntryPointContract` | the entry point as an object updated step by step, proved against `EntryPointModel` |

Code that updates things in place is modelled by methods over arrays, memory words and fields;
each is proved equal to a function of its input, and the properties are lemmas about those functions.

Modelling decisions:

- Keccak is an arbitrary function from byte strings to 32 bytes.
- The root tables are any sequences that satisfy the laws the literal tables are built to satisfy
  (`psi[1]^2 = -1`, `psi[2k]^2 = psi[k]`, `psi[2k+1]^2 = -psi[k]`, `psi[k] * psiInv[k] = 1`, all
  modulo q), and the inverse factor is any inverse of n modulo q;
  `FalconRoots` proves them for the powers of 1826 modulo 12289, which agree with the literal `psi_rev`
  at the ten entries compared.
  For the assembly the code of the table contract is taken to be the table, as
  `contracts/samples/ZKNOX_falcon.sol:195` requires.
- A call across a contract boundary copies its arrays; inside one contract arrays are passed by
  reference, so the product overwrites its arguments, and an array passed twice is transformed twice.
- `gas` of `hashToPoint` counts the draws the caller can pay for. `console.log` has no effect.
- A reverted call leaves the ledger as it was. `External.ok` says whether the callee returns.
- The comment on `make_immutable` in `ZKNOX_NTT` says that the storage can no longer be modified, but
  `is_immutable` starts at 1 and `update` is allowed while it is greater than 0:
  `ZknoxNtt.UpdateAfterMakeImmutable` shows an update that follows it and takes effect, and
  `Ntt.Administer` that make_immutable never has an effect.
- The comment at `contracts/samples/ZKNOX_falcon.sol:67` says that positive coefficients remove
  malleability; entries 0 and q are interchangeable, and `FalconPipeline.OneFormExactly` says exactly when a form is the only one.
- `test/falcon-simple-wallet.test.ts:142` passes the address of `FalconConstants` for both tables. That
  contract keeps its tables in storage, so its code is not the table and the hypothesis does not hold there.
- The ledger carries a log of what happened to every account, with amounts. It and the ether forced in
  are part of the model only; no call reads them.
- `GasAccounting.GasPriceIsExact` is for base fees below 2^120, which is more than all ether; fees are stated for all.
- Solidity's `mulmod` and `addmod` panic for modulus zero; a transform is stated for q > 0.
- Block time stamps are arbitrary. `unlockStake` cuts the time stamp to 48 bits, which
  `StakeLocking.DelayIsEnforced` makes exact.

## Model

| member | source | states |
|---|---|---|
| Polynomial.EvalProduct | contracts/samples/ZKNOX_NTT.sol:294-297 | at every x with x^n = -1 mod q, the schoolbook product modulo X^n + 1 evaluates to the product of the values |
| RootTable.RhoPower | contracts/samples/ZKNOX_NTT.sol:232-236 | below every tree node the leaf roots are t-th roots of the node's root |
| RootTable.LeafRoot | contracts/samples/ZKNOX_NTT.sol:232-236 | each of the n roots the transform evaluates at satisfies rho^n = -1 mod q |
| RootTable.InverseSquareRoots | contracts/samples/ZKNOX_NTT.sol:235-236 | the inverse table satisfies the square-root laws as well |
| RootTable.BitReversedPowersAreSquareRoots | contracts/samples/ZKNOX_NTT.sol:133-134 | for every g with g^(2^l) = -1 mod q the bit-reversed powers of g satisfy the square-root laws |
| RootTable.BitReversedPowersAreRootTable | contracts/samples/ZKNOX_NTT.sol:232-236 | with the powers of the inverse of g in the same order, they are a table and its inverse table |
| FalconRoots.FalconTables | contracts/samples/ZKNOX_NTT.sol:234-236 | the residues of the powers of 1826 and 5808 modulo 12289 in bit-reversed order satisfy all table laws up to length 1024 |
| FalconRoots.ListedEntries | contracts/samples/ZKNOX_NTT.sol:234-234 | entries 1, 2, 4, ..., 512 of that table are the numbers the contract lists there |
| FalconRoots.Deploy | contracts/samples/ZKNOX_NTT.sol:109-116 | a contract set up with these tables, q = 12289 and factor 12265 meets everything the verifier requires of it |
| FalconRoots.ZerosAreNoTable | contracts/samples/ZKNOX_NTT.sol:151-151 | the zeros extcodecopy reads past the end of the code satisfy no table law |
| ZknoxNtt.Ntt.Update | contracts/samples/ZKNOX_NTT.sol:118-126 | sets the tables, the modulus and the factor, unless is_immutable is zero |
| ZknoxNtt.Ntt.MakeImmutable | contracts/samples/ZKNOX_NTT.sol:129-131 | sets is_immutable and changes nothing else |
| ZknoxNtt.Ntt.Administer | contracts/samples/ZKNOX_NTT.sol:118-131 | after deployment and any sequence of these calls the settings are those of the last update |
| ZknoxNtt.UpdateAfterMakeImmutable | contracts/samples/ZKNOX_NTT.sol:128-131 | an update after make_immutable takes effect, and make_immutable changes nothing, whatever came before |
| Polynomial.StridesAreRemainder | contracts/samples/ZKNOX_NTT.sol:244-259 | division with remainder by X^t - r: for every x the input equals the block plus (x^t - r) times an explicit quotient |
| NttStages.BlockIsRemainder | contracts/samples/ZKNOX_NTT.sol:244-259 | after the stage with m blocks of width w, block i is the remainder of the input by X^w - rho of node m + i |
| NttStages.ForwardStageStep | contracts/samples/ZKNOX_NTT.sol:246-257 | consecutive forward stages are related, pair by pair, by the butterfly with psi[m + i], modulo q |
| NttStages.InverseStageStep | contracts/samples/ZKNOX_NTT.sol:271-281 | consecutive inverse stages are related, pair by pair, by the inverse butterfly, modulo q |
| NttSpec.InverseOfForward | contracts/samples/ZKNOX_NTT.sol:239-292 | the inverse transform of the transform of f is f reduced modulo q, for all f |
| NttSpec.ForwardOfInverse | contracts/samples/ZKNOX_NTT.sol:239-292 | the transform of the inverse transform of b is b reduced modulo q, for all b |
| NttSpec.TransformOfProduct | contracts/samples/ZKNOX_NTT.sol:294-297 | the transform of the schoolbook negacyclic product is the pointwise product of the transforms |
| NttSpec.ConvolutionTheorem | contracts/samples/ZKNOX_NTT.sol:294-297 | transform, multiply pointwise, transform back: the schoolbook negacyclic product reduced modulo q |
| ZknoxNtt.Ntt.Forward | contracts/samples/ZKNOX_NTT.sol:239-261 | the in-place loops leave in the array the values at all leaf roots, reduced; all indices are in range and the loops end |
| ZknoxNtt.Ntt.Inverse | contracts/samples/ZKNOX_NTT.sol:264-292 | the in-place loops succeed exactly when every entry subtracted in the first stage is at most q, and then compute the inverse transform |
| ZknoxNtt.Ntt.VecMulMod | contracts/samples/ZKNOX_NTT.sol:52-63 | products position by position; fails exactly on different lengths, or on modulus zero when there is something to multiply |
| ZknoxNtt.Ntt.VecAddMod | contracts/samples/ZKNOX_NTT.sol:67-78 | sums position by position modulo q; fails exactly on different lengths, or on modulus zero when there is something to add |
| ZknoxNtt.Ntt.VecSubMod | contracts/samples/ZKNOX_NTT.sol:82-93 | differences modulo q; fails exactly on different lengths, a subtrahend above q, or modulus zero when there is something to subtract |
| ZknoxNtt.Ntt.MulNttPoly | contracts/samples/ZKNOX_NTT.sol:295-297 | returns the schoolbook negacyclic product of two arrays modulo q; for one array passed twice, the square of its transform |
| ZknoxNtt.Ntt.HalfMul | contracts/samples/ZKNOX_NTT.sol:300-306 | the inverse transform of the transform of a times b position by position, where b, if it is a, is already transformed |
| ZknoxNtt.Ntt.NttMul | contracts/samples/ZKNOX_NTT.sol:219-223 | through the assembly transforms, the schoolbook negacyclic product of the two arrays modulo q |
| ZknoxNtt.Ntt.NttHalfMul | contracts/samples/ZKNOX_NTT.sol:214-216 | the same with b already transformed |
| ZknoxNtt.ProductsFit | contracts/samples/ZKNOX_NTT.sol:296-296 | a pointwise product never makes the checked inverse transform fail |
| ZknoxNttAssembly.Forward | contracts/samples/ZKNOX_NTT.sol:135-167 | the address arithmetic with its reversed write order computes the same array as the Solidity version, and changes only words of the array and of the scratch slot |
| ZknoxNttAssembly.Inverse | contracts/samples/ZKNOX_NTT.sol:171-211 | changes only the array and the scratch slot, and computes the same array as the Solidity version where that does not fail; elsewhere the exact inverse transform of the array with each wrapped excess spread over its pair |
| ZknoxNttAssembly.AssemblyInverseIsExact | contracts/samples/ZKNOX_NTT.sol:171-211 | with valid tables and factor the result with wrapping at w word values is the inverse transform of the input if and only if the Solidity version does not fail on it or q divides w, which is 2^256 for the assembly |
| ZknoxNttAssembly.ForwardCopy | contracts/samples/ZKNOX_NTT.sol:135-167 | on an array with memory of its own the assembly returns what the Solidity transform leaves |
| ZknoxNttAssembly.InverseCopy | contracts/samples/ZKNOX_NTT.sol:171-211 | on an array with memory of its own the assembly returns the inverse transform of the array, or of the effective array where differences wrap |
| KeccakPrng.Prng.Inject | contracts/samples/ZKNOX_keccak_prng.sol:37-42 | appends to what will seed the stream; fails after the flip |
| KeccakPrng.Prng.Flip | contracts/samples/ZKNOX_keccak_prng.sol:47-57 | starts the stream of the hash of everything injected; fails when called twice |
| KeccakPrng.Prng.Extract | contracts/samples/ZKNOX_keccak_prng.sol:64-97 | the buffered block loop returns the next length bytes of the stream and advances by exactly that many, or fails when the counter would overflow |
| KeccakPrng.Uint64ToBytes | contracts/samples/ZKNOX_keccak_prng.sol:104-109 | the eight bytes have, big-endian, the value of the counter |
| KeccakPrng.BlockInputsDiffer | contracts/samples/ZKNOX_keccak_prng.sol:80-83 | no two blocks hash the same input |
| KeccakPrng.StreamIsCounterMode | contracts/samples/ZKNOX_keccak_prng.sol:80-93 | byte p of the stream is byte p mod 32 of the hash of the seed followed by the eight bytes whose big-endian value is p / 32 |
| KeccakPrng.OutputIsStreamPrefix | contracts/samples/ZKNOX_keccak_prng.sol:37-97 | whatever the calls, the bytes given out are a prefix of the one stream of the injected bytes |
| KeccakPrng.SplittingIsIrrelevant | contracts/samples/ZKNOX_keccak_prng.sol:37-97 | two runs that inject the same bytes, split in any way, give out prefixes of each other, split in any way |
| HashToPoint.HashToPoint | contracts/samples/HashToPoint_ZKNOX.sol:54-110 | returns the first n accepted samples reduced modulo q, in order, padded to 512, or fails when they are not among the draws it can pay for |
| HashToPoint.SampleLoop | contracts/samples/HashToPoint_ZKNOX.sol:88-108 | the rejection loop collects exactly the accepted samples in order |
| HashToPoint.HashedIsFirstPairs | contracts/samples/HashToPoint_ZKNOX.sol:81-109 | what is returned are the residues of the first n pairs of stream bytes whose big-endian value is below the greatest multiple of q, every skipped pair being at or above it, then zeros; it succeeds if and only if q > 0, n <= 512 and it can pay for n such pairs |
| HashToPoint.EnoughSamplesSuffice | contracts/samples/HashToPoint_ZKNOX.sol:92-108 | if some number of draws holds n accepted samples, every call that can pay for them returns those n |
| HashToPoint.AcceptedSamplesAreUniform | contracts/samples/HashToPoint_ZKNOX.sol:81-87 | every residue modulo q has exactly floor(65536 / q) accepted samples |
| ZknoxFalcon.Centered | contracts/samples/ZKNOX_falcon.sol:89-105 | a representative modulo q between -6144 and 6144 |
| ZknoxFalcon.Fold | contracts/samples/ZKNOX_falcon.sol:89-105 | folding in place leaves the absolute values of the centered representatives; fails exactly when an entry exceeds q |
| ZknoxFalcon.CheckNorm | contracts/samples/ZKNOX_falcon.sol:89-129 | decides whether the squared norms of the centered representatives add up to at most the bound; no addition overflows |
| ZknoxFalcon.Verify | contracts/samples/ZKNOX_falcon.sol:70-130 | true exactly for key length 512, salt length 40, entries of s2 at most q and the norm of (c - s2 * h, s2) within 34034726; reverts exactly when the lengths are right and some entry exceeds q or hashing runs out of gas |
| ZknoxFalcon.VerifyOpt | contracts/samples/ZKNOX_falcon.sol:133-186 | with h the inverse transform of the key given: true exactly for key length 512, salt length 40, entries of s2 at most q and the norm of (c - s2 * h, s2) within 34034726; reverts exactly when the lengths are right and some entry exceeds q or hashing runs out of gas |
| ZknoxFalcon.VerifyOptAgrees | contracts/samples/ZKNOX_falcon.sol:132-186 | verify_opt on the transform of h and verify on h have the same outcome, for all messages, signatures and 512-entry keys |
| ZknoxFalcon.VerifyOptHasKey | contracts/samples/ZKNOX_falcon.sol:132-186 | every 512-entry argument of verify_opt acts as verify does on the key it is the transform of |
| FalconPipeline.AcceptanceIsShortSolution | contracts/samples/ZKNOX_falcon.sol:85-129 | accepted if and only if integers s1 and x exist with x = s2 mod q, s1 + x * h = c mod q and X^n + 1, and squared norm within the bound |
| FalconPipeline.VerifyDecoded | contracts/samples/ZKNOX_falcon.sol:70-130 | for decoded coefficients the verdict is the norm test on the signed coefficients themselves, and verification reverts exactly when hashing does |
| FalconPipeline.VerifyEncoded | decode-final.js:84-90 | from signature bytes whose data starts with the encoding of the coefficients, whatever follows, decoding gives them back and the verdict is the norm test on them |
| FalconPipeline.CongruentSignatures | contracts/samples/ZKNOX_falcon.sol:66-68 | signatures with the same salt and congruent entries up to q have the same outcome, and differ only where one has 0 and the other q |
| FalconPipeline.OneFormExactly | contracts/samples/ZKNOX_falcon.sol:66-68 | the range check leaves a signature a single form if and only if no entry is 0 or q |
| FalconPipeline.FoldRecoversAbsoluteValues | contracts/samples/ZKNOX_falcon.sol:98-105 | folding the residues of decoded coefficients leaves the absolute values that were encoded |
| FalconPipeline.CenteredOfSigned | contracts/samples/ZKNOX_falcon.sol:98-105 | the centered representative of a legal coefficient is that coefficient |
| SignatureCodec.DecodingInvertsEncoding | decode-final.js:32-71 | decoding n coefficients gives xs and stops at bit e if and only if xs are n legal coefficients and the input starts with exactly their encoding, of e bits |
| SignatureCodec.RoundTrip | decode-final.js:32-71 | decoding the packed encoding of any legal coefficients returns them, whatever follows |
| DecodingErrors.FailsExactly | decode-final.js:32-71 | decoding fails with an error if and only if the input starts with the encoding of fewer than n legal coefficients and what follows gives the reason: a legal coefficient cut short, an absolute value above 2047, or a negative zero; the index is theirs |
| DecodingErrors.CoefficientFails | decode-final.js:41-68 | the same for one coefficient |
| DecodeFinal.DecodeFalconSig | decode-final.js:32-71 | the loops over the wrapping accumulator with stale high bits compute the bit-string decoder, errors and their indices included |
| DecodeFinal.DecodeFalconPk | decode-final.js:7-25 | returns the 14-bit big-endian fields if all are below q, else the error of the first that is not; on any header byte, packed coefficients below q and whatever follows, exactly those coefficients |
| DecodeFinal.ToModQ | decode-final.js:74-76 | every result is congruent to its coefficient modulo q, and reduced when the coefficient is within q of zero |
| DecodeFinal.DecodeFalconSignature | decode-final.js:84-90 | nonce, signed coefficients and their residues from the bytes of a signature, or the decoder's error |
| KeyCodec.DecodeOfEncode | decode-final.js:7-25 | packing coefficients below 2^14 as 14-bit fields and decoding is the identity |
| KeyCodec.DecodeOfKey | decode-final.js:7-25 | one header byte, whatever it is, is skipped, and so is what follows the packed coefficients |
| KeyCodec.EncodeOfDecode | decode-final.js:7-25 | packing the decoded fields gives back the bytes they came from |
| TestDecoders.DecodePk | test/falcon-simple-wallet.test.ts:28-44 | the loops compute the 14-bit big-endian fields; on a header byte, packed coefficients below 2^14 and whatever follows, exactly those coefficients |
| TestDecoders.KeyDecodersAgree | test/falcon-simple-wallet.test.ts:28-44 | run on any bytes, the checking key decoder accepts if and only if the unchecked one finds every coefficient below q; both then return the same key, and else the error names the first coefficient the unchecked one lets through |
| TestDecoders.SignatureDecodersAgree | test/falcon-simple-wallet.test.ts:47-90 | run on any bytes, whenever the checking signature decoder accepts, the unchecked one returns the same residues and nonce; it accepts if and only if the unchecked one halts and read legal coefficients only |
| TestDecoders.BitReader.ReadBits | test/falcon-simple-wallet.test.ts:51-58 | returns the next field of the bit string and moves past it |
| TestDecoders.BitReader.ReadBit | test/falcon-simple-wallet.test.ts:60-67 | returns the next bit and moves past it |
| TestDecoders.DecompressS2 | test/falcon-simple-wallet.test.ts:47-90 | returns the residues of the unchecked decoding exactly when the input holds 512 coefficients within the read budget |
| TestDecoders.LaxDecodingInvertsEncoding | test/falcon-simple-wallet.test.ts:73-82 | the unchecked decoder reads 512 signs and absolute values, legal or not, if and only if the bytes start with exactly their encoding |
| TestDecoders.DecodersAgree | test/falcon-simple-wallet.test.ts:73-88 | the checking decoder accepts if and only if the unchecked one halts with legal coefficients only, and then both read the same coefficients from the same bits |
| TestDecoders.PushedIsToModQ | test/falcon-simple-wallet.test.ts:83-87 | on what the checking decoder accepts, the pushed values are its coefficients modulo q |
| TestDecoders.NegativeZeroDisagrees | test/falcon-simple-wallet.test.ts:73-88 | for any 511 coefficients after it there are signature bytes with a negative zero in front that the unchecked decoder lets through and the checking one refuses |
| BitwiseOr.OrFits | contracts/core/EntryPoint.sol:647-654 | an or is below a power of two if and only if both operands are |
| GasAccounting.GasValuesFitEach | contracts/core/EntryPoint.sol:644-654 | the single comparison of the or accepts if and only if each of the seven values is at most 2^120 - 1 |
| GasAccounting.PrefundIsExact | contracts/core/EntryPoint.sol:417-429 | after that check the unchecked prefund is the exact product |
| GasAccounting.GasPrice | contracts/core/EntryPoint.sol:778-790 | never above maxFeePerGas |
| GasAccounting.GasPriceIsExact | contracts/core/EntryPoint.sol:778-790 | for a checked operation and a base fee below 2^120 the price is the smaller of cap and tip plus base fee, in every case: neither the branch for equal fees nor the unchecked addition changes it |
| GasAccounting.PenaltyBounds | contracts/core/EntryPoint.sol:739-749 | the penalised gas lies between the gas used and what was reserved, or the gas used if that is more |
| GasAccounting.PenaltyMonotone | contracts/core/EntryPoint.sol:739-749 | using more gas never lowers the charge |
| ValidationWindow.ReadPacked | contracts/core/Helpers.sol:43-66 | reading packed validation data gives back the aggregator and tells whether the time lies in the packed window |
| ValidationWindow.FieldsOf | contracts/core/Helpers.sol:43-66 | every word is the packing of the three fields read from it |
| ValidationWindow.FieldsOfPacked | contracts/core/Helpers.sol:43-66 | there is no other way to read it |
| ValidationWindow.PassesInsideWindows | contracts/core/EntryPoint.sol:577-622 | an operation passes if and only if the account names the expected aggregator, the paymaster none, and both windows contain the block time |
| OperationRules.CopyExact | contracts/core/EntryPoint.sol:390-411 | the copy has every field of the operation in its place, the paymaster and its two gas limits exactly if there is paymaster data; refused exactly for 1 to 51 bytes of it |
| OperationRules.CopyFits | contracts/core/EntryPoint.sol:644-654 | the single comparison on the copy accepts exactly if every value of the operation that counts fits in 120 bits |
| OperationRules.CopyCosts | contracts/core/EntryPoint.sol:417-429 | the unchecked prefund of the copy is the exact sum of the limits of the operation, the paymaster's two exactly if there is paymaster data, times its maxFeePerGas; payer and price are those of the operation |
| OperationRules.PriceIsFair | contracts/core/EntryPoint.sol:778-790 | the price of an operation as submitted is at most the smaller of maxFeePerGas and maxPriorityFeePerGas plus base fee, and is that unless the sum wraps |
| OperationRules.FeeIsFair | contracts/core/EntryPoint.sol:737-757 | a fee exceeds neither the prefund nor the gas charged times the smaller of cap and tip plus base fee; the gas charged is at least the gas used |
| OperationRules.VerdictIsFirst | contracts/core/EntryPoint.sol:577-604 | a list of rules fails with the code of the first broken one, and passes exactly if none is broken |
| ValidationTheorems.ValidatesExactly | contracts/core/EntryPoint.sol:631-689 | an operation is validated if and only if, in the ledger its account's calls leave, it breaks none of fifteen rules on its own fields, answers and gas readings; else it fails with the code of the first it breaks |
| ValidationTheorems.NamesExactly | contracts/core/EntryPoint.sol:612-622 | the aggregator and window of a word are what every packing of it says |
| ValidationTheorems.AuthorizedExactly | contracts/core/EntryPoint.sol:577-604 | the rules on validation data pass if and only if the account names the expected aggregator and the paymaster, if any, none, both in time, whatever fields their data is packed from |
| ValidationTheorems.DataExact | contracts/core/EntryPoint.sol:577-604 | the check of the data fails with AA24, AA22, AA34 or AA32, the first in this order whose rule is broken |
| ValidationTheorems.ValidateAllExactly | contracts/core/EntryPoint.sol:189-201 | the loop accepts operations, each in the ledger the one before left, up to the first that breaks a rule or whose data is not in order; that one's code and index are reported |
| LedgerInvariants.CreditKeeps | contracts/core/StakeManager.sol:52-57 | money that is owed can be credited to an account without overflow; that much less is owed, and exactly this credit is recorded |
| LedgerInvariants.DepositToKeeps | contracts/core/StakeManager.sol:63-66 | the account named, and no other, has the value sent more; reverts only if the contract would hold 2^256 wei; keeps the invariant |
| LedgerInvariants.TakePrefundKeeps | contracts/core/EntryPoint.sol:513-520 | the prefund leaves the payer's deposit, is recorded as charged to it, and becomes owed |
| LedgerInvariants.DepositReleasedKeeps | contracts/core/StakeManager.sol:138-141 | before the payment, the amount has left the caller's own deposit, is recorded, and is owed |
| LedgerInvariants.AddStakeKeeps | contracts/core/StakeManager.sol:73-91 | the stake grows by exactly the value sent, the deposit does not change, and the invariant holds |
| LedgerInvariants.UnlockStakeKeeps | contracts/core/StakeManager.sol:97-105 | unlocking moves neither stake nor deposit, and keeps the invariant |
| LedgerInvariants.StakeReleasedKeeps | contracts/core/StakeManager.sol:112-123 | before the payment, exactly the released stake is owed, and its withdrawal is recorded with its amount, time and delay |
| LedgerInvariants.NonceAcceptedKeeps | contracts/core/NonceManager.sol:36-41 | accepting a nonce keeps accepted numbers strictly increasing and below the next one |
| LedgerSafety.PayAdvances | contracts/core/StakeManager.sol:125-126 | a payment of money that is owed succeeds if and only if the receiver accepts, whatever it calls back |
| LedgerSafety.ValidatePrepaymentAdvances | contracts/core/EntryPoint.sol:631-689 | through all re-entrant calls of factory, account and paymaster, exactly the prefund becomes owed |
| LedgerSafety.ValidateAllAdvances | contracts/core/EntryPoint.sol:188-201 | after the validation loop exactly the sum of the prefunds is owed |
| LedgerSafety.PostExecutionAdvances | contracts/core/EntryPoint.sol:706-771 | the fee is at most the prefund, the refund never overflows, and only the fee stays owed |
| LedgerSafety.ExecuteUserOpAdvances | contracts/core/EntryPoint.sol:83-158 | an execution fails if and only if its inner call finds too little gas, and on every other exit turns the prefund into a fee no greater than it |
| LedgerSafety.ExecuteAllAdvances | contracts/core/EntryPoint.sol:203-208 | the loop ends at the first operation that lacks gas and at no other; else the unchecked sum of the fees is their exact sum and is what is owed |
| LedgerSafety.CompensateAdvances | contracts/core/EntryPoint.sol:70-74 | the payment succeeds if and only if the beneficiary is not zero and accepts |
| LedgerSafety.HandleOpsAdvances | contracts/core/EntryPoint.sol:181-212 | a successful bundle leaves nothing owed beyond what was before |
| LedgerSafety.ExecuteGroupsAdvances | contracts/core/EntryPoint.sol:270-282 | the sum across all groups is what is owed |
| LedgerSafety.HandleAggregatedOpsAdvances | contracts/core/EntryPoint.sol:215-286 | a successful grouped bundle leaves nothing owed beyond what was before |
| LedgerSafety.ApplyAllAdvances | contracts/core/EntryPoint.sol:181-286 | any sequence of calls from outside, at top level or re-entrant in the middle of a bundle, keeps the whole invariant and loses no event |
| LedgerTheorems.HistorySafe | contracts/core/EntryPoint.sol:28-821 | every reachable ledger satisfies the invariant |
| LedgerTheorems.HistoryAdvances | contracts/core/EntryPoint.sol:28-821 | from any point of a history to its end no event is lost |
| LedgerTheorems.SolventAlways | contracts/core/StakeManager.sol:52-144 | between transactions ether held = deposits + stakes + ether forced in |
| LedgerTheorems.DepositIsWithdrawable | contracts/core/StakeManager.sol:134-144 | in every reachable state, also inside a bundle, a withdrawal succeeds if and only if the deposit covers it and the receiver accepts; the amount leaves the caller's deposit alone, is paid, and the receiver calls back under the lock as it is |
| LedgerTheorems.PrefundTakenFromPayer | contracts/core/EntryPoint.sol:480-568 | validation debits the limits of the operation times its maxFeePerGas, once, from the paymaster it names, else from the sender, after the account's calls and, for a paymaster, before its own |
| LedgerTheorems.PrefundIsFeePlusRefund | contracts/core/EntryPoint.sol:83-158 | an execution fails with AA95 exactly if it is short of gas; else the operation pays its fee, computed from its own fields and readings, and the rest of the prefund is credited once to the party charged, on top of the surviving calls and nothing else; the calls survive if and only if the inner call does not abort, postOp, if due, does not revert, and the charge is within the prefund |
| LedgerTheorems.BundlePaysExactly | contracts/core/EntryPoint.sol:188-211 | a successful bundle pays the beneficiary the exact sum of the fees of its operations; after validation it fails only at the first operation that is short of gas, or for a beneficiary that is zero or refuses |
| LedgerTheorems.BundleEndsExactly | contracts/core/EntryPoint.sol:181-212 | a validated bundle fails with AA95 at i if and only if operation i is the first whose inner call does not abort on its own and has, at its check, 63/64 of its gas below callGasLimit + paymasterPostOpGasLimit + 10000, without wrapping; otherwise it succeeds if and only if the beneficiary takes the payment |
| LedgerTheorems.GasNeededIsExact | contracts/core/EntryPoint.sol:333-337 | the gas an operation needs is the exact sum for every operation that passed the gas check |
| LedgerTheorems.ValidatedIsChecked | contracts/core/EntryPoint.sol:639-688 | what validation leaves is filled from the fields and readings of this operation: prefund, gas so far, limits, fees and whether a context was left; the account and paymaster stayed within their verification limits |
| LedgerTheorems.ValidateAllFills | contracts/core/EntryPoint.sol:189-201 | the validation loop fills the info at each position from the operation at that position |
| LedgerTheorems.ChargeIsExact | contracts/core/EntryPoint.sol:737-751 | prefund, gas with penalty and cost of a validated operation are their exact values, and the gas charged is between gas used and gas reserved |
| LedgerTheorems.PrefundSuffices | contracts/core/EntryPoint.sol:751-753 | an operation charged no more gas than it reserved never exceeds its prefund, and pays its exact charge |
| LedgerTheorems.PaysExactCost | contracts/core/EntryPoint.sol:83-158 | no operation pays more than its prefund, or than the gas charged times the smaller of its maxFeePerGas and maxPriorityFeePerGas plus base fee; it pays exactly that if the gas is reserved and the sum does not wrap |
| LedgerTheorems.AcceptsNextNonce | contracts/core/NonceManager.sol:17-41 | a nonce is accepted if and only if getNonce returns it and the sequence number is below 2^64 |
| LedgerTheorems.AcceptanceMovesOn | contracts/core/NonceManager.sol:36-41 | accepting a nonce moves the sequence of its sender and key on by one, records it, and changes nothing else |
| LedgerTheorems.IncrementsOneSequence | contracts/core/NonceManager.sol:26-28 | incrementing moves the caller's own sequence of that key on by one and changes nothing else; it reverts exactly at the greatest number |
| LedgerTheorems.ShownNonceIsNext | contracts/core/NonceManager.sol:17-41 | for every key, the value getNonce shows is that key's next accepted nonce if and only if its sequence number is below 2^64 |
| LedgerTheorems.ShownNonceRefused | contracts/core/NonceManager.sol:17-20 | at 2^64 the value shown for key 1 is refused |
| LedgerTheorems.ShownNonceOfAnotherKey | contracts/core/NonceManager.sol:17-20 | at 2^64 the value shown for key 0 is accepted, as a nonce of key 1 |
| LedgerTheorems.AcceptedNonceIsRefused | contracts/core/NonceManager.sol:36-41 | in every reachable state a nonce that was accepted is refused |
| LedgerTheorems.ValidationUsesNonce | contracts/core/EntryPoint.sol:665-667 | a validated operation was not accepted before, whatever its account called meanwhile, and is recorded now |
| LedgerTheorems.BundleUsesNonces | contracts/core/EntryPoint.sol:181-212 | a bundle succeeds only with operations never accepted before, no two with the same sender and nonce |
| LedgerTheorems.AcceptanceIsInjective | contracts/core/NonceManager.sol:38-39 | two operations are recorded alike exactly when sender and nonce are the same |
| LedgerTheorems.NoReplay | contracts/core/NonceManager.sol:36-41 | over a whole history the accepted numbers of an account and key strictly increase |
| StakeLocking.WithdrawnStakeWasDue | contracts/core/StakeManager.sol:112-127 | every stake withdrawal takes the whole stake, after an unlock that is the account's last stake event, when the greatest delay declared since the withdrawal before is over |
| StakeLocking.MoneyIsExplained | contracts/core/StakeManager.sol:52-144 | between any two reachable states, also inside a bundle, stake and deposit of an account change by exactly what the new events lock, withdraw, send, refund and charge; stake falls only by a due withdrawal, a deposit only by its owner's withdrawal or a prefund |
| StakeLocking.CallsReleaseDueStakeOnly | contracts/core/StakeManager.sol:73-127 | the same for every sequence of calls from outside, at top level or re-entrant |
| StakeLocking.StakeStaysLocked | contracts/core/StakeManager.sol:73-127 | the same from any point of any history to its end |
| StakeLocking.LogExplainsBalances | contracts/core/StakeManager.sol:52-144 | in every history each deposit and each stake is, to the last wei, what the events of its account add up to |
| StakeLocking.StakedIsLocked | contracts/core/StakeManager.sol:73-127 | in every reachable state staked implies stake > 0, delay > 0 and no withdraw time, and the delay is the greatest one declared |
| StakeLocking.StakeIsWithdrawable | contracts/core/StakeManager.sol:112-127 | a withdrawal succeeds if and only if the stake is unlocking, its time has come and the receiver accepts; stake and delay become zero, the deposit stays, and the stake is paid to the receiver |
| StakeLocking.StakeIsUnlockable | contracts/core/StakeManager.sol:97-105 | unlocking succeeds if and only if the stake is locked and the end of the delay fits in 48 bits; that end becomes the withdraw time, and nothing else changes |
| StakeLocking.StakeIsAddable | contracts/core/StakeManager.sol:73-91 | adding stake succeeds if and only if the delay is positive and not below the greatest one declared, and the stake is positive and below 2^112; the whole stake is then locked with that delay, and nothing else changes |
| StakeLocking.DepositRoundTrip | contracts/core/StakeManager.sol:63-144 | what is deposited for an account it can withdraw, at any time, and then every account and the ether held are as before |
| StakeLocking.StakeRoundTrip | contracts/core/StakeManager.sol:73-127 | stake that is added, unlocked, and withdrawn when the delay is over is paid back in full, and then every account and the ether held are as before |
| StakeLocking.DelayIsEnforced | contracts/core/StakeManager.sol:97-105 | no withdrawal is possible before unlock time plus delay if and only if the unlock time is below 2^48 |
| AggregatedBundles.ExecuteGroupsAsList | contracts/core/EntryPoint.sol:272-282 | for any grouping the executions are those of the concatenated list, each with the info at its own position |
| AggregatedBundles.ValidateGroupsFills | contracts/core/EntryPoint.sol:246-266 | the info at each position was filled from the operation at that position |
| AggregatedBundles.LocalIndex | contracts/core/EntryPoint.sol:257-263 | counting from a local index changes only the index of failures in the validation data, by a fixed offset |
| AggregatedBundles.GroupingIsIrrelevant | contracts/core/EntryPoint.sol:215-286 | without aggregators the grouped bundle has the ledger or the failure code of the plain one; the index differs exactly for failures in the validation data, by the operations in earlier groups |
| AggregatedBundles.AggregatedBundleIsSafe | contracts/core/EntryPoint.sol:215-286 | a successful grouped bundle, with aggregators or not, uses every nonce once and pays the exact sum of the fees |
| BundleTheorems.LockedBundlesHaveNoEffect | contracts/core/EntryPoint.sol:181-218 | under the lock both bundle calls are refused, and any calls back do what they do without their bundles |
| BundleTheorems.ChecksSignaturesExactly | contracts/core/EntryPoint.sol:222-241 | the first group that names address 1, or whose aggregator refuses, fails the bundle; else all aggregators have made their calls, in order |
| BundleTheorems.VouchedExactly | contracts/core/EntryPoint.sol:227-238 | those rules pass if and only if no group names address 1 and every aggregator named accepts its signature |
| BundleTheorems.ValidateGroupsExactly | contracts/core/EntryPoint.sol:246-266 | operations are accepted across groups up to the first that is refused; its code is reported, with its index in the bundle or, for its data, in its group |
| BundleTheorems.ExecuteAllExactly | contracts/core/EntryPoint.sol:206-208 | the loop fails at the first operation short of gas; else each operation has its surviving calls and its one refund, in order, and the sum collected is the sum of the fees |
| BundleTheorems.HandleOpsExactly | contracts/core/EntryPoint.sol:181-212 | how any bundle ends: the first refused operation decides its failure; else the first one short of gas; else the beneficiary; else all are executed and the exact sum of the fees is paid out |
| BundleTheorems.HandleAggregatedOpsExactly | contracts/core/EntryPoint.sol:215-286 | the same for groups, after their aggregators have checked; the first broken signature rule decides its failure |
| BundleTheorems.BundleIsAuthorized | contracts/core/EntryPoint.sol:195-200 | in a bundle that succeeds every account's data names no aggregator and every paymaster's none, each in a window that contains the block time |
| BundleTheorems.AggregatedBundleIsAuthorized | contracts/core/EntryPoint.sol:227-263 | in a grouped bundle that succeeds no group names address 1, every aggregator vouched for its group, and every account names the aggregator of its group, in time |
| EntryPointContract.EntryPoint.DepositTo | contracts/core/StakeManager.sol:63-66 | the new storage is that of the ledger function, or the old one on a revert; the invariant holds after it |
| EntryPointContract.EntryPoint.AddStake | contracts/core/StakeManager.sol:73-91 | the new storage is that of the ledger function, or the old one when any of the requirements fails; the invariant holds after it |
| EntryPointContract.EntryPoint.UnlockStake | contracts/core/StakeManager.sol:97-105 | the new storage is that of the ledger function, or the old one when any of the requirements fails; the invariant holds after it |
| EntryPointContract.EntryPoint.WithdrawStake | contracts/core/StakeManager.sol:112-127 | releases and pays, with all the receiver calls back, as the ledger function says, or is undone as a whole; the invariant holds after it |
| EntryPointContract.EntryPoint.WithdrawTo | contracts/core/StakeManager.sol:134-144 | releases and pays, with all the receiver calls back, as the ledger function says, or is undone as a whole; the invariant holds after it |
| EntryPointContract.EntryPoint.IncrementNonce | contracts/core/NonceManager.sol:26-28 | the new storage is that of the ledger function; the invariant holds after it |
| EntryPointContract.EntryPoint.ValidateAndUpdateNonce | contracts/core/NonceManager.sol:36-41 | accepts and uses up the nonce, or fails as the ledger function says |
| EntryPointContract.EntryPoint.RunExternal | contracts/core/EntryPoint.sol:162-173 | made only in a solvent state with the lock held; leaves a solvent state |
| EntryPointContract.EntryPoint.Pay | contracts/core/EntryPoint.sol:70-74 | made only in a solvent state in which the value is owed; leaves a solvent state |
| EntryPointContract.EntryPoint.CreateSenderIfNeeded | contracts/core/EntryPoint.sol:437-463 | goes on, or fails with the code the ledger function says |
| EntryPointContract.EntryPoint.ValidateAccountPrepayment | contracts/core/EntryPoint.sol:480-522 | goes on in the state of the ledger function or fails with its code; exactly the prefund becomes owed when there is no paymaster |
| EntryPointContract.EntryPoint.ValidatePaymasterPrepayment | contracts/core/EntryPoint.sol:535-568 | goes on in the state of the ledger function or fails with its code; exactly the prefund becomes owed |
| EntryPointContract.EntryPoint.ValidatePrepayment | contracts/core/EntryPoint.sol:631-689 | the whole validation of an operation: state, info and failure code are those of the ledger function, and the prefund becomes owed |
| EntryPointContract.EntryPoint.PostExecution | contracts/core/EntryPoint.sol:706-771 | charges and refunds as the ledger function says, or reverts with its code |
| EntryPointContract.EntryPoint.InnerHandleOp | contracts/core/EntryPoint.sol:321-367 | ends as the ledger function says, in its state, or with the same kind of revert |
| EntryPointContract.EntryPoint.ExecuteUserOp | contracts/core/EntryPoint.sol:83-158 | with a reverted inner call undone, the state, fee and failure code are those of the ledger function, and the prefund owed becomes the fee |
| EntryPointContract.EntryPoint.ValidateRuns | contracts/core/EntryPoint.sol:189-201 | the loop fills the info array with the infos the ledger function says, and owes their prefunds |
| EntryPointContract.EntryPoint.ExecuteRuns | contracts/core/EntryPoint.sol:206-208 | the loop collects the fees the ledger function says; the sum never leaves a word |
| EntryPointContract.EntryPoint.Compensate | contracts/core/EntryPoint.sol:70-74 | pays the beneficiary as the ledger function says |
| EntryPointContract.EntryPoint.HandleOps | contracts/core/EntryPoint.sol:181-212 | the whole bundle under the lock: the ledger function's final state, or its failure with everything undone |
| EntryPointContract.EntryPoint.CheckSignatures | contracts/core/EntryPoint.sol:221-241 | the first loop over the groups, with the total number of operations |
| EntryPointContract.EntryPoint.HandleAggregatedOps | contracts/core/EntryPoint.sol:215-286 | the whole grouped bundle under the lock, or its failure with everything undone |

## Left out

- ZknoxNttAssembly.Inverse: for an even q, which has no inverse of an even length, stated only for arrays on which nothing wraps.
- ZknoxNttAssembly.InverseCopy: likewise for an even q.
- TestDecoders.DecompressS2: `decompressS2` in the wallet test reads zeros forever on input without enough ones; a budget of reads stands for that.
- HashToPoint.HashToPoint: the draws the gas pays for are a number; the clearing of the scratch bytes before each draw, which has no effect on the result, is not modelled.
- Of the literal tables ten entries of `psi_rev` are compared with the proved table; elsewhere the table laws are a hypothesis.
- `splitToHex`, which nothing calls.
- Keccak, the EIP-712 operation hash, ABI encoding, signatures of accounts and aggregators.
- Events, `console.log`, `getSenderAddress` and `delegateAndRevert` (which always revert), and view functions other than `getNonce`.
- Exact gas metering: readings are non-increasing and below 2^64; whether a call runs out of gas is part of its answer.
- `contextOffset` and the free-memory pointer: the context of an operation is a boolean, whether it is empty.
- The mode, gas price and cost passed to `postOp`, the funds an account is told are missing, and all other call data: external code is arbitrary.
- `EntryPointSimulations`, accounts, paymasters, factories and proxies: they are external code here.
- The vectors of `FalconConstants.sol`, the superseded decoder scripts and all network code.
