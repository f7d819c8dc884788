# Verification of the zkPI core

A Dafny model of the algorithms at the centre of this repository, and proofs of what they promise.
`dafny verify dfyconfig.toml` checks the whole project.

Six parts follow the program's own components.

**Share decoding.** `ShareDecoder` recovers a Shamir secret and names the wrong shares by
Berlekamp-Welch, on top of in-place elimination (`LinearSystem`) and Lagrange interpolation
(`Interpolation`). Scalars are integers modulo an arbitrary prime; inverses come from the extended
Euclidean algorithm (`Modular`), and everything algebraic is derived from there (`Polynomials`,
`Counting`). The main result is `ShareDecoder.Locate`: the verdict is decoded exactly when a
polynomial of the degree has few enough wrong shares, and then it is that polynomial's secret with
exactly its wrong shares; `BeyondCapacityIsAmbiguous` shows that one more cannot be resolved.

**Field plumbing.** Multi-limb arithmetic (`Limbs`, `BigNat`), Montgomery reduction (`Montgomery`),
and Shamir dealing with the generated circuit's closed-form binomial weights (`Binomial`,
`Dealing`), ending in `Dealing.DealAndRecombine`.

**Sigma protocols.** The group is modelled as pairs of integers modulo the prime, which is a module
with room for independent generators (`Group`); the transcript is the list of everything appended,
and the challenge an arbitrary function of it, passed in as a parameter. Completeness and special
soundness of the bit, range and interval proofs (`Sigma`, `BitRange`, `BitRangeProver`), of the
product proof alone and in a batch (`Products`), and of the Groth-Kohlweiss one-of-many proof
(`OneOfMany`, `OneOfManySound`); and what each challenge binds (`Binding`). Random draws are
parameters, so the completeness results hold for every draw; soundness is a computed extraction,
which ends in an opening or in a relation between the generators.

**Price rules.** The rule language's checker (`Intervals`, `PriceRules`), its clear evaluator and
its MP-SPDZ emission (`PriceEmission`), related by `PriceEmission.RuleFaithful`; what the checked
degrees and obligations are worth (`RuleObligations`); and the venue's own policy as such a rule
(`PolicyRule`).

**The quote auction.** The generated oblivious tournaments (`Tournament`), the clear scan they are
checked against (`QuoteScan`) and the packing sentinel (`Packing`).

**Durable state machines.** The corporate outbox (`OutboxSpec`, `OutboxClaims`, `OutboxRuns`,
`OutboxHistory`, `Outbox`), the receipt audit ledger (`Receipts`, `Settlement`, `AuditLedger`) and
the publication budget ledger (`Publication`, `PublicationRuns`, `PublicationRequests`). Each public
call is one atomic step on the data; classes hold the fields the calls rewrite, and every method is
proved to be the step of the state machine. Properties are proved of whole runs from the empty
state, and when a call succeeds is said of the run's calls or of the stored entries alone
(`OutboxClaims`, `Settlement.SettlesExactlyWhen`, `PublicationRequests.PublishedExactlyWhen`).

Some promises hold only under a condition. Where that is so the condition is exact, with a concrete
case where it fails, named in parentheses:

- `signed` gives its value the interval [-hi, hi], which covers it exactly when the magnitude's lo is
  at least -hi; otherwise the value can leave its interval, the circuit can differ from the
  evaluator, and the evaluator can panic (`SignedEscapes`, `EmissionDiverges`, `EvaluatorPanics`).
- The tournaments find the least packed key exactly when every level splits evenly. Maker counts are
  padded to powers of two, but the arity is not restricted to one (`FourByThreeLoses`).
- The tournament equals the clear scan exactly when nobody is eligible or some eligible maker's key
  lies below every excluded maker's sentinel key. The sentinel itself is only compared with the
  reference prices (`AcceptedSentinelUndercuts`).
- The circuit's prices are the clear reference's exactly when the price conditionals leave the
  skew alone; the clear scan does not apply them (`ConditionalMovesThePrice`).
- Persisted key differences fit the declared span exactly when the number of makers does; a negative
  reference lets a configuration with too many makers through (`NegativeReferenceOverflows`).
- Montgomery reduction leaves its work array exactly when the value and the multiple that clears its
  low limbs do not fit together, which takes more than 2w + 1 limbs (`FullArrayPanics`).
- The honest prover's one-of-many proof verifies exactly when the indexed commitment is a multiple of
  h by the randomness it was given, or the challenge is zero; its product proof exactly when the
  opening of the first factor it was given is right, or the challenge or the second factor is zero
  (`WrongOpeningRejected`, `WrongFactorRejected`).

## Model

| member | source | states |
|---|---|---|
| LinearSystem.Solve | rust/zkfmi-zk/src/shamir.rs:225-281 | Gaussian elimination in place leaves the arrays in reduced echelon form with the solutions they started with, and returns a solution exactly when the system as given has one; the solution is read off at the pivot columns and zero at every other |
| LinearSystem.Eliminate | rust/zkfmi-zk/src/shamir.rs:227-263 | the pivot loop ends in reduced echelon form, pivot columns rising and every pivot row zero left of its pivot, and keeps the solution set of the original system |
| LinearSystem.PivotStep | rust/zkfmi-zk/src/shamir.rs:230-262 | swap, scale and clear at one column: one more pivot column, zero left of it below, same solutions |
| LinearSystem.ClearRow | rust/zkfmi-zk/src/shamir.rs:245-256 | subtracting the pivot multiple clears the row's cell, leaves the cells to its left and every other row alone, and keeps the solutions |
| LinearSystem.ReadOffSolves | rust/zkfmi-zk/src/shamir.rs:270-280 | reading right-hand sides at the pivot columns solves an echelon system whose zero rows are consistent |
| Interpolation.Reconstruct | rust/zkfmi-zk/src/shamir.rs:83-98 | Lagrange at zero equals P(0) for every polynomial of low enough degree through the shares, for distinct points over a prime |
| Interpolation.Interpolate | rust/zkfmi-zk/src/shamir.rs:310-334 | the multiplied-out coefficients pass through every value and equal the Lagrange sum at every point |
| Interpolation.SumIsThePolynomial | rust/zkfmi-zk/src/shamir.rs:309-334 | uniqueness: a polynomial of low degree through the values is the Lagrange sum everywhere |
| Polynomials.RootBound | rust/zkfmi-zk/src/shamir.rs:203-210 | over a prime, a polynomial with at least as many roots as coefficients has only zero coefficients |
| Polynomials.EvalModIsEval | rust/zkfmi-zk/src/shamir.rs:45-50 | the reducing Horner fold is evaluation modulo the prime, in canonical form |
| ShareDecoder.Divide | rust/zkfmi-zk/src/shamir.rs:284-307 | quotient and remainder satisfy numerator = quotient * denominator + remainder at every point, the remainder is shorter than the denominator, and `exact` says it is zero |
| ShareDecoder.BuildSystem | rust/zkfmi-zk/src/shamir.rs:175-193 | the rows built power by power are the key equation of each party |
| ShareDecoder.KeyEquationSolvable | rust/zkfmi-zk/src/shamir.rs:169-197 | a polynomial with at most the given number of wrong shares always yields a solution of the key equation |
| ShareDecoder.SolutionFactors | rust/zkfmi-zk/src/shamir.rs:199-202 | any solution of the key equation factors through the polynomial, because the product has too few coefficients to disagree |
| ShareDecoder.LocatorRoots | rust/zkfmi-zk/src/shamir.rs:203-210 | at the true error count the locator vanishes exactly at the wrong parties |
| ShareDecoder.Welch | rust/zkfmi-zk/src/shamir.rs:169-222 | an accepted answer has exactly `errors` culprits and a polynomial through every other share; every candidate with that many errors is found, with its secret and its wrong parties |
| ShareDecoder.HonestPath | rust/zkfmi-zk/src/shamir.rs:138-150 | the first interpolation agrees exactly when some polynomial of the degree fits every share |
| ShareDecoder.CodewordsAgree | rust/zkfmi-zk/src/shamir.rs:32-38 | the code's distance: two polynomials whose wrong shares together leave degree + 1 good ones are the same, with the same wrong shares |
| ShareDecoder.Locate | rust/zkfmi-zk/src/shamir.rs:113-166 | with distinct points and at least degree + 1 shares: every polynomial of the degree with 2 * wrong + degree + 1 at most the number of shares is what the verdict reports, with exactly its wrong parties; a decoded verdict has such a polynomial, so `Beyond` is returned exactly when there is none, and its capacity is the largest number of wrong shares that fits; length and count errors first |
| ShareDecoder.DealCorruptLocate | rust/zkfmi-zk/src/shamir.rs:53-166 | deal, replace any shares as long as twice their number leaves as many as the polynomial has coefficients, decode: the secret returns and exactly the changed parties are named |
| ShareDecoder.Capacity | rust/zkfmi-zk/src/shamir.rs:32-38 | the capacity k is the one with 2k + degree + 1 <= n < 2k + degree + 3, and zero when the shares are too few |
| ShareDecoder.BeyondCapacityIsAmbiguous | rust/zkfmi-zk/src/shamir.rs:156-165 | no decoder can do better: for any distinct non-zero points some shares are within one more wrong share than the capacity of two polynomials of the degree with different secrets |
| Limbs.Normalize | rust/qomm-mpc/src/persistence.rs:204-208 | dropping high zero limbs keeps the value |
| Limbs.Compare | rust/qomm-mpc/src/persistence.rs:167-174 | the limb order on normalised elements is the order of their values |
| Limbs.Subtract | rust/qomm-mpc/src/persistence.rs:983-998 | borrowing subtraction yields the normalised difference |
| Montgomery.InverseModWord | rust/qomm-mpc/src/persistence.rs:1019-1024 | six wrapping Newton steps from one invert every odd word modulo 2^64 |
| Montgomery.NewtonStep | rust/qomm-mpc/src/persistence.rs:1021-1023 | one step turns an inverse modulo d into one modulo d squared, also when computed modulo a multiple |
| Montgomery.AddLimbs | rust/qomm-mpc/src/persistence.rs:1032-1038 | the inner loop adds multiplier * modulus at the offset up to one outgoing carry, and fixes what the first limb becomes |
| Montgomery.Ripple | rust/qomm-mpc/src/persistence.rs:1039-1045 | the carry loop stays inside the array exactly when the total fits it, and then preserves the total |
| Montgomery.Round | rust/qomm-mpc/src/persistence.rs:1030-1047 | one round zeroes its limb by adding a multiple of the modulus, and leaves the array exactly when the sum does not fit |
| Montgomery.ReduceRounds | rust/qomm-mpc/src/persistence.rs:1030-1047 | the rounds add the multiple below the radix that clears the low limbs; the carry leaves the 2w + 2 limbs exactly when value and multiple do not fit together, never for a value of 2w + 1 limbs |
| Montgomery.SubtractOnce | rust/qomm-mpc/src/persistence.rs:1049-1055 | one conditional subtraction brings the high limbs below the prime when the input was below prime * radix |
| Montgomery.FromMontgomery | rust/qomm-mpc/src/persistence.rs:1001-1056 | result * 2^(64w) is the value cut to the work array, modulo the prime, and below the prime whenever that is below prime * 2^(64w); both errors exactly, and the out-of-bounds panic exactly, which a value of at most 2w + 1 limbs never meets |
| Montgomery.FullArrayPanics | rust/qomm-mpc/src/persistence.rs:1039-1045 | four full limbs over a one-limb modulus of one carry out of the work array |
| BigNat.AddAssign | rust/qomm-mpc/src/inputs.rs:1224-1238 | limb addition is addition, and stays normalised |
| BigNat.MulSmallAssign | rust/qomm-mpc/src/inputs.rs:1275-1290 | limb scaling is multiplication, and stays normalised |
| BigNat.MulSmallAddMod | rust/qomm-mpc/src/inputs.rs:1292-1300 | repeated subtraction leaves (x * rhs + addend) modulo the modulus |
| BigNat.Modulo | rust/qomm-mpc/src/inputs.rs:1136-1143 | the residue of a signed integer below the modulus |
| Binomial.Absorption | rust/qomm-mpc/src/program.rs:456-471 | the running product divides exactly: choose(n, i) * i == choose(n, i - 1) * (n + 1 - i) |
| Binomial.AlternatingSumVanishes | rust/qomm-mpc/src/program.rs:448-451 | the n-th finite difference of a polynomial with at most n coefficients is zero |
| Binomial.BinomialsInterpolateAtZero | rust/qomm-mpc/src/program.rs:448-472 | signed binomials recombine the values of any such polynomial at 1..n into its value at zero |
| Dealing.DecimalSub | rust/qomm-mpc/src/program.rs:474-508 | digit-wise subtraction of the low digits the value has room for yields the decimal difference without leading zeros, or an error exactly when it would be negative |
| Dealing.OrderIsEd25519 | rust/qomm-mpc/src/program.rs:45-47 | the modulus is 2^252 + 27742317777372353535851937790883648493, section 5.1 of RFC 8032 |
| Dealing.LagrangeAtZero | rust/qomm-mpc/src/program.rs:452-472 | weight i is the i-th signed binomial modulo the order; it fails exactly when an intermediate product leaves 128 bits |
| Dealing.SmallCommitteesFit | rust/qomm-mpc/src/program.rs:459-464 | every committee of up to 120 parties gets its weights |
| Dealing.ShamirSplit | rust/qomm-mpc/src/inputs.rs:841-867 | the shares are the values at 1..n of a polynomial of threshold + 1 coefficients whose constant is the value modulo the prime; refused exactly below 2t + 1 nodes |
| Dealing.SecretInput | rust/qomm-mpc/src/program.rs:720-743 | the circuit's running total is the weighted sum of the shares |
| Dealing.DealAndRecombine | rust/qomm-mpc/src/program.rs:716-743 | for every value, threshold and random coefficients, recombining the dealt shares with the generated weights gives the value modulo the order |
| Group.TwoAnswersOpen | rust/zkfmi-zk/src/sigma.rs:139-155 | two answers to one commitment under different challenges give the exponent of the residual |
| Sigma.ZeroOpeningEquation | rust/zkfmi-zk/src/sigma.rs:85-155 | the one multiscalar check with a disabled generator is the Schnorr equation of the residual |
| Sigma.ZeroOpeningComplete | rust/zkfmi-zk/src/sigma.rs:114-155 | an honest zero opening verifies under every challenge |
| Sigma.BitComplete | rust/zkfmi-zk/src/sigma.rs:545-602 | an honest bit proof verifies for both bits, every draw and every challenge |
| Sigma.BitSound | rust/zkfmi-zk/src/sigma.rs:591-602 | two accepting answers to one first move yield an opening to zero or one |
| Binding.OpeningBinds | rust/zkfmi-zk/src/sigma.rs:67-82 | two opening challenges agree under every oracle exactly when transcript, commitment and first move do |
| Binding.ZeroOpeningBinds | rust/zkfmi-zk/src/sigma.rs:114-155 | so do two zero-opening challenges |
| Binding.ZeroApartFromOpening | rust/zkfmi-zk/src/sigma.rs:114-155 | over one transcript, a zero opening and an opening are never drawn alike |
| Binding.BitBinds | rust/zkfmi-zk/src/sigma.rs:604-615 | a bit challenge binds transcript, commitment and both first moves |
| Binding.ProductBinds | rust/zkfmi-zk/src/sigma.rs:370-389 | a product challenge binds transcript, all three commitments and both first moves |
| Binding.ComponentsApart | rust/zkfmi-zk/src/bitrange.rs:38-58 | a component transcript gives back its context and, for a bit, its position; no bit shares one with a linkage |
| Binding.LeafBinds | rust/zkfmi-zk/src/bitrange.rs:144-168 | a leaf's challenge binds the range proof's context, the bit's position, its commitment and both first moves |
| Binding.SidesApart | rust/zkfmi-zk/src/bitrange.rs:222-245 | the two sides of an interval proof, in whatever contexts, share no component |
| Binding.GkBinds | rust/zkfmi-zk/src/oneofmany.rs:42-77 | the membership challenge agrees under every oracle exactly when the transcript, the set the proof is about and every first-move list do |
| BitRange.Aggregate | rust/zkfmi-zk/src/bitrange.rs:169-174 | the doubling loop computes the sum of 2^j times the j-th bit commitment |
| BitRange.VerifyRange | rust/zkfmi-zk/src/bitrange.rs:144-179 | accepts exactly when the counts match, every bit proof verifies in its own context and the linkage opens the residual to zero |
| BitRange.VerifyBounded | rust/zkfmi-zk/src/bitrange.rs:250-296 | accepts exactly when both sides verify at the interval's own width, which is then the least width of at least one bit that holds high - low |
| BitRange.IntervalBitsBound | rust/zkfmi-zk/src/bitrange.rs:189-203 | the width holds the span, no smaller one of at least one bit does, and it never exceeds 64 bits |
| BitRange.RangeSound | rust/zkfmi-zk/src/bitrange.rs:143-179 | special soundness: two answers per leaf and linkage compute an integer below 2^bits and a blinding that the commitment opens to |
| BitRange.BoundedSound | rust/zkfmi-zk/src/bitrange.rs:250-296 | from two such answers to an interval proof one computes an opening to an integer in [low, high] or a non-trivial relation between the generators; the equal widths keep the two sides from wrapping |
| BitRangeProver.BinaryValue | rust/zkfmi-zk/src/bitrange.rs:90-92 | the low bits of a value that fits the width sum back to it |
| BitRangeProver.ProveRange | rust/zkfmi-zk/src/bitrange.rs:73-141 | errors exactly for values or widths out of range; otherwise the proof of a matching commitment verifies for every draw and challenge |
| BitRangeProver.ProveBounded | rust/zkfmi-zk/src/bitrange.rs:211-248 | errors exactly for an empty interval or a value outside it; otherwise the commitment is to the value, the proof verifies and has the least width that holds high - low |
| OneOfMany.PolyCoefficients | rust/zkfmi-zk/src/oneofmany.rs:99-115 | the convolution evaluates to the product of the selected linear factors everywhere, with the product of their slopes on top |
| OneOfMany.LeadIsUnit | rust/zkfmi-zk/src/oneofmany.rs:95-115 | the leading coefficient is one for the secret index and zero for every other |
| OneOfMany.ProductIsSelector | rust/zkfmi-zk/src/oneofmany.rs:235-246 | the verifier's product of honest responses is the prover's polynomial at the challenge |
| OneOfMany.CoefficientMove | rust/zkfmi-zk/src/oneofmany.rs:158-164 | point k commits to the k-th coefficients against the set, masked by h |
| OneOfMany.FinalResponse | rust/zkfmi-zk/src/oneofmany.rs:171-180 | the last response is r * x^m minus the masks' polynomial at x |
| OneOfMany.HonestSum | rust/zkfmi-zk/src/oneofmany.rs:232-255 | the verifier's multiscalar sum over an honest proof is x^m times what the selected commitment is short of r * h |
| OneOfMany.Verify | rust/zkfmi-zk/src/oneofmany.rs:193-256 | accepts exactly when the shape, both equations of every bit and the one multiscalar identity hold at the challenge; what that challenge binds is `Binding.GkBinds` |
| OneOfMany.Prove | rust/zkfmi-zk/src/oneofmany.rs:117-191 | completeness with its exact condition: the proof verifies exactly when the indexed commitment is h * r or the challenge is zero; size and index errors exactly |
| OneOfMany.WrongOpeningRejected | rust/zkfmi-zk/src/oneofmany.rs:117-191 | a literal set, opening and challenge for which the honest prover's proof is rejected |
| OneOfManySound.ExtractLine | rust/zkfmi-zk/src/oneofmany.rs:223-230 | from the answers to one bit: a relation between the generators, or a bit and the line every answer for it lies on |
| OneOfManySound.LastCheck | rust/zkfmi-zk/src/oneofmany.rs:232-255 | an accepted multiscalar identity, once all answers lie on lines: in each coordinate the low parts, x^m times the indexed commitment, the coefficient points and the last response cancel |
| OneOfManySound.TopCoefficient | rust/zkfmi-zk/src/oneofmany.rs:232-255 | cancelling at m + 1 different challenges, the indexed commitment is the top coefficient of the interpolated last responses times h |
| OneOfManySound.Extract | rust/zkfmi-zk/src/oneofmany.rs:193-256 | special soundness: m + 1 accepted answers to one first move compute an index whose commitment is a computed multiple of h, or a non-trivial relation between the generators |
| OneOfManySound.ExtractFromOracles | rust/zkfmi-zk/src/oneofmany.rs:193-256 | the same for proofs the verifier accepts under oracles that answer the first move differently |
| Products.HoldsIffResiduesVanish | rust/zkfmi-zk/src/sigma.rs:278-436 | checking the two halves apart is checking that both equations hold |
| Products.ProductVerifiesIff | rust/zkfmi-zk/src/sigma.rs:339-436 | an honest product proof verifies exactly when the given opening of the first factor is right, or the challenge or the second factor is zero |
| Products.WrongFactorRejected | rust/zkfmi-zk/src/sigma.rs:339-436 | a literal opening and challenge for which the honest prover's product proof is rejected |
| Products.ProductSound | rust/zkfmi-zk/src/sigma.rs:325-436 | two accepted answers to one first move open the second factor, and whatever the first factor opens to, the third commitment opens to the product |
| Products.BatchedIff | rust/zkfmi-zk/src/sigma.rs:391-475 | weighted by w and w^2 inside any batch: accepted at three different weights exactly when both equations hold and the rest of the batch sums to the identity, and then accepted at every weight |
| Intervals.TimesIsExact | rust/qomm-dsl/src/interval.rs:49-60 | a product of members lies between the extreme corners, and both extremes are attained |
| Intervals.WidthHolds | rust/qomm-dsl/src/interval.rs:76-80 | every member fits a signed word of the interval's width |
| Intervals.WidthIsTight | rust/qomm-dsl/src/interval.rs:76-80 | one bit less holds the interval exactly when its magnitude is reached only at lo = -2^k |
| Intervals.SignedCoverIff | rust/qomm-dsl/src/rule.rs:471-483 | [-hi, hi] covers both signs of a magnitude exactly when lo >= -hi |
| PriceRules.OutputInterval | rust/qomm-dsl/src/rule.rs:87-97 | the scan returns the least interval holding every output's, both ends attained |
| PriceRules.HullHolds | rust/qomm-dsl/src/rule.rs:87-103 | every output's interval lies in the combined one |
| PriceRules.AcceptedReadsItsDeclarations | rust/qomm-dsl/src/rule.rs:490-546 | an accepted rule reads exactly the names it declares and none that tells who is asking |
| PriceEmission.Faithful | rust/qomm-dsl/src/emit.rs:95-206 | for every accepted expression and in-range binding: evaluation succeeds, its value is in the checked interval, and the emitted expression has the same value |
| PriceEmission.EvalAndIsAll | rust/qomm-dsl/src/emit.rs:182-188 | the running `&=` over conditions is one exactly when all are |
| PriceEmission.JoinedIsAll | rust/qomm-dsl/src/emit.rs:120-128 | so is the product of the emitted conditions |
| PriceEmission.FaithfulIntrinsic | rust/qomm-dsl/src/emit.rs:129-145 | min, max, clamp and signed: clear value, interval and circuit agree |
| PriceEmission.RuleFaithful | rust/qomm-dsl/src/emit.rs:54-159 | whole rules: every output evaluates, is computed alike by the emitted circuit, lies in its interval and fits a signed word of the required bits |
| PriceEmission.BoundRuleFaithful | rust/qomm-dsl/src/emit.rs:71-93 | the same when the names are bound to expressions of a surrounding circuit; binding every declared name is enough |
| PriceEmission.QuoteIgnoresIdentity | rust/qomm-dsl/src/parse.rs:12-27 | environments that differ only in forbidden names give equal quotes |
| PriceEmission.OperatorsMean | rust/qomm-dsl/src/emit.rs:161-206 | each operator and each comparison evaluates to its own arithmetic meaning |
| PriceEmission.PairsMean | rust/qomm-dsl/src/emit.rs:161-206 | min, max, signed and the conjunction of two conditions, each on its own |
| PriceEmission.ClampMeans | rust/qomm-dsl/src/emit.rs:161-206 | clamp lies between its bounds, is the value itself when that does, and panics exactly when the bounds are in the wrong order |
| RuleObligations.DegreeIsPolynomial | rust/qomm-dsl/src/rule.rs:331-355 | an accepted arithmetic expression is, along every line of bindings, a polynomial with checked degree + 1 coefficients, at most three |
| RuleObligations.RangesSuffice | rust/qomm-dsl/src/rule.rs:357-485 | wherever an accepted expression compares, takes an extremum or clamps, a range among its obligations holds the difference on every in-range binding; every tested bit, selection and product of secrets is owed its proof |
| PriceEmission.SignedRuleIff | rust/qomm-dsl/src/rule.rs:471-483 | `signed` over a declared magnitude stays in its interval on every binding exactly when lo >= -hi |
| PriceEmission.SignedEscapes | rust/qomm-dsl/src/rule.rs:471-483 | a magnitude in [-10, 2] is given three bits and can be priced at 10 |
| PriceEmission.EmissionDiverges | rust/qomm-dsl/src/emit.rs:120-128 | such a value read as a condition makes the circuit and the evaluator differ |
| PriceEmission.EvaluatorPanics | rust/qomm-dsl/src/emit.rs:194 | such a value taken as a clamp bound makes the evaluator panic |
| PolicyRule.PolicyAccepted | rust/qomm-mpc/src/program.rs:293-336 | the whole policy rule passes every static check, anchored or not and with any number of price conditionals, with the stated interval for each of its five outputs |
| PolicyRule.RuleEvaluates | rust/qomm-mpc/src/inputs.rs:709-735 | evaluating the rule's ask and bid is the clear reference's formula, shifted by what the conditionals do to the skew |
| PolicyRule.EmittedPrices | rust/qomm-mpc/src/program.rs:344-376 | the price layer emitted from the rule exists for every binding of its names, and on every admitted maker and request its ask and bid lie in the static intervals and carry the reference's prices up to that shift |
| PolicyRule.EmittedPricesAreReferenceIff | rust/qomm-mpc/src/program.rs:293-376 | the circuit quotes the clear reference's ask and bid exactly when the skew is at least -200 under one conditional or more, and at most 400 under two or more |
| PolicyRule.AuctionOfAdmittedMakers | rust/qomm-mpc/src/program.rs:286-336 | with a sentinel above the policy's static interval the tournament over admitted makers' clear prices returns the clear scan's key, and its limit test is the scan's |
| PolicyRule.EmittedKeysIff | rust/qomm-mpc/src/program.rs:1465-1480 | the keys packed from the emitted ask and bid lanes are those packed from the clear reference's prices exactly when every eligible maker meets the price conditionals |
| PolicyRule.EmittedAuctionIsScan | rust/qomm-mpc/src/program.rs:344-376 | end to end: when they do, and the sentinel is above the static interval, the tournament over the keys packed from the emitted lanes returns the clear scan's key, and its limit test is the scan's |
| PolicyRule.ConditionalMovesThePrice | rust/qomm-mpc/src/program.rs:293-302 | an admitted, eligible maker with skew -32000 is asked at 800 by the circuit under one conditional and at -31000 by the clear reference |
| PolicyRule.AcceptedSentinelUndercuts | rust/qomm-mpc/src/program.rs:274-284 | the sentinel check alone compares with the references only: an accepted sentinel can lie below an eligible cost |
| Tournament.MinTree | rust/qomm-mpc/src/program.rs:1070-1081 | the in-place binary tournament computes the tournament winner for every length |
| Tournament.KaryLevel | rust/qomm-mpc/src/program.rs:1100-1125 | one level overwrites the first cells by each group's least, for distinct keys |
| Tournament.LaneWinner | rust/qomm-mpc/src/program.rs:1107-1123 | the sum of the terms of rank zero is the least key of the group |
| Tournament.RankFits | rust/qomm-mpc/src/program.rs:1115-1121 | every rank fits the narrow word its equality test uses |
| Tournament.MinKary | rust/qomm-mpc/src/program.rs:1084-1097 | the arity-k tournament computes the tournament winner |
| Tournament.ArgminFillBinary | rust/qomm-mpc/src/program.rs:1142-1187 | the folded last level returns the winner and whether it is within the limit |
| Tournament.LastSquare | rust/qomm-mpc/src/program.rs:1197-1227 | the square of finalists selects the least one and its own fill bit |
| Tournament.ArgminFillKary | rust/qomm-mpc/src/program.rs:1190-1227 | the arity-k form returns the winner and whether it is within the limit |
| Tournament.LevelKeepsLeast | rust/qomm-mpc/src/program.rs:1100-1125 | a level that leaves nobody out keeps the least key |
| Tournament.PackOrders | rust/qomm-mpc/src/program.rs:1055-1064 | packed keys order by cost, then by index, and are equal only for the same cost and index; a limit key is met exactly when the cost limit is |
| Tournament.SameOrderWinner | rust/qomm-mpc/src/program.rs:1070-1125 | only the order of the keys decides which place wins |
| Tournament.CorrectExactlyWhenEven | rust/qomm-mpc/src/program.rs:1055-1125 | the winner is the least packed key of every vector of n costs exactly when every level splits evenly |
| Tournament.PowersSplit | rust/qomm-mpc/src/program.rs:388-394 | power-of-two counts and arities always split evenly |
| Tournament.FourByThreeLoses | rust/qomm-mpc/src/program.rs:1100-1125 | costs 3, 2, 1, 0, packed as 12, 9, 6, 3 and played three at a time, are won by 6 |
| QuoteScan.PriceMaker | rust/qomm-mpc/src/inputs.rs:708-735 | the checked steps give the maker's ask and bid, or the first of them that leaves the 128-bit integer |
| QuoteScan.CleartextReference | rust/qomm-mpc/src/inputs.rs:695-792 | the scan fails exactly when some maker's prices overflow, with the first such error; otherwise it records every quote and returns the least eligible cost, ask and negated bid, ties to the lowest index |
| QuoteScan.GateIsCost | rust/qomm-mpc/src/program.rs:1348-1465 | the product of gate bits and the two selections give the maker's cost when eligible and the sentinel otherwise |
| QuoteScan.KeysAreDistinct | rust/qomm-mpc/src/program.rs:1055-1064 | the packed keys of one auction are pairwise distinct |
| QuoteScan.Auction | rust/qomm-mpc/src/program.rs:1476-1518 | gating, packing and searching, binary up to arity two, return the tournament winner and its fill bit, both zeroed on a cover lane |
| QuoteScan.TournamentIsScanIff | rust/qomm-mpc/src/inputs.rs:638-693 | the tournament returns the clear scan's key exactly when nobody is eligible or some eligible maker's key lies below the sentinel key of every excluded maker |
| QuoteScan.AuctionIsScan | rust/qomm-mpc/src/program.rs:1496-1513 | under that condition the key is the clear scan's, the sentinel's when nobody is eligible, and the limit test on keys is the limit test on costs |
| QuoteScan.AuctionWithReference | rust/qomm-mpc/src/program.rs:1476-1518 | scan and auction run together: on a real lane the opened key is the scan's finished key and the fill bit says whether its best cost is within the requester's limit; on a cover lane both are zero |
| QuoteScan.UnevenAuctionLoses | rust/qomm-mpc/src/program.rs:1100-1125 | for every uneven size there are that many eligible makers whose auction, whatever the sentinel, does not return the clear scan's key |
| Packing.SentinelFor | rust/qomm-mpc/src/program.rs:396-415 | an accepted sentinel exceeds the given cost and is the largest that leaves two bits of headroom over all makers |
| Packing.PackingAcceptedIff | rust/qomm-mpc/src/program.rs:274-284 | a configuration is accepted exactly when makers times one more than eight times every reference fits two bits below the narrower of circuit width and declared span |
| Packing.SpanHoldsIff | rust/qomm-mpc/src/program.rs:274-284 | for every accepted configuration: all key differences of gated costs fit the declared span exactly when the number of makers does |
| Packing.NonNegativeReferencesFit | rust/qomm-mpc/src/program.rs:1484-1491 | non-negative references make every difference fit and every biased key non-negative |
| Packing.PersistedDifferencesFit | rust/qomm-mpc/src/program.rs:1806-1816 | every persisted difference from the winning key is in [0, 2^span) |
| Packing.NegativeReferenceOverflows | rust/qomm-mpc/src/program.rs:274-284 | with a negative reference 1024 makers in two bits are accepted and overflow |
| Outbox.NewOutbox | rust/zkpi-committee/src/corporate_outbox.rs:211-229 | opens exactly with a long enough passphrase and positive limits, and empty |
| OutboxSpec.Oldest | rust/zkpi-committee/src/corporate_outbox.rs:815-824 | the entry of a kind with the least sequence number, or none of the kind |
| Outbox.FindOldest | rust/zkpi-committee/src/corporate_outbox.rs:815-824 | the filtered minimum over the entries |
| Outbox.ClaimFrom | rust/zkpi-committee/src/corporate_outbox.rs:802-922 | the claim loop ends with what the entries call for: the oldest pending release is reported; else the oldest late request expires; else, with a healthy quorum, the oldest request with attempts left goes out at its next attempt when it is queued or its doubled wait (at most five minutes) is over, and is held before; requests out of attempts ahead of it are set aside; its non-dispatchable branch is unreachable |
| OutboxClaims.ReadyWhenDue | rust/zkpi-committee/src/corporate_outbox.rs:894-901 | the saturating shifted delay is over exactly when five minutes, or the wait times 1, 2, 4, ..., 128, have passed, or the clock is at its end |
| OutboxClaims.ClaimNextAnswers | rust/zkpi-committee/src/corporate_outbox.rs:356-367 | a claim on any valid data gives that answer and stores exactly what it says |
| OutboxClaims.CoverSlotAnswers | rust/zkpi-committee/src/corporate_outbox.rs:369-429 | so does a claimed cover slot, a dummy standing for nothing to send; a cover call that claims no slot leaves the queue alone |
| Outbox.CorporateOutbox.Commit | rust/zkpi-committee/src/corporate_outbox.rs:695-709 | a write counts its generation; the data check after an operation never refuses |
| Outbox.CorporateOutbox.EnqueueRequest | rust/zkpi-committee/src/corporate_outbox.rs:250-300 | enqueueing is its step: idempotent for the same request, refused for a reused id, a full box or malformed input |
| Outbox.CorporateOutbox.EnqueueOnFirstSight | rust/zkpi-committee/src/corporate_outbox.rs:302-354 | the same, keeping the acceptance time of the first sight |
| Outbox.CorporateOutbox.NextAction | rust/zkpi-committee/src/corporate_outbox.rs:356-367 | claiming is its step |
| Outbox.CorporateOutbox.NextCoverSlot | rust/zkpi-committee/src/corporate_outbox.rs:369-429 | one cover slot is its step; the unhealthy-quorum error branch is unreachable |
| Outbox.CorporateOutbox.RecordAdmission | rust/zkpi-committee/src/corporate_outbox.rs:431-461 | admission is its step: it moves a dispatched request and repeats harmlessly |
| Outbox.CorporateOutbox.RecordSettled | rust/zkpi-committee/src/corporate_outbox.rs:463-487 | settlement is its step: it closes a dispatched or admitted request and repeats for the same transition only |
| Outbox.CorporateOutbox.RequestRelease | rust/zkpi-committee/src/corporate_outbox.rs:489-506 | asking for a release is its step: only from expiry or review, or as a repetition |
| Outbox.CorporateOutbox.RecordReleased | rust/zkpi-committee/src/corporate_outbox.rs:508-535 | release is its step: it closes anything that is not final and repeats for the same transition only |
| Outbox.CorporateOutbox.RecordAbort | rust/zkpi-committee/src/corporate_outbox.rs:537-567 | aborting is its step: only before admission, or as a repetition |
| Outbox.CorporateOutbox.SetAsideForReview | rust/zkpi-committee/src/corporate_outbox.rs:589-614 | review is its step: from anything that is not final, with a reason of bounded length |
| Outbox.CorporateOutbox.Prune | rust/zkpi-committee/src/corporate_outbox.rs:617-633 | pruning removes exactly what was finalised before the given time |
| OutboxRuns.StepKeepsInv | rust/zkpi-committee/src/corporate_outbox.rs:763-799 | every call keeps the data valid, with unique sequence numbers below the next one |
| OutboxRuns.ClaimMoves | rust/zkpi-committee/src/corporate_outbox.rs:802-922 | a claim only moves requests forward, dispatches to a healthy quorum only what is not overdue, and the dispatched request is the oldest live one |
| OutboxRuns.DispatchTrace | rust/zkpi-committee/src/corporate_outbox.rs:802-922 | over every run: dispatches never fall in sequence, each request goes out at attempts 1, 2, up to 10 with the same bytes, before its expiry and only to a healthy quorum |
| OutboxRuns.NeverDispatchedAgain | rust/zkpi-committee/src/corporate_outbox.rs:863-921 | once a request has left the queue no later call dispatches it |
| OutboxRuns.FinalIsForever | rust/zkpi-committee/src/corporate_outbox.rs:431-614 | settled, released and aborted never change, whatever follows |
| OutboxRuns.DisappearsOnlyWhenFinal | rust/zkpi-committee/src/corporate_outbox.rs:617-633 | an accepted request is present with all it was accepted with, or was pruned while final |
| OutboxHistory.PruneRemovesExactly | rust/zkpi-committee/src/corporate_outbox.rs:617-633 | pruning removes exactly the requests finalised before the given time, and counts them |
| OutboxHistory.EnqueueStores | rust/zkpi-committee/src/corporate_outbox.rs:250-354 | a new request is stored queued with the caller's bytes, times and the next sequence number, exactly when it is well formed and there is room; the same request again is recognised exactly; anything else changes nothing |
| OutboxHistory.SettlementTaken | rust/zkpi-committee/src/corporate_outbox.rs:463-487 | a settlement is taken exactly from a dispatched or admitted request, or again for the same transition, and leaves it settled by that receipt |
| OutboxHistory.ReleaseTaken | rust/zkpi-committee/src/corporate_outbox.rs:508-535 | a release is taken exactly from what is not final, or again for the same transition, and leaves it released |
| OutboxHistory.AbortTaken | rust/zkpi-committee/src/corporate_outbox.rs:537-567 | an abort is taken exactly from what is neither admitted, settled nor released, and leaves it aborted |
| OutboxHistory.AdmissionTaken | rust/zkpi-committee/src/corporate_outbox.rs:431-461 | an admission moves a dispatched request and is otherwise a repetition or refused |
| OutboxHistory.ReleaseRequestTaken | rust/zkpi-committee/src/corporate_outbox.rs:489-506 | a release is asked for exactly from expiry or review, or again |
| OutboxHistory.ReviewTaken | rust/zkpi-committee/src/corporate_outbox.rs:589-614 | anything not final can be set aside, and nothing else |
| OutboxHistory.UnaddressedRefused | rust/zkpi-committee/src/corporate_outbox.rs:924-980 | a report on an unknown request, on other bytes, or malformed, changes nothing |
| OutboxHistory.RunIsAccounted | rust/zkpi-committee/src/corporate_outbox.rs:250-614 | over every run: each entry and each dispatch carries the bytes and expiry a call asked for; what is in flight, admitted or settled was dispatched; each final state was reported for the digest of these bytes |
| OutboxRuns.PendingReleaseBlocks | rust/zkpi-committee/src/corporate_outbox.rs:808-830 | while a release is pending every claim that is answered, and every cover slot that is due, surfaces the oldest one, moves nothing and dispatches nothing |
| OutboxRuns.HeldUntilResolved | rust/zkpi-committee/src/corporate_outbox.rs:808-830 | over every run: until a call records the release, aborts the request or sets it aside, a pending release stays pending and not one request is dispatched |
| OutboxRuns.RunSchedule | rust/zkpi-committee/src/corporate_outbox.rs:371-429 | the slots and due times of a run are those of a schedule that reads only the clock and the interval |
| OutboxRuns.ScheduleHidesTheQueue | rust/zkpi-committee/src/corporate_outbox.rs:369-429 | two runs with the same cover calls tick alike, whatever else happened to the queue |
| OutboxRuns.ScheduleIsArithmetic | rust/zkpi-committee/src/corporate_outbox.rs:369-429 | in every run from the empty outbox whose cover calls use one interval, slot k is due k intervals after the first, which is due when the first acceptable cover call was made |
| OutboxRuns.TicksWhenDue | rust/zkpi-committee/src/corporate_outbox.rs:371-429 | after any such run a cover call claims the next slot exactly when it is due and still countable |
| AuditLedger.Ledger.OpenSlot | rust/qomm-audit/src/receipts.rs:186-189 | opening keeps the receipts already filed |
| AuditLedger.Ledger.RecordReceipt | rust/qomm-audit/src/receipts.rs:191-303 | recording files a verified receipt and appends exactly the evidence found, in order; receipts for unopened slots and of unknown nodes are reported only |
| AuditLedger.ScanEarlier | rust/qomm-audit/src/receipts.rs:261-273 | one exhibit pair for every earlier receipt with different content |
| AuditLedger.Tally | rust/qomm-audit/src/receipts.rs:335-354 | the tally lists, per new state, exactly the nodes with a counting receipt |
| AuditLedger.MostVoted | rust/qomm-audit/src/receipts.rs:355-360 | the plurality has the most distinct nodes, ties to the last state in order |
| AuditLedger.Lates | rust/qomm-audit/src/receipts.rs:316-334 | one entry for every registered node without a timely receipt, in ascending order |
| AuditLedger.Forks | rust/qomm-audit/src/receipts.rs:361-373 | one entry for every supporter of every other state, state by state and node by node in ascending order |
| AuditLedger.Ledger.SettleSlot | rust/qomm-audit/src/receipts.rs:305-384 | settling advances only to a plurality with the required count, and appends exactly who was late, who forked and what stayed unresolved, in that order |
| Receipts.StepKeepsInv | rust/qomm-audit/src/receipts.rs:186-384 | every event keeps only verified receipts of registered nodes on file, every contradiction among them on record, and loses nothing |
| Receipts.AccountableSafety | rust/qomm-audit/src/receipts.rs:186-384 | if a slot settles to A under q1 and later to B under q2, at least q1 + q2 - n of the n registered nodes are convicted of equivocation in the ledger |
| Receipts.ConvictionsStand | rust/qomm-audit/src/receipts.rs:255-274 | every recorded equivocation exhibits two verified receipts of that node and slot with different content |
| Receipts.ConvictedIffContradicting | rust/qomm-audit/src/receipts.rs:191-303 | a run convicts a node exactly when it filed two of the node's receipts for that slot with different content |
| Receipts.HonestAreNeverConvicted | rust/qomm-audit/src/receipts.rs:255-274 | a node none of whose verified receipts recorded in the run contradict each other is not convicted |
| Settlement.EarliestIsKept | rust/qomm-audit/src/receipts.rs:249-254 | over every run, the arrival held for a node and slot is the earliest recorded with a filed receipt |
| Settlement.SettlesExactlyWhen | rust/qomm-audit/src/receipts.rs:335-384 | over every run: a slot settles to d exactly when the nodes with a matching receipt in time for d outnumber those for any other state (ties to the greater digest) and are as many as its last opening required |
| Settlement.EnoughVotesSettle | rust/qomm-audit/src/receipts.rs:335-384 | a slot with the required number of matching receipts in time for one state settles |
| Settlement.SettlingNames | rust/qomm-audit/src/receipts.rs:316-379 | settling names as late exactly the registered nodes with no receipt in time, as forked exactly the voters of a losing state, and as unresolved exactly a winner with too few voters |
| Settlement.RecordNames | rust/qomm-audit/src/receipts.rs:224-303 | a filed receipt is reported exactly for another market, deadline, maker set or settled predecessor, and for each earlier receipt it contradicts |
| Settlement.RunKeeps | rust/qomm-audit/src/receipts.rs:186-384 | a run keeps the result of each slot's last settling, and exactly the evidence its calls left |
| Publication.CountSigners | rust/qomm-audit/src/publication_ledger.rs:243-265 | the seen-set loop counts the distinct registered nodes whose first signature checks |
| Publication.SignersHaveOwnKeys | rust/qomm-audit/src/publication.rs:17-24 | over an independent registry, counting signers is counting distinct classical keys, and counting distinct post-quantum keys |
| Publication.Verify | rust/qomm-audit/src/publication.rs:230-276 | accepts exactly a valid statement that continues its predecessor and carries a threshold of distinct registered signers |
| PublicationRuns.OpenWithRegistries | rust/qomm-audit/src/publication_ledger.rs:185-228 | opens exactly over two 3-of-7 registries, each of independent keys, and empty; the two may be the same |
| PublicationRuns.PublicationLedger.ConfigureBudget | rust/qomm-audit/src/publication_ledger.rs:279-318 | a budget is installed, with nothing spent, exactly when its allocation is complete, approved by a governance quorum and new; otherwise nothing changes |
| PublicationRuns.PublicationLedger.PublishWith | rust/qomm-audit/src/publication_ledger.rs:323-417 | publishing is its step for the answer the signers gave to the drafted statement; the certificate says field by field what request and mechanism say, from the balance the budget had, and debits the mechanism's epsilon; a refusal changes nothing |
| PublicationRuns.StepKeepsInv | rust/qomm-audit/src/publication_ledger.rs:279-417 | every call keeps each budget's record equal to the state of its certificate chain |
| PublicationRuns.BudgetChain | rust/qomm-audit/src/publication_ledger.rs:320-417 | over every run: spent is the sum of the epsilons published under the budget and within its allocation, epochs rise, each certificate carries a quorum and links to its predecessor's digest and closing balance |
| PublicationRuns.OperationsAreUnique | rust/qomm-audit/src/publication_ledger.rs:337-340 | no operation identifier is committed twice, and every certificate belongs to an approved budget |
| PublicationRuns.BudgetsNeverReset | rust/qomm-audit/src/publication_ledger.rs:277-301 | a configured budget keeps its allocation and its spent amount never shrinks |
| Publication.DigestBinds | rust/qomm-audit/src/publication.rs:218-228 | a certificate's digest binds its statement and, node by node, its signatures, and not the order of the nodes |
| PublicationRequests.CertificatesAreAsRequested | rust/qomm-audit/src/publication_ledger.rs:364-388 | over every run, the certificates are one for one the answers to the accepted requests, every field from the request or its mechanism |
| PublicationRequests.SpentIsRequested | rust/qomm-audit/src/publication_ledger.rs:353-405 | over every run, what a budget has spent is the sum of the epsilons of the requests accepted under it |
| PublicationRequests.PublishedExactlyWhen | rust/qomm-audit/src/publication_ledger.rs:323-417 | after every run, a request is published exactly when it is complete, its operation new, its epoch later than every one before, its epsilon within what is left, the last certificate readable, and a quorum signed the one statement it leads to |

## Left out

- ShareDecoder.Locate: the text of the `Beyond` reason is modelled by its kind.
- QuoteScan.CleartextReference: negating the least 128-bit bid, which the source does unchecked, is reported as one more overflow error.
- PriceEmission.Faithful: 128-bit overflow of the evaluator is not modelled; the emitted text is modelled as an expression tree, and comparisons in the circuit as exact ones.
- Publication.Verify: whether the mechanism's delta suffices is a parameter, because it is a floating-point comparison; blank names are recognised by ASCII white space only.
- Publication.DigestBinds: the source hashes node names and signatures back to back; the model keeps them apart.
- The linear and cross-generator sigma proofs, whose algebra repeats the zero opening's and the product's.
- The text, target and detail of proof obligations, the obligations for declared bounds, and the grouping of obligations into an audit plan.
- Parsing of rules and declarations, and rendering of expressions, which drops parentheses.
- The ask and bid keys of the continuous mode, additive sharing, the input check and the masks of the generated program.
- Read-only reports of the outbox (summaries and metrics), and the bond ledger of the receipt audit.
- Files, locks, encryption, permissions and encodings under the outbox and the ledgers; SHA-256, hybrid signatures and the transcript construction, which are modelled by injective values, predicates and functions.
- Random number generation: every random value is a parameter.
