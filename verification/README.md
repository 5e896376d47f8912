# Shielded vote chain: verified model

A Dafny model of the voting chain's threshold tally and of the code around it, with proofs about every
input, every run or every reachable state.

* **Threshold cryptography.** Shamir splitting, Lagrange coefficients and combination in the exponent
  (`Shamir`, over `Field`, `Polynomial`, `Lagrange`, `Group`), Feldman commitments (`Feldman`), additive
  ElGamal (`ElGamal`), baby-step giant-step (`Bsgs`), the two Sigma proofs (`Sigma`) and the byte strings
  they hash (`Transcript`).
* **Key ceremony.** Hybrid encryption (`Ecies`), the coefficient file and the recovery of a share
  (`Ceremony`), the same recovery on mutable scalar objects that are wiped on return (`AckHandler`),
  dealing by every validator (`Dealing`), and the honest ceremony through the chain's handlers
  (`HonestCeremony`).
* **Round lifecycle.** A state machine of one voting round, with the message handlers and the end-of-block
  timeouts as transitions (`Round`), exactly when each takes effect (`StepLaws`), its invariant over all runs
  (`Lifecycle`), which votes of a run count (`VoteCount`), who took part (`Participation`), and the proposer's
  decryption of the tally (`Tally`).
* **Proposals.** Filtering of share submissions and byte trimming (`ShareFilter`), block building
  (`ProposalBuild`), block judging (`ProposalCheck`), their agreement (`ProposalAgreement`) and what an accepted
  block guarantees (`ProposalSafety`).
* **Note commitment roots.** Padded tree, frontier (`Merkle`), level arrays with authentication paths
  (`MerkleLevels`), and the frontier's wire format (`FrontierCodec`).
* **Key-value view.** Prefix scans (`PrefixScan`), what a prefix shows of a shared store (`PrefixedView`), the
  reference of a private ordered map with snapshot scans (`PrivateMap`), the in-memory store with its
  iterators and proxy (`KvStore`), and two proxies used at once (`KvInterleaving`).
* **Two stateful algorithms.** The signature merge for round configurations (`SignatureMerge`,
  `ConfigMerge`) and the capped funding migration (`Funding`).

The headline results are `VoteCount.PublishedTotalsCountEveryVote` and `Tally.TallyEndToEnd`: whatever
happens in a round and whichever threshold of validators answers, the totals published for it are the
sums of exactly the votes that count, read off the run's messages. `HonestCeremony.HonestCeremonyCompletes`, `RecoveredShareAnswers` and
`ShareServesForever` carry the dealt contributions through the chain's handlers: the key stored is the sum of
the secrets, and each recovered share answers to its verification key in every later state, which is what
`ProposalAgreement.InjectedPartialsStored` asks of a share file.

## Conventions

Scalars are the residues modulo an arbitrary prime `Q`; points are represented by their discrete
logarithm, which is faithful because the Pallas group has prime order. Hashes, the AEAD and the library
encodings are the fields of `Ecies.Suite`; `Ecies.Lawful` lists everything that is assumed of them
(encodings invert, opening a sealed message returns it). Hash-to-scalar and hashes are uninterpreted.
Randomness, nonces, file contents, the proposer's identity and the byte size of a transaction are
parameters. Go maps iterated in unspecified order are visited in an arbitrary order, and the results are
proved independent of it. 64-bit wrap-around is modelled where it matters (`Bsgs.Index`).

## Where the code and its promises differ

* Baby-step giant-step overflows 64 bits for bounds above (2^32 - 1)^2: `Bsgs.CorrectIffBoundFits` gives the exact
  bound, `Bsgs.SearchWraps` the input that goes wrong. The chain's bound of 2^28 is far below it.
* `ThresholdForN` has a lower limit of two for n of two or more that never takes effect
  (`Round.ThresholdLimitIdle`).
* The acknowledgment handler wipes its coefficient objects on return. For a round with threshold one and no other
  contributor the returned key object is one of them and comes back as zero, while the returned bytes are
  right: `AckHandler.AckDKGRound`; `HonestCeremony.SoleValidatorGetsZeroKey` is an instance.
* A partial-decryption proof is generated for an identity C1 but never verifies: `Sigma.DleqComplete`.
* The partial-decryption injector does not look at the round's threshold, the checker rejects threshold
  zero: `ProposalAgreement.BuilderCheckerAgree` is the exact condition, `ThresholdZeroDisagrees` an instance. No reachable
  round is affected (`HonestProposalAccepted`).
* The end key of a prefix scan keeps its trailing zero bytes, so that a short key can fall into the range:
  `PrefixScan.RangeExact` says which, `PrefixScan.ExactForAllKeys` for which prefixes there is none. An
  empty prefix scans nothing.
* The key-value callbacks panic on an empty value and on an empty stripped key: `SvKvGet`, `SvKvIterNext`.
* Merging a configuration entry of the legacy version 1 drops the version-1 signatures already there, because the
  legacy case is tested before the case of the incoming version: `ConfigMerge.MergeKeepsVersion` is the exact
  condition under which the signatures of the incoming version survive, `ConfigMerge.LegacyMergeDrops` a losing
  instance. The request handler admits only version 2 (internal/admin/config_pr.go:422).
* An honest dealer can still be refused: a zero coefficient or a sum of polynomials that vanishes at 0 or at an
  index makes the ceremony fail, a zero share makes an acknowledgment fail (`HonestCeremony.HonestCeremonyCompletes`,
  `Dealing.EveryAckSucceeds` give both exactly).
* A vote manager list that names the module account before another manager breaks the promised final balance:
  `Funding.PromiseExact` is the exact condition.

## Model

| member | source | states |
|---|---|---|
| `Shamir.EvalPolynomial` | crypto/shamir/shamir.go:118-134 | Horner's loop returns the power sum of the coefficients at x, reduced |
| `Shamir.Split` | crypto/shamir/shamir.go:32-60 | succeeds exactly for 1 <= t <= n; n shares, the i-th at index i+1 being the value there of the polynomial with the secret as constant term |
| `Shamir.LagrangeCoefficients` | crypto/shamir/shamir.go:69-112 | succeeds exactly for a non-empty list of positive indices distinct modulo q; all denominators then invert and the result is a Lagrange basis for the target |
| `Shamir.CheckIndices` | crypto/shamir/shamir.go:74-84 | accepts exactly the lists of positive indices in which none is repeated |
| `Shamir.BasisFraction` | crypto/shamir/shamir.go:89-102 | the accumulated numerator and denominator are the products of distances over the other indices |
| `Lagrange.BasisSumsToOne` | crypto/shamir/shamir.go:69-112 | the coefficients of every basis add up to one |
| `Lagrange.Reconstruction` | crypto/shamir/shamir.go:69-112 | for every polynomial with at most as many coefficients as there are indices, the weighted sum of its values is its value at the target |
| `Shamir.CombinePartials` | crypto/shamir/partial_decrypt.go:48-71 | succeeds exactly for a non-empty list of at least t partials at positive indices distinct modulo q (a t of zero or less asks for nothing more); the result is the Lagrange combination in the exponent |
| `Shamir.ThresholdCombination` | crypto/shamir/partial_decrypt.go:48-71 | partials of any polynomial of at most their number of coefficients combine to f(0) times C1 |
| `Shamir.SubsetIndependence` | app/prepare_proposal_partial_decrypt.go:116-124 | any two sufficient sets of partials of one polynomial combine to the same point |
| `Feldman.FeldmanCommit` | crypto/shamir/feldman.go:19-40 | fails exactly on an identity base or no coefficients; commits to every coefficient in order |
| `Feldman.EvalCommitmentPolynomial` | crypto/shamir/feldman.go:142-168 | Horner in the group computes the commitment polynomial at the index; fails exactly for no commitments or an index below one |
| `Feldman.VerifyFeldmanShare` | crypto/shamir/feldman.go:49-73 | when its inputs are usable the verdict is whether share times G is the commitment polynomial at the index |
| `Feldman.CommitmentAtCommit` | crypto/shamir/feldman.go:142-168 | evaluating the commitments of a polynomial at any index gives its value there times the base |
| `Feldman.VerifyExact` | crypto/shamir/feldman.go:49-73 | a share verifies if and only if it is the polynomial's value at the index modulo q |
| `Feldman.MatchingShareUnique` | crypto/shamir/feldman.go:49-73 | at most one scalar verifies for an index |
| `Feldman.CombineCommitments` | crypto/shamir/feldman.go:92-132 | succeeds exactly for a non-empty list of equally long non-empty vectors; adds them column by column |
| `Feldman.CombinedAt` | crypto/shamir/feldman.go:92-132 | the combined commitments at x are the sum of the individual ones at x |
| `ElGamal.AddEncrypts` | crypto/elgamal/elgamal.go:149-157 | adding two encryptions encrypts the sum under the summed randomness |
| `ElGamal.DecryptEncrypt` | crypto/elgamal/elgamal.go:102-143 | decrypting an encryption gives the value's point |
| `ElGamal.EncryptWithRandomnessExact` | crypto/elgamal/elgamal.go:91-109 | refused exactly for an identity key or zero randomness; otherwise C1 is r*G and the value's point is recovered |
| `ElGamal.ValuePointInjective` | crypto/elgamal/elgamal.go:129-131 | value points of different values below q differ |
| `Bsgs.CeilSqrt` | crypto/elgamal/bsgs.go:122-136 | the adjusted estimate has a square of at least n, and is the ceiling of the root when the estimate was near it |
| `Bsgs.NewBSGSTable` | crypto/elgamal/bsgs.go:37-71 | the table maps exactly the m baby steps j*G to j and holds the stride m*G |
| `Bsgs.Solve` | crypto/elgamal/bsgs.go:85-110 | the stepping loop is the search from step zero, with 64-bit index arithmetic |
| `Bsgs.SolveExact` | crypto/elgamal/bsgs.go:85-110 | returns x if and only if x is below the bound and h is x*G, and errs if and only if there is no such x |
| `Bsgs.SearchWraps` | crypto/elgamal/bsgs.go:85-110 | with m = 2^32 the search for 2^64 times G answers zero |
| `Bsgs.CorrectIffBoundFits` | crypto/elgamal/bsgs.go:37-110 | a table solves exactly if and only if its bound is at most (2^32 - 1)^2 |
| `Round.QuorumCoversThreshold` | x/vote/keeper/keeper_ceremony.go:53-79 | for n >= 1 the threshold exists and lies between one and the acknowledgment quorum, which is at most n |
| `Round.ThresholdLimitIdle` | x/vote/keeper/keeper_ceremony.go:53-65 | for n >= 2 the threshold is two thirds rounded up, the lower limit of two changes nothing |
| `StepLaws.ThresholdIsTwoThirds` | x/vote/keeper/keeper_ceremony.go:53-65 | the threshold is the least number that is at least two thirds, and there is none exactly for an empty set |
| `StepLaws.QuorumIsFourFifths` | x/vote/keeper/keeper_ceremony.go:74-79 | the acknowledgment quorum is the least number that is at least four fifths |
| `StepLaws.ReindexKeepsValidators` | x/vote/keeper/msg_server.go:83-94 | indexing sets position plus one and nothing else |
| `StepLaws.RevealExact` | x/vote/keeper/msg_server_tally_decrypt.go:22-66 | a reveal changes the round if and only if it is active, the option exists, the nullifier is new and no identity component appears; exactly what then changes |
| `StepLaws.CountedShareAdds` | x/vote/keeper/keeper_tally.go:35-79 | a counted share makes its accumulator an encryption of the old vote sum plus its value |
| `StepLaws.PayloadsCoverExact` | x/vote/keeper/msg_server_ceremony.go:106-226 | the payload check asks for exactly one usable envelope to each other validator |
| `StepLaws.ContributeExact` | x/vote/keeper/msg_server_ceremony.go:106-284 | exactly when a contribution is accepted, and that the last one fixes a key whose commitments are the sum of all committed polynomials, unless it vanishes at 0 or an index |
| `StepLaws.AckExact` | x/vote/keeper/msg_server_ceremony.go:293-342 | exactly when an acknowledgment is accepted, and that the one completing the set activates the round |
| `StepLaws.KeepAppend` | x/vote/keeper/keeper_ceremony.go:134-155 | stripping keeps exactly the acknowledging validators, in order |
| `StepLaws.KeepContributionsAppend` | x/vote/keeper/keeper_ceremony.go:134-155 | stripping keeps exactly their contributions, in order |
| `StepLaws.TimeoutsExact` | x/vote/module.go:491-665 | what each of the four deadlines does and when, with four fifths as the condition for activation |
| `StepLaws.TerminalFixed` | x/vote/module.go:491-665 | no run changes a finalized or failed round |
| `StepLaws.PartialsExact` | x/vote/keeper/msg_server_tally_decrypt.go:207-294 | a submission is accepted if and only if the round is tallying, its index is its sender's and has not answered, and it has accepted proofs for exactly the accumulators; it is stored whole |
| `StepLaws.StoredPartialsListed` | x/vote/keeper/keeper_partial_decrypt.go:150-197 | the partials listed for an accumulator are exactly the stored ones |
| `StepLaws.EntryExact` | x/vote/keeper/msg_server_tally_decrypt.go:76-197 | an entry is accepted if and only if its option exists, its total is below the bound and congruent to the vote sum, and a threshold has answered if there were votes |
| `StepLaws.TallyExact` | x/vote/keeper/msg_server_tally_decrypt.go:76-197 | a tally is accepted if and only if the round is tallying, all entries pass and every option voted for has one; it then finalizes with these totals |
| `Round.FindValidatorFinds` | x/vote/keeper/keeper_ceremony.go:100-107 | the lookup finds a validator with the address if and only if there is one |
| `Lifecycle.ContributeKeeps` | x/vote/keeper/msg_server_ceremony.go:106-284 | an accepted contribution, including the one that completes the ceremony, keeps the ceremony invariant and touches nothing else |
| `Lifecycle.AckKeeps` | x/vote/keeper/msg_server_ceremony.go:293-342 | an accepted acknowledgment, including the last one, keeps the ceremony invariant |
| `Lifecycle.EnoughRemain` | x/vote/keeper/keeper_ceremony.go:134-155 | stripping the validators without an acknowledgment leaves at least as many as have acknowledged |
| `Lifecycle.EndAckPhaseKeeps` | x/vote/module.go:553-639 | ending the acknowledgment phase, by activation or failure, keeps the ceremony invariant; an activated round keeps at least a threshold of validators, with pairwise different Shamir indices |
| `Lifecycle.EnoughEvaluationPoints` | x/vote/keeper/keeper_ceremony.go:134-155 | a confirmed round has at least a threshold of different evaluation points, none zero modulo q |
| `Lifecycle.SomeoneStillDue` | app/prepare_proposal.go:196-211 | while a tallying round is below its threshold, the chain's lookup finds a validator whose index has not answered |
| `Lifecycle.AddedToTally` | x/vote/keeper/keeper_tally.go:35-79 | adding a share to an accumulator keeps it an encryption of the sum of the votes cast for its option |
| `Lifecycle.PartialsKeep` | x/vote/keeper/msg_server_tally_decrypt.go:207-294 | an accepted submission stores one correct partial for every accumulator and keeps all earlier ones |
| `Lifecycle.CombinedOpens` | x/vote/keeper/keeper_partial_decrypt.go:150-197 | the stored partials of a threshold of validators open each accumulator to the point of its vote sum |
| `Lifecycle.AcceptedEntryCorrect` | x/vote/keeper/msg_server_tally_decrypt.go:76-197 | a tally entry the chain accepts carries the vote sum |
| `Lifecycle.NextKeepsInv` | x/vote/module.go:491-665 | every message and every timeout keeps the round invariant |
| `Lifecycle.InitialInv` | x/vote/keeper/msg_server.go:83-94 | a new session, with Shamir index equal to position plus one, satisfies it |
| `Lifecycle.RunKeepsInv` | x/vote/module.go:491-665 | so does every state of every run |
| `Lifecycle.FinalizedTotalsAreVoteSums` | x/vote/keeper/msg_server_tally_decrypt.go:76-197 | in every run from a new session, a round finalized by a tally publishes for every option the sum of the votes its state records (as long as that is below q), and zero for any other |
| `VoteCount.StateRecords` | x/vote/keeper/msg_server_tally_decrypt.go:22-66 | the state's nullifiers, values and accumulators are exactly those of the run's reveals that count: arrived while active for an existing option with a nullifier no earlier counted one carried, and no identity component |
| `VoteCount.PublishedTotalsCountEveryVote` | x/vote/keeper/msg_server_tally_decrypt.go:22-197 | in every run from a new session, a round finalized by a tally publishes for every option the sum of the values of exactly the reveals that count in the run (as long as that is below q), and zero for any other |
| `Participation.CeremonyParticipants` | x/vote/keeper/msg_server_ceremony.go:106-342 | in every run nobody contributes twice, everybody left in a dealt round has contributed, and everybody left in a confirmed one has acknowledged |
| `Participation.NobodyTwice` | x/vote/keeper/msg_server_ceremony.go:106-342 | a second contribution or acknowledgment by the same validator is refused |
| `Tally.DecryptRoundTallies` | app/prepare_proposal.go:268-341 | succeeds exactly when every accumulator of a listed proposal decrypts, with exactly one entry for each, whatever order the maps were visited in |
| `Tally.BuiltTableReady` | app/prepare_proposal.go:137-144 | the table built for the tally bound satisfies what solving exactly asks of it |
| `Tally.DecryptsToVoteSum` | app/prepare_proposal.go:268-341 | with a threshold of partials an accumulator decrypts to its vote sum if that is below the bound and fails otherwise |
| `Tally.PartialsPerValidator` | x/vote/keeper/keeper_partial_decrypt.go:107-197 | each accumulator has as many partials as validators have submitted |
| `Tally.TallyEndToEnd` | app/prepare_proposal.go:181-341 | decryption succeeds on every such round, the chain accepts its result, and the finalized results are exactly the vote sums |
| `Ecies.RoundTrip` | crypto/ecies/ecies.go:86-150 | sealing succeeds exactly for a non-zero ephemeral and a non-empty plaintext, and opening then returns the plaintext |
| `Ecies.EncryptExact` | crypto/ecies/ecies.go:86-118 | sealing succeeds exactly for usable points, a non-empty plaintext and a non-zero ephemeral; what the envelope then holds |
| `Ecies.DecryptExact` | crypto/ecies/ecies.go:124-150 | opening returns m exactly when the shared point is usable, the ciphertext has room for a tag and the AEAD opens it to m |
| `Ecies.XCoordinateExact` | crypto/ecies/ecies.go:174-180 | two points share an x-coordinate exactly when their encodings agree up to the sign bit, which is cleared |
| `Ecies.KeyPreimageInjective` | crypto/ecies/ecies.go:158-169 | what is hashed into the key determines the ephemeral point and the shared x-coordinate |
| `Ecies.UnmarshalExact` | crypto/elgamal/serialize.go:96-123 | keys are read exactly from 32-byte encodings of non-identity points and non-zero scalars |
| `Ceremony.LoadWritten` | app/prepare_proposal_ceremony.go:89-120 | loading a written coefficient file returns the coefficients |
| `Ceremony.LoadExact` | app/prepare_proposal_ceremony.go:100-120 | a file loads as given coefficients exactly when it has the expected length and each block decodes to its coefficient |
| `Ceremony.FindPayloadExact` | app/prepare_proposal_ceremony.go:495-506 | the first payload addressed to the validator, or None exactly when there is none |
| `Ceremony.DeserializeCommitments` | app/prepare_proposal_ceremony.go:578-591 | succeeds exactly when there are commitments and all decode; returns them in order |
| `Ceremony.SumReceivedValue` | app/prepare_proposal_ceremony.go:484-555 | when every received share passed its own check, the sum is the own share plus all other dealers' polynomials at the index |
| `Ceremony.ReceivedShareSound` | app/prepare_proposal_ceremony.go:508-553 | a received share is not zero and answers to its contributor's commitments |
| `Ceremony.RecoveredShareSound` | app/prepare_proposal_ceremony.go:461-573 | whatever is on disk and in the round, a recovered share times G is the stored commitments at the index |
| `Ceremony.RecoveryExact` | app/prepare_proposal_ceremony.go:461-573 | when the received shares passed and the commitments are the combined ones, recovery succeeds if and only if the file's polynomial and the one committed to agree at the index modulo q |
| `Ceremony.StaleFileRefused` | app/prepare_proposal_ceremony.go:556-567 | the coefficient file of another attempt is refused |
| `Ceremony.CombinedCheckCannotFail` | app/prepare_proposal_ceremony.go:470-572 | with matching coefficients and individually checked shares the combined check succeeds, and the result is the only scalar that passes it |
| `AckHandler.EvalCells` | crypto/shamir/shamir.go:122-134 | Horner over scalar objects: the right value, in the coefficient's own object when there is only one and in a new one otherwise |
| `AckHandler.LoadCells` | app/prepare_proposal_ceremony.go:100-120 | loads new objects holding the file's coefficients; fails exactly when the file does not parse |
| `AckHandler.SumShares` | app/prepare_proposal_ceremony.go:484-555 | accumulates the shares without changing any object; the result is the own object only if nobody else contributed |
| `AckHandler.AckDKGRound` | app/prepare_proposal_ceremony.go:461-573 | recovery with wiping: the bytes always encode the recovered share, the returned object does too unless it was a wiped coefficient, and exactly when |
| `Dealing.DealContribution` | app/prepare_proposal_ceremony.go:203-308 | does nothing unless the proposer is a validator without a contribution and the secret is non-zero; otherwise writes the coefficient file of that dealer and deals its message, the latter failing exactly when an envelope cannot be sealed, with the file left behind |
| `Dealing.ShareDelivered` | app/prepare_proposal_ceremony.go:269-301 | the validator at position i receives from an honest dealer the value of its polynomial at i+1, checked, unless that value is zero, which is rejected |
| `Dealing.EveryAckSucceeds` | app/prepare_proposal_ceremony.go:461-573 | when all validators deal honestly, each recovers the joint polynomial's value at its stored Shamir index, through file and envelopes, if the shares dealt to it are non-zero, and fails otherwise |
| `Dealing.JointIsSum` | crypto/shamir/feldman.go:92-132 | the joint polynomial's value at any point is the sum of the dealers' polynomials there |
| `Dealing.JointKey` | x/vote/keeper/msg_server_ceremony.go:231-284 | the combined constant commitment is F(0)*G for the joint polynomial F, and the sum of the dealers' secrets times G |
| `Dealing.CeremonySharesDecrypt` | crypto/shamir/partial_decrypt.go:48-71 | partials from any threshold of the recovered shares decrypt a ciphertext under the joint key |
| `HonestCeremony.HonestCover` | x/vote/keeper/msg_server_ceremony.go:106-226 | the payloads an honest dealer seals pass the handler's checks: one for each other validator, with a readable ephemeral key |
| `HonestCeremony.HonestProof` | crypto/elgamal/dkg_pop.go:22-89 | an honest dealer's constant-term proof is generated and accepted exactly when its secret is not zero |
| `HonestCeremony.SubmitExact` | x/vote/keeper/msg_server_ceremony.go:106-226 | the handler accepts an honest contribution exactly when none of its coefficients is zero, and finalizes on the last one |
| `HonestCeremony.SubmitAllExact` | x/vote/keeper/msg_server_ceremony.go:106-226 | submitted in any order, the contributions are all stored exactly when no coefficient is zero |
| `HonestCeremony.FinalizeExact` | x/vote/keeper/msg_server_ceremony.go:231-284 | finalizing succeeds exactly when the sum of the polynomials vanishes at none of 0, 1, ..., n; it stores the combined commitments |
| `HonestCeremony.HonestCeremonyCompletes` | x/vote/keeper/msg_server_ceremony.go:106-284 | the whole honest ceremony completes exactly under these two conditions and leaves the combined commitments, their first as key, the threshold and the same validators |
| `HonestCeremony.RecoveredShareAnswers` | app/prepare_proposal_ceremony.go:342-452 | after it, every validator to which no zero share was dealt recovers a share that answers to its verification key and whose file reads back |
| `HonestCeremony.RunKeepsKey` | x/vote/module.go:491-665 | once dealt, no run changes key or commitments or adds a validator |
| `HonestCeremony.ShareServesForever` | app/prepare_proposal_partial_decrypt.go:116-124 | in every later state such a share answers to the verification key at the index the chain finds for its validator |
| `HonestCeremony.SoleValidatorGetsZeroKey` | app/prepare_proposal_ceremony.go:461-573 | a single validator with a non-zero secret gets the right bytes and a zero key object |
| `Sigma.DleqComplete` | crypto/elgamal/dleq.go:39-128 | a proof is generated exactly for a non-zero share, verifies if and only if C1 is not the identity, and its nonce points are the drawn nonce times G and C1 |
| `Sigma.DleqAcceptedExact` | crypto/elgamal/dleq.go:82-128 | for usable points a proof is accepted if and only if it encodes e and z with z*G = R1 + e*VK and z*C1 = R2 + e*D for nonce points such that e is the hash of the whole transcript |
| `Sigma.DleqPreimageInjective` | crypto/elgamal/dleq.go:134-145 | different statements or nonce points give different hash inputs |
| `Sigma.DleqSpecialSoundness` | crypto/elgamal/dleq.go:113-128 | two answers to different challenges for the same nonce points determine one scalar behind both VK and D |
| `Sigma.DleqSoundness` | crypto/elgamal/dleq.go:82-128 | two accepted proofs of one statement, under two hash functions, with the same nonce points and different challenges, determine the share |
| `Sigma.FalseStatementOneChallenge` | crypto/elgamal/dleq.go:82-128 | for a false statement each pair of nonce points has at most one challenge under which a proof is accepted, whatever the hash function |
| `Sigma.ConstantTermComplete` | crypto/elgamal/dkg_pop.go:22-89 | every constant-term proof generated with a non-zero nonce verifies, with the nonce times G as its R |
| `Sigma.ConstantTermGeneratedExact` | crypto/elgamal/dkg_pop.go:22-58 | a proof is generated if and only if the secret is not zero and is the one behind the first commitment |
| `Sigma.ConstantTermAcceptedExact` | crypto/elgamal/dkg_pop.go:61-89 | a proof is accepted if and only if it encodes a usable R and a z answering the hash of chain, round, dealer, commitments and R |
| `Sigma.ConstantTermSoundness` | crypto/elgamal/dkg_pop.go:61-89 | two accepted proofs with the same R, under two hash functions, with different challenges, give the discrete logarithm of the constant term |
| `Sigma.ConstantTermSpecialSoundness` | crypto/elgamal/dkg_pop.go:61-89 | two accepting answers to different challenges give the discrete logarithm of the constant term |
| `Transcript.WritePreimage` | crypto/elgamal/dkg_pop.go:102-130 | the writing loop produces the length-prefixed transcript |
| `Transcript.PreimageInjective` | crypto/elgamal/dkg_pop.go:102-130 | different chain id, round, dealer, commitment vector or R give different transcripts, whatever their lengths |
| `Transcript.PreimageReads` | crypto/elgamal/dkg_pop.go:102-130 | read back field by field, the hash input is the domain tag, chain, round, dealer, generator, the counted commitments and R, and nothing more |
| `Transcript.BigEndianDenotes` | crypto/elgamal/dkg_pop.go:125-130 | a length prefix denotes the length, most significant byte first |
| `Transcript.WriteCanonical` | e2e-tests/src/sighash.rs:18-51 | the writing loop produces the canonical encoding |
| `Transcript.CanonicalInjective` | e2e-tests/src/sighash.rs:18-51 | different rounds, commitments or ordered effect lists give different encodings |
| `Transcript.CanonicalLayout` | e2e-tests/src/sighash.rs:32-51 | where domain, round, commitment, effect count and each effect's block lie |
| `Transcript.EffectLayout` | e2e-tests/src/sighash.rs:41-48 | where an effect's position, four values and proposal lie |
| `ShareFilter.FilterSubmissions` | app/vote_share_submission_proposal.go:31-60 | keeps, in order, exactly the other transactions and the first well-formed one of each of the first 256 keys; the four counters add up to the submissions |
| `ShareFilter.ValidateSubmissions` | app/vote_share_submission_proposal.go:65-89 | accepts if and only if all submissions are well-formed, no two share a key and there are at most 256 |
| `ShareFilter.ValidIffUnchanged` | app/vote_share_submission_proposal.go:31-89 | the filter's output always validates, a list validates if and only if the filter leaves it unchanged, and filtering is idempotent |
| `ShareFilter.PrefixValid` | app/prepare_proposal.go:104-118 | validity survives trimming to a prefix |
| `ShareFilter.PrependValid` | app/prepare_proposal.go:250-252 | prepending other transactions changes validity in neither direction |
| `ShareFilter.TrimToMaxBytes` | app/prepare_proposal.go:104-118 | keeps the longest prefix that fits the budget, everything for a negative budget |
| `ProposalCheck.ProcessProposal` | app/process_proposal.go:34-91 | accepts if and only if the submissions are valid and every injected transaction passes its check |
| `ProposalBuild.FirstPending` | x/vote/keeper/keeper.go:360-370 | the first listed round that is pending at the wanted ceremony step, or None exactly when there is none |
| `ProposalBuild.FirstTallying` | x/vote/keeper/keeper.go:342-346 | the first listed round that is tallying, or None exactly when there is none |
| `ProposalBuild.PartialCandidate` | app/prepare_proposal_partial_decrypt.go:68-147 | the first tallying round, exactly when its set has the proposer, without a submission at its index, and the share file is readable |
| `ProposalBuild.PartialItems` | app/prepare_proposal_partial_decrypt.go:149-214 | exactly one item per non-empty accumulator, with share times C1 and its proof |
| `ProposalBuild.InjectPartials` | app/prepare_proposal_partial_decrypt.go:68-246 | injects exactly when there is a candidate with a non-empty accumulator |
| `ProposalBuild.RoundHasAccumulators` | app/prepare_proposal.go:347-362 | true if and only if a listed proposal has an accumulator |
| `ProposalBuild.InjectTally` | app/prepare_proposal.go:150-253 | injects the decrypted tally exactly when nothing was cast or a threshold has submitted and everything decrypts |
| `ProposalBuild.BuildProposal` | app/prepare_proposal.go:51-100 | the block is the longest affordable prefix of tally, partial decryption, acknowledgment, contribution and the filtered mempool |
| `ProposalAgreement.CeremonyMessagesAccepted` | app/process_proposal.go:98-289 | injected contributions and acknowledgments are always accepted |
| `ProposalAgreement.PartialMessageAccepted` | app/process_proposal.go:146-197 | an injected partial decryption is accepted if and only if the threshold is not zero and every accumulator is within its proposal's options |
| `ProposalAgreement.TallyMessageAccepted` | app/process_proposal.go:209-245 | an injected tally is always accepted, including the bound on each total |
| `ProposalAgreement.BuilderCheckerAgree` | app/process_proposal.go:34-289 | for every state, mempool and budget: the built block is accepted if and only if the surviving mempool transactions are and the partial decryption left in it is for a round in threshold mode |
| `ProposalAgreement.HonestProposalAccepted` | app/process_proposal.go:34-289 | on states whose rounds satisfy the round invariant and mempools without injected tags every built block is accepted |
| `ProposalAgreement.ThresholdZeroDisagrees` | app/process_proposal.go:163-168 | a state with threshold zero on which the proposer's own message is rejected |
| `ProposalAgreement.ProperKept` | x/vote/keeper/keeper_tally.go:35-79 | no transition creates an accumulator with an identity component |
| `ProposalAgreement.InjectedPartialsStored` | x/vote/keeper/msg_server_tally_decrypt.go:207-294 | with the share behind the verification key, the chain verifies and stores the injected partials for every accumulator and the round invariant is kept |
| `ProposalSafety.TxAcceptedExact` | app/process_proposal.go:40-87 | a transaction of at least two bytes with an injected tag is accepted if and only if it decodes to a message of that tag that passes; any other is accepted |
| `ProposalSafety.AcceptedBlockIsProposers` | app/process_proposal.go:34-289 | in every accepted block every injected message is the proposer's, for a stored round, and from its validator set unless it is a tally |
| `ProposalSafety.AckPassesExact` | app/process_proposal.go:98-138 | an acknowledgment passes if and only if it is the proposer's and the handler accepts it |
| `ProposalSafety.DkgPassesExact` | app/process_proposal.go:251-289 | a contribution passes if and only if it is the proposer's, for a registering round, from a validator without one; every one the handler accepts passes |
| `ProposalSafety.PartialPassesExact` | app/process_proposal.go:146-197 | a partial decryption passes if and only if it is the proposer's and the handler accepts it once its proofs are accepted |
| `ProposalSafety.TallyPassesExact` | app/process_proposal.go:209-245 | a tally passes if and only if it is the proposer's, the round is tallying, every option voted for has an entry and every total is below 2^28; the handler then refuses only for an entry's own check |
| `ProposalSafety.AcceptedMessagesTakeEffect` | app/process_proposal.go:98-289 | on the state it was judged on, an accepted message takes effect once digest, proofs and entries pass |
| `ProposalSafety.InjectedTallyTakesEffect` | app/prepare_proposal.go:150-253 | an injected tally is accepted by the handler and finalizes its round |
| `ProposalSafety.TallyInjectedExactly` | app/prepare_proposal.go:150-253 | with vote sums below the bound a tally is injected if and only if there is a ceremony directory and a resolved proposer, and in the first tallying round nothing was cast or a threshold has answered |
| `ProposalSafety.PartialInjectedExactly` | app/prepare_proposal_partial_decrypt.go:68-246 | a partial decryption is injected if and only if there is a ceremony directory, votes were cast in the first tallying round, the proposer's index there has not answered, and its share file encodes a non-zero scalar |
| `ProposalSafety.InjectedInOrder` | app/prepare_proposal.go:46-100 | at most one message of each kind is injected: tally, partial decryption, acknowledgment, contribution |
| `ProposalSafety.CeremonyInjectionsExact` | app/prepare_proposal_ceremony.go:174-200 | a contribution or acknowledgment is injected exactly when this machine is able to and it passes for the first such round |
| `Merkle.CommitmentTreeRoot` | circuits/src/nc_root.rs:32-71 | the three loops compute the frontier's root |
| `Merkle.FrontierRoot` | circuits/src/nc_root.rs:32-71 | the root of any frontier of a leaf sequence is the root of its complete padded depth-32 tree |
| `Merkle.FrontierOfLeaves` | circuits/src/nc_root.rs:32-71 | up to 2^32 leaves appended one by one give a frontier with at most 31 parents and the padded tree's root |
| `MerkleLevels.BuildSharedTree` | e2e-tests/src/setup.rs:403-440 | each level pairs up the one below, and the root is that of the padded depth-32 tree |
| `MerkleLevels.NodeIsBlockRoot` | e2e-tests/src/setup.rs:418-430 | node i of level k is the root of the i-th block of 2^k leaves |
| `MerkleLevels.BuildAuthPath` | e2e-tests/src/setup.rs:446-468 | sibling nodes inside the subtree, empty roots above |
| `MerkleLevels.EveryPathReachesRoot` | e2e-tests/src/setup.rs:403-468 | from every position of the padded subtree the path leads to the root, which is also the frontier's root |
| `FrontierCodec.ParseCommitmentTree` | circuits/src/nc_root.rs:74-102 | the cursor-moving parser computes the recursive parse |
| `FrontierCodec.ReadConsumes` | circuits/src/nc_root.rs:106-130 | the data is the encoding of the node read followed by the rest |
| `FrontierCodec.ParseSerialized` | circuits/src/nc_root.rs:74-130 | a serialized tree followed by anything parses to itself if it has fewer than 32 parents, and is rejected otherwise |
| `FrontierCodec.ParsedIsSerialized` | circuits/src/nc_root.rs:74-130 | whatever parses begins with the serialization of the result |
| `PrefixScan.ComputeEnd` | ffi/votetree/kv_callbacks.go:166-177 | the in-place increment with carry is the prefix plus one, open on overflow, empty for the empty prefix |
| `PrefixScan.RangeExact` | ffi/votetree/kv_callbacks.go:166-185 | a key is in the range if and only if it begins with the prefix or is one of the described short keys |
| `PrefixScan.LongKeysExact` | ffi/votetree/kv_callbacks.go:166-185 | among keys at least as long as a non-empty prefix the range is exact |
| `PrefixScan.ExactForAllKeys` | ffi/votetree/kv_callbacks.go:166-185 | the range is exact for all keys if and only if the prefix is not empty and does not end in 0xFF unless it is all 0xFF |
| `PrefixedView.ViewSet` | ffi/votetree/kv_callbacks.go:116-134 | a write through a prefix is that write to its private map and invisible through prefixes apart from it |
| `PrefixedView.ViewDelete` | ffi/votetree/kv_callbacks.go:137-150 | the same for a deletion |
| `PrefixedView.ScanListsView` | ffi/votetree/kv_callbacks.go:153-236 | a scan lists exactly the private map's keys with the raw prefix, stripped, in ascending or descending order, with their values |
| `PrefixedView.ListingUnique` | ffi/votetree/mem_kv.go:73-87 | order and contents determine the listing |
| `KvStore.SortStrings` | ffi/votetree/mem_kv.go:85-85 | strictly ascending with the same elements |
| `KvStore.ReverseInPlace` | ffi/votetree/mem_kv.go:107-109 | the swapping loop reverses the array |
| `KvStore.MemKVStore.SortedKeys` | ffi/votetree/mem_kv.go:73-87 | exactly the keys in the range, ascending, whatever order the map was visited in |
| `KvStore.MemKVStore.Iterator` | ffi/votetree/mem_kv.go:89-101 | a new iterator over an ascending snapshot of the range |
| `KvStore.MemKVStore.ReverseIterator` | ffi/votetree/mem_kv.go:103-118 | a new iterator over a descending snapshot of the range |
| `KvStore.MemIterator.Next` | ffi/votetree/mem_kv.go:146-150 | drops the first remaining key, or nothing at the end |
| `KvStore.KvStoreProxy.PrefixKey` | ffi/votetree/kv_callbacks.go:59-67 | prefix followed by key, also for the empty prefix |
| `KvStore.KvStoreProxy.SvKvGet` | ffi/votetree/kv_callbacks.go:83-113 | a lookup in the private map, panicking on an empty value |
| `KvStore.KvStoreProxy.SvKvSet` | ffi/votetree/kv_callbacks.go:116-134 | a write to the private map, invisible to every prefix apart from this one |
| `KvStore.KvStoreProxy.SvKvDelete` | ffi/votetree/kv_callbacks.go:137-150 | a deletion from the private map, likewise |
| `KvStore.KvStoreProxy.SvKvIterCreate` | ffi/votetree/kv_callbacks.go:153-205 | opens a snapshot of the keys between prefix and end key in the requested direction |
| `KvStore.KvStoreProxy.SvKvIterNext` | ffi/votetree/kv_callbacks.go:209-257 | hands out the next entry with the prefix stripped, panicking on an empty key or value |
| `PrivateMap.SnapshotExact` | ffi/votetree/kv_callbacks.go:153-257 | a scan opened through a proxy hands out what a scan of the private map would (stripped keys in order, values as of opening) if and only if no stored key is stray for its prefix |
| `PrivateMap.FaithfulRun` | ffi/votetree/kv_callbacks.go:166-185 | no scan of a run meets a stray key when every scanned prefix is clean or no longer than any key stored or written |
| `PrivateMap.NothingPanics` | ffi/votetree/kv_callbacks.go:83-257 | with non-empty keys and values, stored and written, no operation of a run panics |
| `KvInterleaving.Perform` | ffi/votetree/kv_callbacks.go:83-257 | any one operation through a proxy has the output and the effect it has on the private map, and none on prefixes apart |
| `KvInterleaving.RunInterleaved` | ffi/votetree/kv_callbacks.go:83-257 | for any interleaving of gets, writes, deletions, scan openings and scan steps through two proxies apart, each participant's outputs and view are those of its own operations on a private ordered map with snapshot scans |
| `SignatureMerge.MergeSignatures` | internal/admin/config_pr.go:733-749 | the nested loops replace by key id or append, one incoming signature after another |
| `SignatureMerge.MergeNormal` | internal/admin/config_pr.go:733-749 | a merge from nothing has one signature per key id, in order of first appearance, with the last value listed |
| `SignatureMerge.MergeTailAgain` | internal/admin/config_pr.go:733-749 | merging the tail of a list into its own merge changes nothing |
| `ConfigMerge.ResolveMeaning` | internal/admin/config_pr.go:679-731 | a signature is renamed only to a trusted key that verifies it, keeps its own id when that verifies it, and resolving is idempotent |
| `ConfigMerge.AttestsExact` | internal/admin/config_pr.go:718-731 | a key id attests a signature if and only if a trusted Ed25519 key of that id verifies it over the text |
| `ConfigMerge.ResolvesToFirst` | internal/admin/config_pr.go:704-716 | a signature not attested by its own id gets the id of the first trusted key that verifies it |
| `ConfigMerge.ResolveEntryExact` | internal/admin/config_pr.go:679-702 | resolving fails exactly when the signed text cannot be formed; otherwise only key ids change, each to a verifying trusted key when there is one |
| `ConfigMerge.ResolvePreservedExact` | internal/admin/config_pr.go:636-644 | fails exactly when the text of a preserved entry of the incoming version cannot be formed; other versions are unchanged, position by position |
| `ConfigMerge.MergeTargets` | internal/admin/config_pr.go:645-660 | succeeds exactly when every target has the same ea_pk and the same or the legacy version; merges the non-legacy signatures in order |
| `ConfigMerge.ResolvePreservedEntries` | internal/admin/config_pr.go:636-644 | resolves the preserved entries of the incoming version and leaves the others; fails exactly when one cannot be resolved |
| `ConfigMerge.MergeConfigEntry` | internal/admin/config_pr.go:594-677 | the whole merge with all its error conditions, whether anything existed to merge with, and the resolved key ids of the incoming signatures in order |
| `ConfigMerge.MergeSucceedsExactly` | internal/admin/config_pr.go:594-677 | succeeds if and only if layout, texts, keys and versions agree and every round of the result verifies; what is then stored |
| `ConfigMerge.MergedSignaturesNamed` | internal/admin/config_pr.go:632-660 | every merged signature is the stored entry's own, or an incoming or same-version preserved one under the name of a trusted key that verifies it whenever one does |
| `ConfigMerge.MergeOutcome` | internal/admin/config_pr.go:594-677 | other rounds and the layout are unchanged, key ids are unique in order of first appearance, each has its last value among the non-legacy base and preserved and the incoming signatures, and every round verifies |
| `ConfigMerge.MergeKeepsVersion` | internal/admin/config_pr.go:645-660 | every key id of every base or preserved entry of the incoming version survives with its last value in the order base, preserved, incoming, if and only if that version is not 1 or the incoming entry lists those key ids itself |
| `ConfigMerge.LegacyMergeDrops` | internal/admin/config_pr.go:650-655 | a version-1 merge that succeeds and loses a version-1 signature |
| `ConfigMerge.MergeAgain` | internal/admin/config_pr.go:594-677 | merging the same entry again gives the same configuration |
| `ConfigMerge.AppendAcknowledgments` | internal/admin/config_pr.go:811-822 | the loop appends each acknowledgment whose marker is not yet in the text |
| `ConfigMerge.AppendOnce` | internal/admin/config_pr.go:811-822 | the old text is kept as a prefix, every marker is present, and a second pass adds nothing |
| `ConfigMerge.AppendWrites` | internal/admin/config_pr.go:811-822 | an acknowledgment whose marker was not there yet is written out, marker and statement |
| `Funding.Bank.Send` | app/stage_vote_funding_upgrade.go:94-97 | moves the amount exactly when the sender has it |
| `Funding.Bank.MigrateStageVoteFunding` | app/stage_vote_funding_upgrade.go:40-102 | the in-place loop has the outcome of the recursive collection, including the failing one |
| `Funding.MigrationConserves` | app/stage_vote_funding_upgrade.go:40-102 | on every input total supply is unchanged, nobody but the module account gains, and it does not exceed the larger of cap and its old balance |
| `Funding.MigrationIsForStaging` | app/stage_vote_funding_upgrade.go:40-63 | any other chain id, and a module account at or above the cap, change nothing |
| `Funding.CollectConserves` | app/stage_vote_funding_upgrade.go:74-99 | the same for the collection loop, with accounts that are not managers unchanged |
| `Funding.CollectExact` | app/stage_vote_funding_upgrade.go:74-99 | the module account receives what the distinct managers hold up to the capacity; the run fails exactly when a bad address is reached with capacity left; otherwise they are emptied |
| `Funding.PromiseExact` | app/stage_vote_funding_upgrade.go:40-102 | the final balance is max(current, min(cap, current + distinct manager balances)) for all balances if and only if no manager is first listed after the module account |
| `Funding.SecondRunIdle` | app/stage_vote_funding_upgrade.go:40-102 | after a successful run a second one changes nothing, on every input, whether or not the module account is listed |

## Left out

- Points that are nil or off the curve, and scalars that are nil: they have no representation here, so the guards against them are not modelled.
- Primality of the Pallas group order: `Q` is an arbitrary prime.
- Floating-point square root: `Bsgs.CeilSqrt` takes the estimate as a parameter and assumes it is at least the ceiling minus one.
- Zero-knowledge proofs of votes (Halo2, RedPallas) and the DLEQ proof inside the round's state machine: an accepted proof is taken to hold of its statement (`Lifecycle.ProofsHold`); what `Sigma` proves of the DLEQ proof itself is completeness and special soundness.
- Secrecy: nothing is stated about what a party below the threshold can learn.
- The proposer-is-creator check inside the round's state machine; the proposal model has it.
- Several rounds in one state machine: `Lifecycle` follows one round, `ProposalCheck` judges any number of them.
- Files and clocks: files are byte strings handed in, timeouts are events that may happen at any time, operating-system failures do not occur. Zeroing of byte buffers and the deletion of files are not modelled.
- The share cache, its eviction, and the clean-up of orphaned share and coefficient files.
- Logs, metrics, events and error texts: an error is only an error.
- JSON, hexadecimal, base64 and protobuf: parsed values and an invertible codec stand for them. The parsing and validation of the two configuration files is not part of this model.
- The int64 sum in byte trimming is unbounded here.
- AckHandler.AckDKGRound: requires a threshold of at least one, because the original indexes an empty list otherwise.
- The end of the process at a panic: `PrivateMap` records the panic as the operation's output and goes on.
- KvStore.KvStoreProxy.SvKvGet: does not model C memory; a value is returned as a byte string and allocation never fails.
- The Rust shard tree behind the key-value callbacks, REST handlers, broadcasting, GitHub and PIR clients, the ante handler, message whitelists and upgrade registration.
