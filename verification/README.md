# ZK-ARCHE v2: a verified model

ZK-ARCHE lets a device authenticate to a server without showing which device it is or which of
the allowed roles it holds. The protocol exists twice, as Rust programs
(`src/bin/zkarche_server.rs`, `src/bin/zkarche_client.rs`) and as C programs
(`c_implementation/zkarche_server.c`, `c_implementation/zkarche_client.c`). This project models
both and proves what the protocol is for, together with the data structures that keep it safe
under replays, restarts, floods and concurrent connections.

## How the model is built

* **Group.** A point is the exponent of the base point, so the group is the integers modulo the
  prime order `q`, and the second generator `h` is any nonzero exponent (sections 4 and 4.4 of
  RFC 9496 describe the group and its encoding). `compress` and `decompress` are parameters of
  the datatype `Suite`, bound only to be canonical (`TinySuiteIsValid` meets every requirement on a suite, `TinyRun.HonestRunExists` those on an honest run); SHA-256, SHA-512 and HMAC are parameters with
  no property presumed of them at all. Where a result needs that a hash does not collide, it names
  the two inputs that would collide.
* **Randomness, clocks and failures** are parameters: prover randomness, nonces, times in whole
  seconds, and whether a write or an allocation succeeds.
* **Form.** What the programs update in place is a class or an array algorithm here
  (`CTranscript`, `ReplayCache`, `CReplayCache`, `Enrollment`, `CRegistry`, `FailureTracker`,
  `CFailureTracker`, the OR-provers, `HkdfExpand`, the codecs), each method stated against a
  function of the old state; what is proved about those functions follows as lemmas. Threads are
  state machines whose steps are the atomic sections of the code.

| File | What it holds |
|---|---|
| `Bytes`, `PrimeField` | byte encodings; arithmetic modulo a prime, with the inverse computed by Euclid's algorithm |
| `Transcript`, `TranscriptSizes` | the length-prefixed transcript in its growable and its 4096-byte form |
| `Suite`, `Sigma`, `RoleMembership` | group and hashes, Schnorr proofs, re-randomization proof, OR-proof |
| `ProofBinding` | what every challenge is bound to and what the verifiers accept |
| `Handshake`, `HandshakeLaws`, `KeyConfirmation`, `Hkdf` | the online handshake, what its parts mean by themselves, what the finished tags prove, key expansion |
| `CServer`, `CrossLanguage`, `TinyRun` | the C authentication handler, a Rust device at a C server, one run written out |
| `ReplayCache`, `ReplayCacheC`, `ReplayDurability`, `ReplayThreads` | the two replay caches, crash recovery, racing threads |
| `Registry`, `RegistryC`, `RegistryThreads` | registry, handle index, pid scan, persistence, racing enrollments |
| `FailureTracker`, `FailureTrackerC`, `Admission`, `ConnGuard` | rate limiting, the C accept loop, the connection counter |
| `AppLayout`, `EdhocApp`, `MtlsApp`, `Framing` | application requests and frames of the EDHOC and mTLS programs |

Properties that turned out to hold only under a condition, each with the condition proved exact:

* A message the Rust server answers can be refused by the C server: the C library reports failure
  when a product is the identity point. It is refused exactly when a challenge, a response or a
  difference in it is zero (`VerifiersDifferOnlyOnZeros`, `CServerAnswersIff`,
  `RustDeviceAtCServer`); `ZeroDeltaDivides`, `ZeroChallengeDivides` and `ServersPart` show inputs.
* Enrollment checks and writes under different locks. Two enrollments of one new id can both
  pass the check, and the later write leaves the handle index pointing at the earlier record
  (`InterleavedSetupsStrandEntry`). Index and registry agree in every interleaving if and only if
  the valid enrollments of each new id have one handle (`AgreesInEveryInterleavingIff`).
* In the Rust tracker a ban ends early when the banned peer fails again after its window has
  passed, because that opens a new window (`RustBanEndsEarly`); until such a failure or a success
  it lasts its full length (`BanOverRun`). The C accept loop never gets there, since it turns the
  peer away first (`BanIsExact`).
* The membership transcript fits the C buffer up to 67 roles and no further (`RoleSetFitsIff`).
* The EDHOC client builds requests of up to 65535 payload bytes, of which the server's frame limit
  admits those whose id and payload stay within 4020 bytes (`FitsFrameIff`).

## Model

| member | source | states |
|---|---|---|
| Transcript.DecodeInvertsEncode | src/bin/zkarche_server.rs:85-111 | a transcript with lengths at most 255, at most 255 and below 2^32 decodes to its domain and fields |
| Transcript.EncodeInvertsDecode | src/bin/zkarche_server.rs:85-111 | every buffer the decoder accepts is the encoding of what it returns |
| Transcript.EncodeInjective | src/bin/zkarche_server.rs:85-111 | distinct domains or field lists never share a buffer |
| Transcript.BuildTranscript | src/bin/zkarche_server.rs:134-140 | the growable buffer ends as the encoding of all its fields in order |
| Transcript.CTranscript.Append | c_implementation/zkarche_server.c:313-324 | the in-place writes add exactly one encoded field while it fits |
| Transcript.BuildCTranscript | c_implementation/zkarche_server.c:305-324 | the C buffer holds exactly the Rust bytes whenever the whole transcript fits 4096 |
| TranscriptSizes.RoleSetFitsIff | c_implementation/zkarche_server.c:409-431 | the exact size of the membership transcript, which fits 4096 bytes if and only if there are at most 67 roles |
| TranscriptSizes.SetupTranscriptFits | c_implementation/zkarche_client.c:489-517 | both enrollment transcripts fit the C buffer |
| TranscriptSizes.OnlineTranscriptsFit | c_implementation/zkarche_client.c:532-551 | the authentication, server and re-randomization transcripts fit the C buffer |
| TranscriptSizes.ConfirmationTranscriptFits | c_implementation/zkarche_client.c:613-623 | the key-confirmation transcript fits the C buffer |
| Suites.DomainSeparation | src/bin/zkarche_server.rs:134-145 | no transcript of one purpose has the bytes of a transcript of another purpose |
| Suites.EncodingsInjective | src/bin/zkarche_server.rs:583-600 | equal encodings come from equal points and equal scalars |
| Suites.PseudonymDetermines | src/bin/zkarche_server.rs:335-352 | equal pseudonyms come from the same stored key, nonce, ephemeral and server, or SHA-256 collides on two named inputs |
| Suites.DevicePseudonymDetermines | src/bin/zkarche_client.rs:204-221 | the same for devices: a pseudonym belongs to one device in one session, or SHA-256 collides |
| Suites.HandleDetermines | src/bin/zkarche_server.rs:194-202 | equal handles come from the same stored key, or two different inputs share the first sixteen bytes of their digests |
| Sigma.VartimeCheckIsDirectCheck | src/bin/zkarche_server.rs:212-218 | the multiscalar test accepts exactly the proofs the direct test accepts |
| Sigma.SimulatedCommitment | src/bin/zkarche_client.rs:304-318 | for any challenge and response exactly one commitment satisfies the test |
| Sigma.HonestMove | src/bin/zkarche_client.rs:494-515 | an honest response satisfies the test in any base |
| Sigma.ExtractionSound | src/bin/zkarche_server.rs:212-218 | two answers to different challenges on one commitment give the witness, as a function of the scalars |
| Sigma.SetupProofsVerify | src/bin/zkarche_server.rs:232-285 | both enrollment proofs verify on the other side |
| Sigma.OnlineProofsVerify | src/bin/zkarche_server.rs:289-330 | both online Schnorr proofs verify on the other side |
| ProofBindings.AuthTranscriptDetermines | src/bin/zkarche_server.rs:289-308 | the client proof's transcript determines pseudonym, key, commitment, nonce and ephemeral |
| ProofBindings.ServerTranscriptDetermines | src/bin/zkarche_client.rs:518-535 | the server proof's transcript determines key, commitment, nonce and ephemeral |
| ProofBindings.SetupTranscriptDetermines | src/bin/zkarche_server.rs:232-285 | the enrollment transcripts determine the whole enrollment and the commitment |
| ProofBindings.RerandTranscriptDetermines | src/bin/zkarche_server.rs:358-382 | the re-randomization transcript determines session, both commitments and the proof's commitment |
| ProofBindings.MembershipTranscriptDetermines | src/bin/zkarche_server.rs:403-427 | the membership transcript determines session, commitment, every role and every branch commitment, and how many there are |
| ProofBindings.AuthChallengesSeparate | src/bin/zkarche_server.rs:289-308 | different inputs of the client proof get different challenges from some hash |
| ProofBindings.ServerChallengesSeparate | src/bin/zkarche_server.rs:311-330 | different inputs of the server proof get different challenges from some hash |
| ProofBindings.SetupChallengesSeparate | src/bin/zkarche_server.rs:232-285 | different enrollments or commitments get different challenges from some hash |
| ProofBindings.RerandChallengesSeparate | src/bin/zkarche_server.rs:358-382 | different inputs of the re-randomization proof get different challenges from some hash |
| ProofBindings.MasterChallengesSeparate | src/bin/zkarche_server.rs:403-428 | different sessions, commitments, roles or branch commitments get different master challenges from some hash |
| ProofBindings.SchnorrVerifiersAccept | src/bin/zkarche_server.rs:232-308 | each Schnorr verifier accepts exactly one commitment for a challenge and response |
| ProofBindings.AuthExtraction | src/bin/zkarche_server.rs:289-308 | two accepted client proofs on one commitment with different challenges give the client's secret |
| ProofBindings.ServerExtraction | src/bin/zkarche_client.rs:518-535 | two accepted server proofs on one commitment with different challenges give the server's secret |
| ProofBindings.SetupExtraction | src/bin/zkarche_server.rs:232-256 | two accepted enrollment proofs on one commitment with different challenges give the device's secret |
| ProofBindings.RerandomizationHides | src/bin/zkarche_client.rs:227-235 | every commitment is reached from every other by exactly one re-randomization scalar |
| Sigma.RerandomizationProofVerifies | src/bin/zkarche_client.rs:227-265 | the honest re-randomization proof verifies |
| Sigma.RerandomizedOpening | src/bin/zkarche_client.rs:227-235 | re-randomizing keeps the committed role and shifts the blind |
| RoleMembership.ProveRoleSetMembership | src/bin/zkarche_client.rs:273-353 | the Rust prover's in-place loops send the proof of the run at the first matching index |
| RoleMembership.ProveRoleSetMembershipC | c_implementation/zkarche_client.c:323-381 | the C prover succeeds exactly when the role is listed and no product is the identity, and then sends the proof at the last matching index |
| RoleMembership.DegenerateIffZero | c_implementation/zkarche_client.c:340-352 | the C prover fails on a listed role exactly when a draw it uses is zero or the commitment is a bare other role |
| RoleMembership.VerifyRoleSetMembership | src/bin/zkarche_server.rs:389-447 | the Rust verifier accepts exactly the proofs of the right length that satisfy the sum and every branch and contain no identity |
| ProofBindings.MembershipVerifierAccepts | src/bin/zkarche_server.rs:389-447 | the Rust verifier accepts exactly what an honest prover can send, whichever role it holds, without identity commitments |
| RoleMembership.VerifyRoleSetMembershipC | c_implementation/zkarche_server.c:409-446 | the C verifier accepts exactly the received bytes whose points decode, that satisfy the sum and every branch as the library reads their scalars, and that meet no identity product |
| RoleMembership.RawAcceptsIff | c_implementation/zkarche_server.c:409-446 | on the bytes of a reduced proof the C verifier checks the equations of the Rust verifier, and that no product is the identity |
| RoleMembership.VerifiersDifferOnlyOnZeros | c_implementation/zkarche_server.c:433-446 | a proof Rust accepts is accepted by C if and only if it holds no zero scalar and the commitment is no bare role |
| RoleMembership.ZeroChallengeDivides | c_implementation/zkarche_server.c:433-446 | an honest proof with a simulated challenge of zero is accepted by Rust and refused by C |
| RoleMembership.OrProofComplete | src/bin/zkarche_client.rs:288-352 | for any role list a run with a true opening satisfies the sum and every branch equation |
| RoleMembership.RecoverInvertsProve | src/bin/zkarche_client.rs:304-352 | the randomness of a run can be read back from its proof |
| RoleMembership.ProveInvertsRecover | src/bin/zkarche_server.rs:429-446 | every proof satisfying the equations is the proof of exactly the recovered run |
| RoleMembership.SendableIsAccepted | src/bin/zkarche_server.rs:429-446 | an honest prover can send exactly the proofs satisfying the equations, whichever index is its own |
| RoleMembership.RolePerfectlyHidden | src/bin/zkarche_client.rs:267-353 | for any two allowed roles the runs correspond one to one with equal proofs, and the sendable proofs are the same |
| RoleMembership.JointExtraction | src/bin/zkarche_server.rs:358-447 | two accepted runs with different challenges give an index and two scalars opening the session's and the enrolled commitment to one allowed role |
| RoleMembership.TwoOpeningsGiveLog | src/bin/zkarche_client.rs:196-199 | opening one commitment to two roles computes the discrete logarithm of h |
| RoleMembership.EnrolledRoleIsAllowed | src/bin/zkarche_server.rs:358-447 | two forked accepted runs on a commitment enrolled with a role show that role to be the extracted allowed one, or compute the discrete logarithm of h |
| Handshake.StartSession | src/bin/zkarche_client.rs:985-1066 | the client sends the header and payload of its honest request, and gives up right after the header only on an identity key |
| Handshake.BuildPayload1 | src/bin/zkarche_client.rs:1019-1062 | the payload built step by step is the concatenation of the 32-byte parts |
| Handshake.ReadOrProof | src/bin/zkarche_server.rs:1174-1189 | the branch loop returns all branches or the error of the first bad one |
| Handshake.BodyParses | src/bin/zkarche_server.rs:1121-1193 | the server's offsets read back what the client laid out, or report the identity point in it |
| Handshake.V3Parses | src/bin/zkarche_server.rs:1103-1193 | the server's verdict on every V3 message with any flags byte, undefined bits included, and any handle |
| Handshake.WireParses | src/bin/zkarche_server.rs:1103-1193 | the server's verdict on the client's message, V2 or V3 |
| HandshakeLaws.HeaderLayout | src/bin/zkarche_client.rs:985-1006 | type 3 alone, or type 4 with the two flags and the handle |
| HandshakeLaws.BodyLayout | src/bin/zkarche_client.rs:1019-1056 | where every part of the body stands |
| HandshakeLaws.BranchLayout | src/bin/zkarche_client.rs:1057-1061 | branch i of the membership proof stands at 256 + 96*i |
| HandshakeLaws.AnswerLayout | src/bin/zkarche_server.rs:1311-1317 | the six parts of the answer, 32 bytes each |
| HandshakeLaws.UnknownTypesRefused | src/bin/zkarche_server.rs:1090-1125 | an empty message and an unknown type are refused |
| HandshakeLaws.CutMessages | src/bin/zkarche_server.rs:1103-1127 | a message cut off anywhere is refused as short, and bytes behind a complete one are not read |
| HandshakeLaws.RequestShowsDraws | src/bin/zkarche_client.rs:985-1066 | what one run in role mode sends determines every scalar and nonce it drew |
| HandshakeLaws.AnswerShowsDraws | src/bin/zkarche_server.rs:1289-1325 | the server's answer determines every scalar and nonce it drew |
| Handshake.ClientRequestWellFormed | src/bin/zkarche_client.rs:985-1066 | what the honest client sends is well formed for any randomness |
| Handshake.HonestProofsVerify | src/bin/zkarche_server.rs:1245-1287 | all proofs of an enrolled device verify against its own record |
| Handshake.HandleAuth | src/bin/zkarche_server.rs:1090-1325 | the handler's answer, that the replay cache changes exactly when the request decodes, before lookup and proofs, and the file written or the error when a due write fails |
| Handshake.ReplayStage | src/bin/zkarche_server.rs:1203-1218 | the verdict of the replay stage, the new generations, and the file written when a write is due |
| Handshake.AnsweredMeansEnrolled | src/bin/zkarche_server.rs:1220-1287 | the server answers only an unremembered key, where a registered key gives the pseudonym and the handle and all three proofs hold against its record |
| Handshake.ReplayedRequestRefused | src/bin/zkarche_server.rs:1203-1215 | a request with an accepted key is refused until more than a generation of other keys was accepted |
| Handshake.SharedPointsAgree | src/bin/zkarche_client.rs:539-565 | both sides compute the same Diffie-Hellman point |
| HandshakeLaws.SharedPointIsLinear | src/bin/zkarche_client.rs:539-548 | the shared point is linear in the peer's ephemeral and for the base point is the own ephemeral |
| HandshakeLaws.SharedPointsDiffer | src/bin/zkarche_server.rs:472-481 | different peers share different points |
| Handshake.AnswerConfirms | src/bin/zkarche_client.rs:1069-1143 | the client accepts the server's answer and reaches the keys and tag the server expects |
| HandshakeLaws.ClientAcceptsIff | src/bin/zkarche_client.rs:1069-1143 | the client accepts an answer if and only if it decodes, its key is the pinned one, its proof verifies under that key and its tag matches, and which state and keys it then holds |
| HandshakeLaws.ClientRefuses | src/bin/zkarche_client.rs:1106-1119 | a decodable answer under another key is refused for its key, one with a false proof for its proof |
| Handshake.HandshakeCompletes | src/bin/zkarche_server.rs:1103-1331 | for any enrolled device, role list, mode and randomness without identity points the whole handshake completes with equal keys and matching tags |
| CServer.HandleAuthC | c_implementation/zkarche_server.c:1054-1167 | the C handler on its arrays: decoding, replay stage, both lookups, proofs and answer, with or without memory |
| CServer.CheckRequest | c_implementation/zkarche_server.c:1119-1163 | lookup, proofs and answer as the handler runs them on the registry array |
| CrossLanguage.DecodersAgree | c_implementation/zkarche_server.c:1081-1101 | on any bytes, what the Rust server decodes the C server decodes to the same request |
| CrossLanguage.CDecodesIdentities | c_implementation/zkarche_server.c:1081-1101 | the C server decodes every message of group elements, with identity points too, where the Rust server refuses those |
| CrossLanguage.LookupsAgree | c_implementation/zkarche_server.c:448-470 | over the same records without collisions both C searches find the record that the Rust index and scan find |
| CrossLanguage.ProofChecksDiffer | c_implementation/zkarche_server.c:388-446 | the C proof checks pass exactly when the Rust checks pass and the message is free of zeros |
| CrossLanguage.SharedPointProper | c_implementation/zkarche_server.c:658-664 | proper ephemeral keys never share the identity point, so the C key derivation does not fail on them |
| CrossLanguage.CServerAnswersIff | c_implementation/zkarche_server.c:1054-1163 | on any bytes the Rust server decodes, from the same state, the C server answers if and only if its replay stage passes, the Rust server answers and the message is free of zeros, and then with the same bytes, key and expected tag |
| CrossLanguage.RustDeviceAtCServer | c_implementation/zkarche_server.c:1054-1167 | an honest Rust device completes the handshake at a C server that enrolled it if and only if the replay stage passes and its message is free of zeros |
| CrossLanguage.ZeroDeltaDivides | c_implementation/zkarche_server.c:388-407 | an honest run without re-randomization is answered by the Rust server and refused by the C server |
| TinyRun.ServersPart | c_implementation/zkarche_server.c:388-407 | one such run with every value written out |
| CrossLanguage.ProversAgree | c_implementation/zkarche_client.c:332-341 | the last matching index is the first one when no role is listed twice |
| KeyConfirmation.TranscriptDetermines | src/bin/zkarche_server.rs:502-532 | equal confirmation transcripts come from equal values in every field |
| KeyConfirmation.EqualTagsAgree | src/bin/zkarche_server.rs:535-553 | equal tags of one direction mean equal sessions and keys, or a named collision |
| KeyConfirmation.ClientAgreesWithServer | src/bin/zkarche_client.rs:1125-1143 | a client that accepts the server's tag holds the server's session and key, or a named collision |
| KeyConfirmation.ServerAgreesWithClient | src/bin/zkarche_server.rs:1295-1331 | a server that accepts the client's tag holds the client's session and key, or a named collision |
| KeyConfirmation.TagsDoNotReflect | src/bin/zkarche_server.rs:1309-1325 | a tag is never valid in the other direction, unless HMAC collides on two named inputs that always differ |
| KeyConfirmation.DirectionKeysSeparate | src/bin/zkarche_server.rs:535-542 | the two directions have different keys, unless HMAC collides on two named inputs that always differ |
| KeyConfirmation.EqualSessionKeysAgree | src/bin/zkarche_server.rs:472-498 | equal session keys come from equal inputs down to the shared point, or a named HMAC collision |
| Hkdf.HkdfExpand | c_implementation/zkarche_server.c:638-656 | the loop stays inside its buffer, writes only the requested bytes, and yields the output of section 2.3 of RFC 5869 for every length up to 8160 |
| Hkdf.NoWrapUpTo255 | c_implementation/zkarche_server.c:638-656 | the one-byte counter does not wrap within 255 blocks |
| Hkdf.Expand32IsExpand | src/bin/zkarche_server.rs:472-498 | a 32-byte output of the standard expansion is one HMAC call |
| Replay.ReplayCache.CheckAndInsert | src/bin/zkarche_server.rs:835-853 | accepts exactly unremembered keys, with the new generations and counters |
| Replay.ReplayCache.TakePersistBlob | src/bin/zkarche_server.rs:855-869 | hands out an image of the state exactly when a write is due |
| Replay.ReplayCache.Serialize | src/bin/zkarche_server.rs:822-833 | writes an image of both generations in some order |
| Replay.LoadReplayCache | src/bin/zkarche_server.rs:790-820 | a missing file gives an empty cache, a readable one its generations, any other its error |
| Replay.RunKeepsGenerations | src/bin/zkarche_server.rs:835-853 | over any run the generations stay disjoint and hold at most 2M keys |
| Replay.ExactWindow | src/bin/zkarche_server.rs:835-853 | a key accepted as the p-th of its generation is remembered through 2M-p further accepted keys and forgotten at the next |
| Replay.ServerWindow | src/bin/zkarche_server.rs:835-853 | with the server's 25,000 keys per generation a key accepted as the p-th is remembered through 50,000 - p more and forgotten at the next |
| Replay.AcceptedKeysDistinct | src/bin/zkarche_server.rs:835-853 | any M+2 consecutive accepted keys are pairwise distinct |
| Replay.WindowIsTight | src/bin/zkarche_server.rs:835-853 | the last key of a full generation is accepted again after M+1 others |
| Replay.ParseImageInverts | src/bin/zkarche_server.rs:790-833 | loading a written image gives back both key lists |
| Replay.ImageInvertsParse | src/bin/zkarche_server.rs:790-820 | a file that loads is exactly the image of what it loads as |
| Replay.AnyImageLoads | src/bin/zkarche_server.rs:790-833 | whatever the iteration order, loading gives back the two generations |
| Replay.ImageLayout | src/bin/zkarche_server.rs:822-833 | two little-endian counts of four bytes and then 64 bytes per key, the current generation first |
| ReplayC.CReplayCache.CheckAndInsert | c_implementation/zkarche_server.c:811-842 | the arrays after a fresh key, a replay, and an allocation failure after the rotation |
| ReplayC.InsertRefines | c_implementation/zkarche_server.c:811-842 | the C arrays stay duplicate-free and move exactly as the Rust sets |
| ReplayC.CReplayCache.Persist | c_implementation/zkarche_server.c:844-856 | the store and file after a due, undue or failed write |
| ReplayC.HandleReplayStage | c_implementation/zkarche_server.c:1103-1117 | what an authentication request does to cache and file, and whether it passes |
| ReplayDurability.FileIsPendingInsertsBehind | c_implementation/zkarche_server.c:739-856 | over any run with failures and restarts the file is the cache as it stood after an earlier event of that run, exactly `pending_inserts` accepted keys ago |
| ReplayDurability.PendingStaysBelowThreshold | c_implementation/zkarche_server.c:844-856 | while saves succeed at most 63 accepted keys await a write after each request |
| ReplayDurability.PassingMeansSaved | c_implementation/zkarche_server.c:1103-1117 | a request passes only with a fresh key that is then remembered and a file that is current or at most two seconds and 63 keys behind, and fails on a fresh key only for memory or a failed save |
| ReplayDurability.RestartLosesOnlyRecentKeys | c_implementation/zkarche_server.c:739-856 | a restart finds a readable file and forgets at most the last 63 accepted keys and no older one |
| ReplayThreads.ExactlyOneThreadPasses | src/bin/zkarche_server.rs:1203-1215 | in every interleaving exactly the first thread to lock with a key passes, if at most M other fresh keys are accepted after it |
| Registries.BuildHandleIndex | src/bin/zkarche_server.rs:204-210 | the built index agrees with the registry |
| Registries.Enrollment.HandleSetup | src/bin/zkarche_server.rs:1001-1079 | the server's proof, the verdict on the device's proof and key, and the new registry and index |
| Registries.HonestSetupEnrolls | src/bin/zkarche_server.rs:1011-1068 | an honest enrollment is accepted on both sides and its record can then be looked up |
| Registries.EnrollingTakesTheSecret | src/bin/zkarche_server.rs:1045-1056 | two accepted enrollments that differ only in hash and response compute the device's secret |
| Registries.WriteKeepsIndexIff | src/bin/zkarche_server.rs:1057-1068 | a write keeps index and registry in agreement if and only if it strands no old entry |
| Registries.InterleavedSetupsStrandEntry | src/bin/zkarche_server.rs:1011-1068 | two enrollments of one new id that both check first leave the index stale |
| RegistryThreads.AgreesInEveryInterleavingIff | src/bin/zkarche_server.rs:1011-1068 | with check and write as separate steps of any number of threads, index and registry agree in every interleaving if and only if the valid enrollments of each new id have one handle |
| Registries.IndexAgreesOverRuns | src/bin/zkarche_server.rs:1011-1068 | over any run of enrollments taken one step each, index and registry agree |
| Registries.LookupRecordByPid | src/bin/zkarche_server.rs:453-467 | the scan returns a record with that pseudonym, or none exists |
| Registries.HandleLookupAgreesWithScan | src/bin/zkarche_server.rs:1220-1242 | for an enrolled device's handle and pseudonym the index returns the very record every scan finds |
| Registries.HandleLookupIsSound | src/bin/zkarche_server.rs:1221-1231 | what the handle lookup accepts a scan could have returned |
| Registries.LoadRegistry | src/bin/zkarche_server.rs:626-666 | the loader's result, with its errors and skipped records |
| Registries.LoadedRegistry | src/bin/zkarche_server.rs:626-666 | any file loads exactly if it is a whole number of readable records, and then holds the last proper record of each id and nothing else |
| Registries.FirstBadRecordStops | src/bin/zkarche_server.rs:626-666 | the first unreadable record decides the error, whatever stands behind it |
| Registries.SaveRegistry | src/bin/zkarche_server.rs:670-689 | the file lists every record once in some order |
| Registries.RegistryRoundTrip | src/bin/zkarche_server.rs:626-689 | saved in any order, the file loads as the same map of non-identity records |
| Registries.RegistrySurvivesRestart | src/bin/zkarche_server.rs:626-689 | after any run of enrollments save and load give back the same registry |
| RegistryC.CRegistry.RegUpsert | c_implementation/zkarche_server.c:517-530 | return code and new array for new, repeated and conflicting records and for failures |
| RegistryC.UpsertEnrolls | c_implementation/zkarche_server.c:517-530 | an accepted record is enrolled afterwards, a refused one met another under its id, and only a new id is appended |
| RegistryC.RunsOnlyAppend | c_implementation/zkarche_server.c:517-530 | over any run ids stay unique and enrolled records stay unchanged in place |
| RegistryC.LookupRecordByHandle | c_implementation/zkarche_server.c:459-470 | returns the first record whose stored key has the handle |
| RegistryC.LookupRecordByPid | c_implementation/zkarche_server.c:448-457 | returns the first record whose stored key gives the pseudonym |
| RegistryC.FirstMatchIsMatch | c_implementation/zkarche_server.c:448-470 | what a search returns matches, and nothing matches when it returns nothing |
| RegistryC.SearchesAgree | c_implementation/zkarche_server.c:448-470 | without collisions the searches find the record of the Rust index and of the Rust scan, wherever it stands |
| RegistryC.EntriesRoundTrip | c_implementation/zkarche_server.c:478-505 | the saved array loads back unchanged |
| RegistryC.LoadedFileIsSaved | c_implementation/zkarche_server.c:491-505 | a file loads exactly if it is a whole number of records, and is then what saving the array writes |
| RegistryC.SameFile | c_implementation/zkarche_server.c:478-489 | both servers write the same file for the same records |
| FailureTrackers.FailureTracker.IsBlocked | src/bin/zkarche_server.rs:916-926 | answers whether the peer was banned and leaves the pruned map |
| FailureTrackers.FailureTracker.NoteFailure | src/bin/zkarche_server.rs:927-944 | the map after a failure, with window reset, saturating count and ban |
| FailureTrackers.PruningUnobservable | src/bin/zkarche_server.rs:915-948 | trackers that prune at different moments or never answer every query alike |
| FailureTrackers.BanStandsIff | src/bin/zkarche_server.rs:927-947 | in any state a running ban survives an operation exactly unless it is the peer's success or its failure after the window |
| FailureTrackers.RunsKeepBansMatched | src/bin/zkarche_server.rs:927-944 | over any run an entry carries a ban exactly when its count has reached the limit |
| FailureTrackers.BanOverRun | src/bin/zkarche_server.rs:915-948 | after a failure at T that reaches the limit every query before T+120 answers blocked until an operation lifts the ban, and right after the first that does there is no ban |
| FailureTrackers.RustBanEndsEarly | src/bin/zkarche_server.rs:927-944 | a run in which a peer banned until 120 is blocked at 60 and not at 62 |
| FailureTrackersC.CFailureTracker.Prune | c_implementation/zkarche_server.c:865-880 | the in-place compaction keeps exactly the live entries in order |
| FailureTrackersC.CFailureTracker.NoteSuccess | c_implementation/zkarche_server.c:898-906 | moving the tail down removes exactly the peer's entry |
| FailureTrackersC.CFailureTracker.NoteFailure | c_implementation/zkarche_server.c:908-946 | the array after a failure represents the pruned map with the failure noted, or only pruned when the array cannot grow |
| FailureTrackersC.KeptRepresents | c_implementation/zkarche_server.c:865-880 | filtering the array prunes the map it represents, peers staying unique |
| FailureTrackersC.RunTrackerC | c_implementation/zkarche_server.c:865-946 | over any run with a non-decreasing clock the C tracker answers as the Rust tracker |
| Admission.AcceptLoop | c_implementation/zkarche_server.c:1254-1280 | which connections the loop serves |
| Admission.AdmittedIffNotBanned | c_implementation/zkarche_server.c:1264-1278 | admission depends on the peer's own connections alone |
| Admission.BanIsExact | c_implementation/zkarche_server.c:889-946 | in every run, after a recorded failure at T that reaches the limit each connection of the peer before T+120 is refused whatever others do, and its first from then on is served |
| Admission.EighthFailureSetsBan | c_implementation/zkarche_server.c:908-946 | eight failures within a window of a peer without a live entry reach the limit |
| Admission.FewConnectionsAdmitted | c_implementation/zkarche_server.c:1264-1278 | a peer without a live entry is served as long as it has had fewer than eight connections |
| Admission.SuccessClears | c_implementation/zkarche_server.c:898-906 | after a success a peer is served again for its next eight connections at least |
| Admission.FailureRate | c_implementation/zkarche_server.c:908-946 | a peer that never succeeds has at most 8*(floor((L+60)/61)+1) failures recorded in any span of L seconds |
| ConnGuards.CounterCountsGuards | src/bin/zkarche_server.rs:956-978 | in every interleaving the counter is the number of live guards, at most 128, and never underflows |
| ConnGuards.FailureMeansProgress | src/bin/zkarche_server.rs:963-969 | every failed compare-and-exchange follows another thread's successful change since the load |
| ConnGuards.TryAcquire | src/bin/zkarche_server.rs:957-971 | the loop ends with a guard or at the limit, within one round more than the others interfere |
| EdhocApp.BuildProtectedRequest | src/bin/edhoc_client.rs:103-127 | the bytes built, or the error for a bad id or payload length |
| EdhocApp.ParseAndVerifyRequest | src/bin/edhoc_server.rs:123-170 | the moving-offset parser reads within range and returns the specified verdict |
| EdhocApp.ParseInvertsBuild | src/bin/edhoc_server.rs:123-170 | parsing a built request recovers its fields for UTF-8 ids of 1 to 64 bytes |
| EdhocApp.BuildInvertsParse | src/bin/edhoc_server.rs:123-170 | an accepted buffer is the encoding of its message with its tag |
| EdhocApp.RequestLayout | src/bin/edhoc_client.rs:103-127 | where each part of a request stands, its numbers little-endian, the tag over everything before it |
| EdhocApp.RequestTagCovers | src/bin/edhoc_server.rs:143-149 | one tag on two accepted requests means one request, or HMAC collides on two named inputs |
| EdhocApp.FitsFrameIff | src/bin/edhoc_client.rs:103-127 | a built request fits the frame limit exactly when id and payload stay within 4020 bytes |
| EdhocApp.ResponseAnswersItsRequest | src/bin/edhoc_client.rs:129-150 | a response is accepted with its status exactly for requests with its request's hash |
| EdhocApp.AcceptedResponse | src/bin/edhoc_server.rs:172-187 | an accepted response is the one built from its status, nonce and request |
| EdhocApp.ResponseTagCovers | src/bin/edhoc_client.rs:129-150 | one tag on two accepted responses means one response, or HMAC collides on two named inputs |
| EdhocApp.LabelsDiffer | src/bin/edhoc_server.rs:123-187 | what is tagged as a request is never what is tagged as a response |
| MtlsApp.BuildAuthRequest | src/bin/mtls_client.rs:43-64 | the bytes built, or the error for an over-long id or payload |
| MtlsApp.ParseAuthRequest | src/bin/mtls_server.rs:82-131 | the moving-offset parser reads within range and returns the specified verdict |
| MtlsApp.ParseInvertsBuild | src/bin/mtls_server.rs:82-131 | parsing a built request recovers it exactly when the clocks are within 300 seconds |
| MtlsApp.BuildInvertsParse | src/bin/mtls_server.rs:82-131 | an accepted buffer is the encoding of the request parsed from it |
| MtlsApp.RequestLayout | src/bin/mtls_client.rs:43-64 | where each part of a request stands, its numbers big-endian |
| MtlsApp.AcceptedIffResponse | src/bin/mtls_client.rs:66-82 | a response is accepted exactly when it is one built for a request with that hash |
| MtlsApp.ResponseAnswersItsRequest | src/bin/mtls_client.rs:66-82 | the server's response is accepted for exactly the requests with its request's hash |
| Framing.StreamDecodes | src/common/framing.rs:5-33 | concatenated frames within the limit decode to the original list |
| Framing.DecodedStream | src/common/framing.rs:18-33 | a stream that decodes completely is the concatenation of its frames |
| Framing.FrameLayout | src/common/framing.rs:5-16 | four bytes of length, the most significant first, and then the payload |
| Framing.Channel.RecvFrame | src/common/framing.rs:18-33 | the payload, rest and counter after a frame, and what an over-long frame consumes |
| Framing.SendAndReceive | src/common/framing.rs:5-33 | everything sent arrives in order and both byte counters agree |

## Left out

- Curve arithmetic, hash functions, HMAC and point compression are parameters; that `h` has an unknown logarithm is not assumed, results that rest on it say so.
- Sockets, timeouts, file permissions, environment flags, command lines, logging and zeroization.
- Cheating provers are covered by extraction from two accepted runs; no probability that a second run exists is modelled.
- The C client's driver (`do_auth`): its proofs, transcripts and key expansion are modelled, the sequence of calls around them only for the Rust client.
- CrossLanguage.CServerAnswersIff: covers the messages the Rust server decodes without an identity commitment; the C handler also takes messages with identity points and unreduced scalars, which `ServeAuth` follows with the library's reading of such scalars as a parameter.
- A stored record that is not a pair of points, which enrollment never lets in, makes the modelled C server refuse; the C code ignores one error of its library there.
- The Rust server falls back to an empty cache and registry when loading fails, the C server refuses to start; the loaders' results are modelled, not that choice.
- The Rust server writes the replay blob outside the lock, so a later write can be overtaken by an earlier one; durability is therefore proved for the C cache only.
- Handshake.HandleAuth: ends with the answer; the comparison of the client's tag is in HandshakeCompletes, and the forced write of the replay file after it is not modelled.
- Registries.Enrollment.HandleSetup: takes the check under the read lock and the write under the write lock as one step; the two as separate steps are the subject of RegistryThreads.
- FailureTrackersC.CFailureTracker.NoteFailure: does not model a failed copy of the peer's name, after which the C array holds an entry without a name.
- FailureTrackersC.RunTrackerC: runs with enough memory, as does Admission.AcceptLoop; a failure that could not be recorded is not counted by either.
- FailureTrackers.FailureTracker.IsBlocked: says nothing about authentication, since the Rust server consults it in enrollment only.
- ConnGuards.CounterCountsGuards: atomic operations interleave one after another; a relaxed load that returns an older value is not modelled.
- Admission.AcceptLoop: peers are opaque keys; the C key includes the port, the Rust key does not.
- Times are whole seconds in the rate limiters; the Rust clock is finer.
- The wire format of enrollment and the pairing token policy, which are single checks.
- EDHOC messages 1 to 4 and TLS belong to libraries; UTF-8 validity is a parameter of the codecs.
- Benchmarks, experiments and the unused helpers for encrypted blobs.
