# Whispee: verified models

Whispee is an end-to-end encrypted messenger. Its clients rely on a key log they can audit, a Double Ratchet, and a
group policy the clients enforce themselves; its server counts bytes, requests and sequence numbers. This project
states what those parts promise and proves it, for all inputs and all runs, about Dafny models that follow the code
branch by branch. `dafny verify dfyconfig.toml` checks everything.

## The modules

- `Merkle`, `Openings`, `Verifier`, `Entries`, `LogTheorems`: the tree of RFC 6962 and the two verifiers. Provers
  recurse over splits, verifiers loop over bits; an *opening*, a path with its siblings, is the shape both are measured
  against.
  The hash is an arbitrary function with 32-byte outputs, which cannot be injective. Every soundness statement
  therefore names the set of inputs its two computations hash and asks for no collision among **those**.
- `KeyLog`, `LogServer`: the server's appending transactions as interleaved steps, with the racing calls on the
  snapshot cache; and the process as a class whose methods take those steps.
- `RatchetKeys`, `Ratchet`, `RatchetRuns`, `RatchetSecrecy`, `RatchetReplay`, `X3dh`, `HeaderCodec`: symbolic keys;
  one party as a class over its ten fields; two parties over a network that delays, reorders, loses and damages genuine
  messages; what a stolen state can and cannot open; and what second copies and foreign headers do.
- `Roster`, `Policy`, `Conversation`, `GroupRuns`: the strict roster codec, the decision function, the client class
  with its rebuild-and-compare gate, and what every run of accepted commits keeps.
- `Mailbox`, `Gateway`, `Storage`, `Throttle`: sequence numbers against the purge and the catch-up over them, stored
  bytes across four write and delete paths, and the fixed-window limiter with its sweep.
- `Attest`: the six signed or authenticated messages.

## Where the code and its comments part ways

The models follow the code.

- `crates/crypto-core/src/roles.rs:316-318` says a group never ends up without an authority. Handing it over to an
  account that has no leaf is accepted, and the group accepts no commit ever after
  (`HandOverToAnAbsentAdminFreezes`, `FrozenWithoutTheAdmin`).
- `crates/crypto-core/src/conversation.rs:89-90` says the empty handle belongs to no roster. `Roster::new` refuses it
  as admin only; where a roster lists it as a moderator, and only there, committers without a handle act as one
  (`NamelessCommitters`, `NamelessModeratorsTravel`).
- `crates/crypto-core/src/conversation.rs:530-535` says comparing a proposed context with the rebuilt set closes the
  whole class. It does for what commits install. What `join` installs, or a commit to a flat group, passes no gate, and
  over such a context anybody's commit of the honest set with the same policies is accepted: exactly when
  `OutsidersRewriteExactly` says, with an input in `JoinedContextIsRewritten`. Policies and members are safe there too:
  `EveryStepObeys` starts from any context.
- `crates/ratchet-lab/src/ratchet.rs:222-226` describes the refusal of a replay. On the current chain it leaves the
  state untouched. A replay from an abandoned chain is refused as well, but may turn the ratchet first, exactly when
  `ReplayOnOldChain` says; a plain conversation gets there (`ReplayTurnsTheRatchet`), and the session is then over in
  both directions.
- `crates/ratchet-lab/src/ratchet.rs:31-33` says a header cannot be modified, being authenticated by the seal. The
  state moves before the seal is looked at, and stays moved when it fails: one header of nobody's, exactly as
  `EstrangedExactly` says, ends the session in both directions (`SessionDies`, `VictimIsUnheard`). A replay that turns
  the ratchet is a case of it (`ReplayTurnsAside`).
- `crates/server/src/gateway.rs:425-426` says a repeated group buys only one query. Groups are compared as
  hexadecimal text before decoding, so it does exactly as long as the group is spelled alike
  (`RepetitionIsBySpelling`, `OneGroupTwoQueries`).
- `crates/server/src/lib.rs:503-505` asks that the two statements of a purge pass that pick abandoned groups be edited
  together. They agree on the condition and not on the clock: each reads its own. Bytes are lost to the counters
  exactly when a group with a charged payload becomes abandoned in between (`PassConservesExactly`,
  `PassThatLosesBytes`), and never the other way round (`NobodyIsUndercharged`).
- `crates/server/src/routes.rs:2643-2646` reads a gap from `cursor < oldest - 1`. That is exact for cursors from zero
  on; a negative cursor always reports one (`GapIsExact`).
- `crates/server/src/lib.rs:279-282` wants the ground never to move under a client that pages through one catch-up.
  It moves exactly when a purge takes the very next envelope to read (`GroundMovesExactly`), which a backlog of more
  than a page beyond the tail allows (`LaggingReaderIsOvertaken`) and none within the tail does
  (`RecentReadersSeeNoGap`); the client is told.
- `crates/server/src/routes.rs:2482-2495` stamps an envelope with the start of its transaction and numbers it under a
  row lock, so racing posts may be stamped against their order. What a purge then loses without a report is said by
  `SilentLossExactly`, with an input in `RacingPostsLoseSilently`.
- `crates/server/src/throttle.rs:254-256` speaks of two quotas at a window's boundary. The worst case is one request
  less (`SpanBound`, `SpanBoundIsTight`).
- `crates/transparency/src/lib.rs:93-94` promises that length prefixes separate entries. They do for fields of at
  most 65535 bytes, which is all the server logs; past that, `CollisionsExactly` says which entries have a double.

## Model

| member | source | states |
|---|---|---|
| `Merkle.ComputeSplitPoint` | crates/transparency/src/lib.rs:126-132 | the doubling loop finds the recursive split point, the power of two strictly below `n` and at least half of it |
| `Merkle.SplitStable` | crates/transparency/src/lib.rs:121-132 | appending never moves a split: a prefix that reaches past the split of the whole splits at the same place |
| `Merkle.RootInjective` | crates/transparency/src/lib.rs:110-119 | two leaf lists of one length with one root are equal, unless two inputs that were hashed collide |
| `Merkle.NodeInjective` | crates/transparency/src/lib.rs:83-89 | a node hash determines both children, on the inputs named as collision-free |
| `Openings.OpenExact` | crates/transparency/src/lib.rs:231-249 | a siblings list and a seed stand for exactly one path from the last complete subtree of the older tree to the root of the newer |
| `Openings.ExtendsByOpening` | crates/transparency/src/lib.rs:259-323 | every path of that shape, written out, is accepted between its two roots |
| `LogTheorems.OpeningOfFits` | crates/transparency/src/lib.rs:216-249 | the honest path leads to the root of the whole and to the root of the prefix |
| `LogTheorems.SubtreeProofIsOpening` | crates/transparency/src/lib.rs:231-249 | the recursive prover writes out the honest path, its seed left out exactly when the older tree is one complete subtree |
| `Verifier.WalkIsOpening` | crates/transparency/src/lib.rs:277-319 | the bit-shifting walk over `from - 1` and `to - 1` ends at the root exactly when the siblings form a path of the recursive shape, and then holds both its roots: the fast form refines the recursive one |
| `Verifier.StartComplete` | crates/transparency/src/lib.rs:277-292 | the first inner loop clears `fnode` exactly when the older tree is one complete subtree of the newer |
| `Verifier.VerifyConsistency` | crates/transparency/src/lib.rs:259-323 | the iterative verifier accepts exactly the proofs that open to both roots, and says `BadRange` exactly for the ranges that have no proof |
| `LogTheorems.ConsistencyComplete` | crates/transparency/src/lib.rs:216-249 | for every leaf list and every `0 < m <= n` the recursive proof is accepted |
| `LogTheorems.ConsistencyExact` | crates/transparency/src/lib.rs:259-323 | against two known trees a proof is accepted if and only if the older is a prefix of the newer and the proof is the one the prover writes, or two hashed inputs collide |
| `LogTheorems.ForkNeverHeals` | crates/transparency/src/lib.rs:259-323 | one head accepted as extending two roots of one size makes those roots equal, whatever the proofs |
| `LogTheorems.ExtendsTransitive` | crates/transparency/src/lib.rs:259-323 | acceptance composes: from two accepted proofs a third is built that takes the first head to the last, without any tree |
| `LogTheorems.HistoryCollapses` | crates/transparency/src/lib.rs:259-323 | over any history of accepted heads the last extends each earlier one |
| `LogTheorems.ForkedHistoriesNeverMeet` | crates/transparency/src/lib.rs:259-323 | two clients once shown different heads of one size never accept a common head again, however many heads and proofs lead them on |
| `Verifier.PathIsOpening` | crates/transparency/src/lib.rs:169-210 | the direction bits recorded on the descent and climbed backwards compute the recursive audit path |
| `Verifier.VerifyInclusion` | crates/transparency/src/lib.rs:169-210 | the verifier accepts exactly the audit paths that open to the expected root, and says `OutOfRange` exactly when the index is outside |
| `LogTheorems.InclusionComplete` | crates/transparency/src/lib.rs:135-155 | the honest audit path is accepted at every index of every tree |
| `LogTheorems.InclusionExact` | crates/transparency/src/lib.rs:135-210 | against a known tree one leaf and one path are accepted at each index: the leaf that is there and the path the prover writes |
| `LogTheorems.AcceptedLeafNeverChanges` | crates/transparency/src/lib.rs:169-323 | a leaf accepted at an index of one head is the only one ever accepted there in any head that extends it |
| `Entries.CollisionsExactly` | crates/transparency/src/lib.rs:95-103 | an entry shares its bytes with another if and only if one of its fields is past sixteen bits and carries, a whole number of wraps from its border with the other, the two bytes of the key's prefix |
| `Entries.EntryInjective` | crates/transparency/src/lib.rs:91-103 | an entry whose fields fit their sixteen-bit prefixes is determined by its bytes among all entries |
| `Entries.OversizedEntriesCollide` | crates/transparency/src/lib.rs:95-103 | past 65535 bytes the prefix is truncated by its cast: an account of 65536 zero bytes with an empty key has a double |
| `LogTheorems.RootCommitsToEntries` | crates/transparency/src/lib.rs:75-119 | equal roots mean equal lists of entries even when the sizes differ, because leaf, node and empty-tree inputs are kept apart |
| `KeyLog.RunKeepsLog` | crates/server/src/log.rs:68-132 | in every interleaving of locks, draws, inserts, commits, roll-backs and account deletions each later table holds only rows of an earlier one or rows numbered past all of it |
| `KeyLog.TablesGrow` | crates/server/src/log.rs:68-132 | without account deletions no row of an earlier table is ever missing and every new one is numbered past it |
| `KeyLog.TableExact` | crates/server/src/log.rs:66-113 | in every run the committed table holds exactly the rows whose transaction drew them, then committed without a roll-back in between, and whose account was not deleted since: all the rows of such a transaction, each under the number it drew |
| `KeyLog.RollbackLeavesAHole` | crates/server/src/log.rs:111-113 | a number drawn in a transaction that was rolled back is borne by no row of any table of the run |
| `KeyLog.PendingExact` | crates/server/src/log.rs:68-132 | what a transaction holds back is what it drew and has not ended on |
| `KeyLog.OrderByExtends` | crates/server/src/log.rs:269-284 | rows numbered past all others come after them: the ordered read of the later table extends that of the earlier |
| `KeyLog.EqualFingerprintsEqualTables` | crates/server/src/log.rs:203-228 | over any history of appends and cascade deletions an equal count and largest number at two moments mean the same rows |
| `KeyLog.CacheKeeps` | crates/server/src/log.rs:324-340 | every step of racing `snapshot` calls keeps the cache and each call in flight truthful about some committed table |
| `KeyLog.HitIsCurrent` | crates/server/src/log.rs:324-334 | a cached tree with the probed fingerprint is the tree of the table that was probed |
| `KeyLog.SnapshotWasTheTable` | crates/server/src/log.rs:324-340 | every tree `snapshot` returns was the committed table at one moment between the step that probed for this call and its answer, with rebuilds racing |
| `KeyLog.ServedHeadsAreConsistent` | crates/server/src/routes.rs:1123-1137 | the consistency proof built for any two heads served in an append-only run is accepted, whichever call was answered first |
| `KeyLog.IndexLocates` | crates/server/src/log.rs:367-372 | counting the rows numbered below gives the position in the ordered read, gaps or not |
| `KeyLog.ServedInclusionVerifies` | crates/server/src/routes.rs:1035-1056 | a snapshot call has returned a tree, then the latest row is read, then its index, with appends in between: the route answers exactly when the row is in that tree, and the answer then verifies against its head and names the account's newest key in it |
| `KeyLog.WithoutTheLockALeafMoves` | crates/server/src/log.rs:79-113 | the same machine without the lock's guard has a run that serves two heads no proof at all takes from the one to the other: a leaf already counted has moved |
| `LogServer.LogServer.Append` | crates/server/src/log.rs:68-132 | lock, then draw and insert under it: the two steps of the model, invariants kept |
| `LogServer.LogServer.CommitTransaction` | crates/server/src/log.rs:97-102 | rows of a transaction become visible together and its lock is released |
| `LogServer.LogServer.RollbackTransaction` | crates/server/src/log.rs:111-113 | a roll-back moves no row into the table, keeps the numbers it drew drawn, and releases its lock |
| `LogServer.LogServer.RebuildTree` | crates/server/src/log.rs:269-284 | leaves, root and fingerprint all describe one ordered read of the table |
| `LogServer.LogServer.CurrentTree` | crates/server/src/log.rs:324-340 | an uninterrupted call answers with the tree of the table as it stands, hit or miss |
| `X3dh.OutcomesAgree` | crates/ratchet-lab/src/x3dh.rs:48-101 | against a published bundle both sides reach one root key and one associated data if and only if the initial message arrives as it was sent |
| `X3dh.SessionsRestOnSignedPrekeys` | crates/ratchet-lab/src/x3dh.rs:53-55 | whatever bundle a server hands out in an owner's name, with any signature of that owner: a session rests, on two of its agreements, on a prekey that owner signed |
| `X3dh.AssociatedDataNamesBoth` | crates/ratchet-lab/src/x3dh.rs:40-45 | the associated data names the initiator, then the responder: two sides share it exactly when each means the other |
| `X3dh.RefusalsExact` | crates/ratchet-lab/src/x3dh.rs:53-101 | an initiator refuses exactly the bundles whose prekey the named identity did not sign, a responder exactly the messages that claim a one-time prekey it has not |
| `HeaderCodec.HeaderRoundTrip` | crates/ratchet-lab/src/ratchet.rs:42-64 | a header reads back from its forty bytes and only from them |
| `HeaderCodec.BytesBindTheHeader` | crates/ratchet-lab/src/ratchet.rs:202-207 | the associated data of two messages is the same bytes exactly when session and header are the same: sealing under the value of a header is sealing under its bytes |
| `Ratchet.DoubleRatchet.InitInitiator` | crates/ratchet-lab/src/ratchet.rs:94-117 | the first state of the initiator |
| `Ratchet.DoubleRatchet.InitResponder` | crates/ratchet-lab/src/ratchet.rs:121-138 | the first state of the responder |
| `Ratchet.DoubleRatchet.Encrypt` | crates/ratchet-lab/src/ratchet.rs:140-156 | the method does to the fields what the state function says, on success and on error |
| `Ratchet.DoubleRatchet.Decrypt` | crates/ratchet-lab/src/ratchet.rs:158-188 | the method does to the fields what the state function says, including the changes an error leaves behind; `StateIgnoresTheSeal`, `OneKeyPerHeader` and the run theorems say what that function promises |
| `Ratchet.DoubleRatchet.SkipMessageKeys` | crates/ratchet-lab/src/ratchet.rs:211-244 | the loop stashes the keys of the positions stepped over; an error leaves the state untouched |
| `Ratchet.DoubleRatchet.DhRatchet` | crates/ratchet-lab/src/ratchet.rs:248-264 | both root derivations, the receiving one with the old pair |
| `Ratchet.StashContents` | crates/ratchet-lab/src/ratchet.rs:233-239 | the loop stashes one key per position stepped over, each the chain iterate of its position |
| `Ratchet.DecryptBounded` | crates/ratchet-lab/src/ratchet.rs:158-188 | whatever arrives, one reception stashes at most `2 * MAX_SKIP` keys |
| `Ratchet.StateIgnoresTheSeal` | crates/ratchet-lab/src/ratchet.rs:158-188 | where a reception leaves the state is decided by the header alone: no ciphertext moves it otherwise than the message whose header it carries |
| `Ratchet.OneKeyPerHeader` | crates/ratchet-lab/src/ratchet.rs:164-188 | under one header exactly the ciphertexts of one key and associated data open, the others fail the seal, or all are refused alike |
| `RatchetRuns.TurnKeeps` | crates/ratchet-lab/src/ratchet.rs:248-264 | following the peer lands both derivations where the peer's own did |
| `RatchetRuns.DecryptKeeps` | crates/ratchet-lab/src/ratchet.rs:158-188 | receiving a genuine unread message keeps the invariant of a party in each of the three cases and returns what is owed |
| `RatchetRuns.RunKeeps` | crates/ratchet-lab/src/ratchet.rs:94-264 | the invariant of both parties and the network holds in every state of every run |
| `RatchetRuns.EveryDeliveryOpens` | crates/ratchet-lab/src/ratchet.rs:158-188 | in every run, whatever was delayed, reordered, damaged or lost, a genuine message whose key is not spent opens to its own plaintext, unless one of its two skips exceeds `MAX_SKIP` and is refused with exactly that error |
| `RatchetRuns.DamageIsDelivery` | crates/ratchet-lab/src/ratchet.rs:164-188 | a damaged copy of an unread message never opens and leaves both parties exactly where the message itself would have |
| `RatchetRuns.SpentExactly` | crates/ratchet-lab/src/ratchet.rs:158-188 | in every run a key is spent if and only if its own message was handed over before, whole or damaged, and was not refused for a skip: each damaged packet costs the message it copies and no other |
| `RatchetRuns.StashIsExact` | crates/ratchet-lab/src/ratchet.rs:211-244 | in every run the stash for the peer's key holds exactly the unread positions below `nr`, each under the key its message was sealed with |
| `RatchetRuns.HandshakeOpens` | crates/ratchet-lab/src/x3dh.rs:48-101 | the two ratchets a handshake leaves are the opening every run starts from |
| `RatchetSecrecy.KnowsChainExactly` | crates/ratchet-lab/src/ratchet.rs:1-12 | with every derivation run forward, a state yields the chains it sends and receives on from where they stand, and the peer's next one, and no other |
| `RatchetSecrecy.StolenStateOpens` | crates/ratchet-lab/src/ratchet.rs:3-12 | a state stolen at any moment of any run opens, of everything ever sent, exactly this: to the victim, what it had not read then up to the end of the peer's next chain; from the victim, what it sends until its ratchet turns |
| `RatchetSecrecy.HandshakeApart` | crates/ratchet-lab/src/x3dh.rs:59-68 | the secret of a handshake rests on an agreement that no scalar but the ephemeral and the responder's identity has a part in |
| `RatchetSecrecy.HandshakeStateOpens` | crates/ratchet-lab/src/ratchet.rs:3-12 | the same, for every run a handshake opened whose ratchet keys are keys of their own |
| `RatchetSecrecy.ReadStaysClosed` | crates/ratchet-lab/src/kdf.rs:24-25 | forward secrecy: no state of either party opens a message that was read before it was stolen |
| `RatchetSecrecy.RoundTripHeals` | crates/ratchet-lab/src/ratchet.rs:7-12 | recovery: what either party writes once the victim has turned its ratchet is closed to the thief for ever |
| `RatchetReplay.ReplayOnCurrentChain` | crates/ratchet-lab/src/ratchet.rs:222-226 | a second copy on the current chain is refused and changes nothing |
| `RatchetReplay.ReplayOnOldChain` | crates/ratchet-lab/src/ratchet.rs:172-188 | a second copy from an abandoned chain is never opened; the state is untouched exactly when the length it announces is behind the current position or too far ahead |
| `RatchetReplay.OpensExactly` | crates/ratchet-lab/src/ratchet.rs:158-188 | in every run with damage, replay and loss: a genuine message handed over at any moment opens if and only if no earlier hand-over, whole or damaged, has spent its key and neither skip is too long |
| `RatchetReplay.ReplayTurnsTheRatchet` | crates/ratchet-lab/src/ratchet.rs:172-188 | plain conversations reach the other case: from six turns of one message each on, the packet of three turns ago once more turns the ratchet |
| `RatchetReplay.EstrangedExactly` | crates/ratchet-lab/src/ratchet.rs:172-188 | whatever message reaches a party in step, root and both chains leave the genuine derivation if and only if its header names a key that is not set aside, not the current one and not the next one of the peer, and announces a length the skip accepts: the ciphertext has no say |
| `RatchetReplay.SomeHeaderTurnsAside` | crates/ratchet-lab/src/ratchet.rs:31-33 | in every state of every run each party has such a header |
| `RatchetReplay.ReplayTurnsAside` | crates/ratchet-lab/src/ratchet.rs:172-188 | a second copy from an abandoned chain is such a message exactly when it moves the state |
| `RatchetReplay.SessionDies` | crates/ratchet-lab/src/ratchet.rs:158-188 | after one message that turned the ratchet aside, whatever its ciphertext and whatever the party receives and sends next, no message under any key of the genuine derivation opens again, save those whose keys it had set aside by then |
| `RatchetReplay.VictimIsUnheard` | crates/ratchet-lab/src/ratchet.rs:140-188 | and whatever that party writes from then on is refused by a peer that is in step |
| `Roster.PushString` | crates/crypto-core/src/roles.rs:144-152 | a handle is appended behind its length, or refused |
| `Roster.Encode` | crates/crypto-core/src/roles.rs:104-116 | the loop writes the canonical layout or reports the first part that does not fit |
| `Roster.Decode` | crates/crypto-core/src/roles.rs:122-141 | the cursor loop reads what the recursive reading reads, errors included |
| `Roster.ListedExact` | crates/crypto-core/src/roles.rs:122-141 | bytes list an admin and moderators if and only if they are the canonical layout of them |
| `Roster.RosterRoundTrip` | crates/crypto-core/src/roles.rs:104-141 | every roster `new` can produce reads back as itself |
| `Roster.DecodedIsCanonical` | crates/crypto-core/src/roles.rs:118-141 | what is read encodes back to the same bytes exactly when they did not list the admin among the moderators: the one redundancy the reader accepts |
| `Roster.WithoutIsAFilter` | crates/crypto-core/src/roles.rs:64-70 | dropping the admin from a list of moderators drops and moves nothing else |
| `Policy.AuthorizeIsTheTable` | crates/crypto-core/src/roles.rs:274-326 | the cascade of refusals accepts exactly what the table of ranks permits |
| `Policy.RefusalNamesTheRule` | crates/crypto-core/src/roles.rs:274-326 | every refusal names the first line of the table the commit breaks, whatever the order of its removals |
| `Policy.OrderIsIrrelevant` | crates/crypto-core/src/roles.rs:300-323 | neither verdict nor the rule named depends on order and repetition of removals and remaining members |
| `Policy.RevocationsOnlyOpen` | crates/crypto-core/src/roles.rs:300-304 | verifying more revocations never turns acceptance into refusal |
| `Policy.NamelessCommitters` | crates/crypto-core/src/conversation.rs:89-96 | under every canonical roster a committer without a handle gets an add, a lifetime change or a removal that takes rank accepted if and only if the roster lists the empty handle as a moderator, and never a change of roster |
| `Policy.NamelessModeratorsTravel` | crates/crypto-core/src/roles.rs:64-70 | such rosters are canonical and survive the byte form |
| `Conversation.LifetimeRoundTrip` | crates/crypto-core/src/lifetime.rs:47-57 | lifetimes and strings of four bytes correspond one to one |
| `Conversation.HonestReads` | crates/crypto-core/src/conversation.rs:58-87 | an honest extension set reads back as the policies it was built from |
| `Conversation.UnknownIsTheFirst` | crates/crypto-core/src/conversation.rs:508-515 | of two extensions of one kind the first is the one that is read |
| `Conversation.GateExact` | crates/crypto-core/src/conversation.rs:508-547 | the rebuild-and-compare gate lets through the sets `context_extensions` builds and nothing else |
| `Conversation.ProposedIsTheFirst` | crates/crypto-core/src/conversation.rs:499-506 | of two contexts in one commit the first is the one that is judged |
| `Conversation.CapabilitiesCoverPolicies` | crates/crypto-core/src/conversation.rs:52-57 | every context that passes the gate declares, first, exactly the policies it carries, each once |
| `Conversation.RedundantRosterRefused` | crates/crypto-core/src/conversation.rs:542-547 | a roster that lists its admin among the moderators never passes the gate |
| `Conversation.Conversation.CreateAdministered` | crates/crypto-core/src/conversation.rs:112-142 | an administered group starts honest, or is refused when its admin is empty or does not fit |
| `Conversation.Conversation.Join` | crates/crypto-core/src/conversation.rs:335-358 | joining installs the members and the context of the Welcome as they came, past no gate |
| `Conversation.Conversation.SetLifetime` | crates/crypto-core/src/conversation.rs:174-187 | the prepared commit rebuilds the whole set around the current roster; the group itself does not move |
| `Conversation.Conversation.SetRoles` | crates/crypto-core/src/conversation.rs:196-214 | the prepared commit rebuilds the whole set around the current lifetime; the group itself does not move |
| `Conversation.Conversation.ApplyPending` | crates/crypto-core/src/conversation.rs:252-255 | applying merges the prepared commit |
| `Conversation.Conversation.Process` | crates/crypto-core/src/conversation.rs:415-430 | a refused commit leaves the group untouched, an accepted one is merged |
| `Conversation.Conversation.AuthorizeCommit` | crates/crypto-core/src/conversation.rs:450-570 | the loops over proposals and members build the summary the verdict is defined on, errors in the order of the code |
| `GroupRuns.AcceptedMeans` | crates/crypto-core/src/conversation.rs:450-570 | an accepted commit of any group whose roster can be read, in terms of the group before and after it: the admin keeps a leaf, policies and new members move as far as rank allows, a context that moves passes the gate, and the group is then flat or readable again |
| `GroupRuns.EveryStepObeys` | crates/crypto-core/src/roles.rs:274-326 | in any run, whatever context it began with, through any number of hand-overs and flat stretches: every accepted commit meets a flat group or obeys the roster in force when it was made, in roster, lifetime, context, new members, leaves and the seat of the admin |
| `GroupRuns.AlwaysAdministered` | crates/crypto-core/src/conversation.rs:502-549 | from any context with a readable roster on and until it is flat, a group carries a readable roster, whoever installed it, in the context it began with or one that passed the gate |
| `GroupRuns.RostersComeDownFromAdmins` | crates/crypto-core/src/roles.rs:283-288 | over any run the roster in force at the end stood since it came in, and was there from the start, came in by the admin of the roster it replaced, or came in while the group was flat |
| `GroupRuns.LeafOutOfReach` | crates/crypto-core/src/roles.rs:300-314 | in every group with a readable roster a leaf the committer has no rank over goes with its own request or a revoked key, or stays |
| `GroupRuns.OneRemovalExactly` | crates/crypto-core/src/roles.rs:300-323 | a commit of one removal is accepted exactly when the leaf asked, its key is revoked or the committer has the rank, and another leaf of the admin stays |
| `GroupRuns.OneAddExactly` | crates/crypto-core/src/roles.rs:290-298 | a commit of one add is accepted exactly from role holders of groups whose admin is seated |
| `GroupRuns.MergedExact` | crates/crypto-core/src/conversation.rs:415-430 | a merge leaves exactly the members no proposal removes and those the proposals add |
| `GroupRuns.RosterMovesOnlyByItsAdmin` | crates/crypto-core/src/roles.rs:283-288 | over any run from a readable roster without a commit of its admin, the roster stands and the admin keeps a leaf |
| `GroupRuns.TermsEndByTheAdmin` | crates/crypto-core/src/roles.rs:283-288 | whenever a run ends with another roster, or with none, the commit that ended the unbroken term was the sitting admin's |
| `GroupRuns.WithoutARoleNothingMoves` | crates/crypto-core/src/roles.rs:286-298 | over any run from a readable roster without a role holder's commit both policies stand and nobody joins; the context stands too, unless it is one the gate refuses and an honest one took its place |
| `GroupRuns.OutsidersRewriteExactly` | crates/crypto-core/src/conversation.rs:516-547 | a committer without a role gets some commit that changes the context accepted if and only if the context in force would not pass the gate, the lifetime can be read and the admin has a leaf; what it installs is the honest set of the same policies |
| `GroupRuns.ContextNeedsARoleExactly` | crates/crypto-core/src/conversation.rs:516-547 | every accepted change of context is a role holder's exactly in groups whose context passes the gate and in those where no change can be accepted |
| `GroupRuns.JoinedContextIsRewritten` | crates/crypto-core/src/conversation.rs:335-358 | a context with a roster and no required capabilities, which joining installs: a commit of any ordinary member exchanges it |
| `GroupRuns.LeavesGoByTheirOwnWord` | crates/crypto-core/src/roles.rs:300-314 | over any run a member out of the committers' reach is still there or left by its own request or a revoked key: a moderator's leaf falls to nobody but the admin |
| `GroupRuns.AdminKeepsALeaf` | crates/crypto-core/src/roles.rs:316-323 | whoever commits, in any run the admin of each roster in force has a leaf before and after every accepted commit |
| `GroupRuns.FrozenWithoutTheAdmin` | crates/crypto-core/src/roles.rs:316-323 | every group: a flat one accepts some commit, one with an unreadable roster none, and an administered one some if and only if its admin has a leaf |
| `GroupRuns.HandOverToAnAbsentAdminFreezes` | crates/crypto-core/src/conversation.rs:189-214 | handing the group to an account without a leaf is accepted, and no commit is accepted after it |
| `GroupRuns.HonestLifetimePasses` | crates/crypto-core/src/conversation.rs:502-549 | in every group with a readable roster and a seated admin a lifetime commit of `set_lifetime` is accepted exactly when the lifetime in force can be read and the commit changes nothing or its committer holds a role |
| `GroupRuns.HonestRolesPass` | crates/crypto-core/src/conversation.rs:502-549 | in every such group a commit of `set_roles` is accepted exactly when it changes nothing or its committer is the admin |
| `GroupRuns.RolesCommitIsHonest` | crates/crypto-core/src/conversation.rs:196-214 | a roles commit is prepared exactly for rosters with an admin that fit the byte form in groups whose lifetime can be read, and keeps it |
| `GroupRuns.LifetimeCommitIsHonest` | crates/crypto-core/src/conversation.rs:174-187 | a lifetime commit is prepared exactly where the roster can be read, and keeps it |
| `GroupRuns.SettersAreRegisters` | crates/crypto-core/src/conversation.rs:42-51 | from any group whose policies can be read, over any sequence of setters the group context behaves as two independent registers, although each commit replaces the whole set |
| `Mailbox.PostKeeps` | crates/server/src/routes.rs:2482-2497 | a post extends the interval of survivors at its head |
| `Mailbox.PurgeKeeps` | crates/server/src/lib.rs:447-466 | a purge takes a prefix of the interval: exactly the envelopes past the retention that lie behind the tail |
| `Mailbox.PurgesCompose` | crates/server/src/lib.rs:447-466 | survivors of a purge are unchanged, and two purges do what the later one does alone |
| `Mailbox.StoredExactly` | crates/server/src/lib.rs:447-466 | over any posts, purges and fetches, clocks in any order: an envelope is stored, under its own sequence and stamp, exactly from its post to the first purge that finds it past the retention and out of the tail |
| `Mailbox.PageIsConsecutive` | crates/server/src/routes.rs:2672-2682 | a page is the run of consecutive sequences from the cursor, or from the oldest when that lies behind, cut at the page size |
| `Mailbox.GapIsExact` | crates/server/src/routes.rs:2643-2646 | a gap is reported exactly when a sequence after the cursor was handed out and is gone, or the cursor is negative |
| `Mailbox.SplitFetchIsExact` | crates/server/src/routes.rs:2670-2682 | with a purge between its two reads a fetch misses envelopes silently exactly when that purge moved the oldest one past the cursor |
| `Mailbox.PagingMissesNothing` | crates/server/src/routes.rs:2661-2691 | however posts and purges fall between pages, a client told of no gap has received exactly what was posted after its first cursor, in order; one empty page later it has everything |
| `Mailbox.RecentReadersSeeNoGap` | crates/server/src/lib.rs:271-289 | in every run the last five hundred envelopes are stored and a reader no further behind is never told of a gap |
| `Mailbox.GroundMovesExactly` | crates/server/src/lib.rs:279-282 | a purge between two pages overtakes a client exactly when it takes the very next envelope to read, and the client is then told |
| `Mailbox.LaggingReaderIsOvertaken` | crates/server/src/lib.rs:279-289 | a run in which it happens, for every backlog of more than a page beyond the tail |
| `Mailbox.SilentLossExactly` | crates/server/src/lib.rs:447-466 | with creation times in any order: a purge loses envelopes after a cursor without a report exactly when it takes one of them and leaves one the reader has reached or is to read next |
| `Mailbox.InOrderNothingIsSilent` | crates/server/src/lib.rs:447-466 | with creation times in the order of the sequences a purge reports a gap or leaves everything after the cursor |
| `Mailbox.RacingPostsLoseSilently` | crates/server/src/routes.rs:2482-2497 | two posts stamped against their sequences make it happen |
| `Gateway.BothSpellingsDecode` | crates/server/src/gateway.rs:431 | every group id has a lower-case and an upper-case spelling |
| `Gateway.SpellingsDiffer` | crates/server/src/gateway.rs:431 | the two differ exactly when some digit of the id is a letter |
| `Gateway.HexDecodeExact` | crates/server/src/gateway.rs:431 | a text decodes to an id exactly when it spells it, two digits a byte in either case, with nothing else in it |
| `Gateway.RepetitionIsBySpelling` | crates/server/src/gateway.rs:424-434 | for every list of cursors each group of the caller is queried at most once if and only if no two differently spelled cursors within the cap name it; never more queries than the cap |
| `Gateway.OneGroupTwoQueries` | crates/server/src/gateway.rs:425-429 | any id with a letter in it, in both cases, buys two queries |
| `Gateway.AnswerIsExact` | crates/server/src/gateway.rs:436-467 | which frames answer a cursor, negative ones included: the gap exactly when envelopes after it are gone, and exactly the survivors that follow it |
| `Gateway.AnswerInOrder` | crates/server/src/gateway.rs:436-467 | the gap comes before every sequence and the sequences increase, whatever the mailbox |
| `Gateway.CatchUpInOrder` | crates/server/src/gateway.rs:411-472 | over a whole catch-up, under each spelling: one gap at most, before every sequence, and no sequence twice or out of order |
| `Gateway.QueriesExact` | crates/server/src/gateway.rs:424-434 | queried is the first cursor of each spelling that decodes to a group of the caller, and no other |
| `Gateway.RepliesExact` | crates/server/src/gateway.rs:411-472 | sent is everything the queries are answered, and nothing else |
| `Gateway.RepliesStayAmongMine` | crates/server/src/gateway.rs:411-434 | every frame is about a group of the caller, under a spelling it sent |
| `Gateway.Resume` | crates/server/src/gateway.rs:411-472 | the loop over cursors sends the answers of the first cursor of each spelling, up to the cap, the gap of a group before its sequences |
| `Mailbox.Server.PostEnvelope` | crates/server/src/routes.rs:2478-2497 | the next sequence is drawn and the envelope stored under it, or nothing changes |
| `Mailbox.Server.PurgeEnvelopes` | crates/server/src/lib.rs:457-466 | every group loses exactly its expired envelopes |
| `Mailbox.Server.FetchEnvelopes` | crates/server/src/routes.rs:2661-2691 | the oldest survivor and the page after the cursor, payloads under their own sequences |
| `Storage.Server.RegisterAccount` | crates/server/src/routes.rs:492 | an account starts with an empty counter; one that exists keeps its own |
| `Storage.InsertedKeeps` | crates/server/src/routes.rs:1885-1890 | an insert keeps every stored row and the primary key, touches one account's archive of one group, and leaves every requested sequence stored |
| `Storage.InsertedExact` | crates/server/src/routes.rs:1885-1890 | an insert adds one row for each sequence not stored yet, with the payload of the first entry that brings it, and no other |
| `Storage.InsertedWeighs` | crates/server/src/routes.rs:1885-1898 | what an insert adds weighs what those first entries weigh |
| `Storage.UploadAnswers` | crates/server/src/routes.rs:2544-2572 | outside the group, empty, no room: each refusal exactly when it is the first to apply, every table untouched; else one row and its weight |
| `Storage.StoreAnswers` | crates/server/src/routes.rs:1851-1907 | wrong size, outside the group, no room: the same of a store, with the rows it adds and what they weigh |
| `Storage.DropAnswers` | crates/server/src/routes.rs:1946-1968 | a drop asks for a device and no membership, and takes one account's archive of one group |
| `Storage.PassTakes` | crates/server/src/lib.rs:498-556 | groups go exactly when nobody is in them and nothing in their mailbox is within the retention, with their attachments and envelopes; archives and members stay |
| `Storage.StoredExactly` | crates/server/src/routes.rs:1851-2572 | in every run an attachment or archive row is stored if and only if it was there from the start, or a device then in its group sent it in its own account's name, and no pass, cascade or drop meant for it came since |
| `Storage.Server.Charge` | crates/server/src/storage.rs:93-112 | the conditional update: refused when the account has no row or the ceiling would be crossed, and a zero ceiling still moves the counter |
| `Storage.Server.Credit` | crates/server/src/storage.rs:119-131 | the counter goes down, or the check on it fails |
| `Storage.Server.UploadAttachment` | crates/server/src/routes.rs:2544-2572 | the transaction of an upload; what it answers and leaves is `UploadAnswers` |
| `Storage.Server.InsertVaultRows` | crates/server/src/routes.rs:1885-1898 | the loop stores the first entry of each new sequence and sums exactly the payloads it stored |
| `Storage.Server.StoreVault` | crates/server/src/routes.rs:1851-1907 | the transaction of a store, insert and charge together or neither; what it answers and leaves is `StoreAnswers` |
| `Storage.Server.DropVault` | crates/server/src/routes.rs:1946-1968 | one account's archive of one group goes and its bytes are given back; the check never fails |
| `Storage.Server.DeleteAttachments` | crates/server/src/lib.rs:474-483 | the sums returned per account are the bytes of the rows deleted |
| `Storage.Server.PurgePayloads` | crates/server/src/lib.rs:472-528 | both deletions of a pass, all their bytes given back, conservation kept |
| `Storage.Server.DropAbandonedGroups` | crates/server/src/lib.rs:545-556 | on whatever state and clock it meets, the statement deletes the abandoned groups and what hangs from them; bytes stay conserved exactly when no charged payload does |
| `Storage.NobodyIsUndercharged` | crates/server/src/storage.rs:72-131 | in every run, however the statements of purge passes fall among uploads, stores, drops and membership changes: no account holds more than it was charged for, no counter exceeds a fixed non-zero ceiling and none goes below zero |
| `Storage.BytesAreConservedExactly` | crates/server/src/storage.rs:72-131 | each counter is exactly the bytes recorded to its account throughout a run if and only if every statement that deletes groups finds no charged payload in them |
| `Storage.PurgeKeeps` | crates/server/src/lib.rs:472-528 | a pass leaves exactly the attachments young enough of the groups that stay, and no credit makes a counter negative |
| `Storage.CascadeConservesExactly` | crates/server/src/lib.rs:498-556 | that statement conserves bytes exactly when no charged payload hangs from a group it takes |
| `Storage.PassConservesExactly` | crates/server/src/lib.rs:472-556 | a pass that nothing interrupts reads the clock twice, and conserves bytes exactly when no group with a charged payload left becomes abandoned between the two readings |
| `Storage.PassThatLosesBytes` | crates/server/src/lib.rs:472-556 | a pass that does not: an empty group whose last envelope turns thirty days old between the two readings |
| `Storage.UploadFitsExactly` | crates/server/src/routes.rs:2557-2559 | an upload is taken exactly while the bytes recorded to its account, with its own, stay at the ceiling or below |
| `Storage.StoreFitsExactly` | crates/server/src/routes.rs:1869-1902 | a store is taken exactly when what the account would then hold stays at the ceiling or below: rows already there cost nothing |
| `Storage.StoreTwice` | crates/server/src/routes.rs:1830-1832 | archiving the same entries again stores and charges nothing and is accepted |
| `Storage.DropUndoesStore` | crates/server/src/routes.rs:1949-1965 | dropping a vault undoes every store into it, counter included |
| `Throttle.Throttle.Allows` | crates/server/src/throttle.rs:257-279 | a zero quota counts nothing; otherwise the table moves as specified and, with the clock in order, the verdict is that of a limiter for this key alone |
| `Throttle.SweepIsInvisible` | crates/server/src/throttle.rs:265-278 | over any history in time order neither the sweep nor other keys change any verdict |
| `Throttle.SpanBound` | crates/server/src/throttle.rs:254-256 | any half-open span of sixty seconds admits at most `2 * quota - 1` requests of a key |
| `Throttle.SpanBoundIsTight` | crates/server/src/throttle.rs:254-256 | for every quota that bound is reached |
| `Throttle.QuietKeysPass` | crates/server/src/throttle.rs:269-278 | a key that made no more than its quota in the last sixty seconds is never refused |
| `Attest.Encode` | crates/attest/src/lib.rs:153-165 | the loop writes the domain and each field behind its length, or refuses a field past 65535 bytes |
| `Attest.Build` | crates/attest/src/lib.rs:138-339 | every builder returns the message of its claim, or refuses with it |
| `Attest.PrefixedSplits` | crates/attest/src/lib.rs:132-137 | the fields come back from the bytes, whatever follows them |
| `Attest.MessagesArePrefixFree` | crates/attest/src/lib.rs:132-165 | no message of any of the six builders is the beginning of another, same builder or not |
| `Attest.MessagesNeverCollide` | crates/attest/src/lib.rs:44-83 | two messages are the same bytes only when they are the same claim: domain, fields and split |

## Left out

- SHA-256, HMAC, HKDF, X25519, Ed25519 and AES-GCM: an arbitrary hash, symbolic derivations, key agreement that
  commutes, signatures that name signer and content, and a seal that opens only under its own key and associated data.
- Small-order and all-zero X25519 results: symbolic key agreement has none.
- `RatchetSecrecy` lets the thief watch, derive and wait, not send, and takes ratchet keys to be scalars of their own,
  other than the ephemeral and the responder's identity of the handshake (`RatchetKeysFresh`).
- OpenMLS: members, proposals, the authenticated committer and the merge of a staged commit are given. That the merge
  removes and adds exactly what the proposals name, and that leaf indexes stay distinct, are hypotheses of
  `GroupRuns`; external joins, proposals queued before a setter's commit, and MLS's own refusal of a second commit
  while one is pending are not modelled.
- `invite`, `remove`, `leave` and `commit_pending`: thin calls into MLS whose effect reaches the policy as a commit that
  `Process` receives. `Join` takes what MLS makes of a Welcome; reading one is not modelled.
- `KeyLog` is a state machine over values rather than one class, because interleaving between statements is its
  subject; `LogServer` gives the same steps as methods, one statement or one uninterrupted call each.
- `Append` waits for the lock in the database; the method starts where that wait ends, and a deadlock is not modelled.
- The rotation columns of `log_entries`, `chain`, `backfill` (appends in a loop) and the signature on a head.
- SQL, HTTP, WebSockets and base64: each handler is the transaction it performs, and frames that fail to send end the
  gateway's loop early in the code only. `Resume` is a method over the tables it reads, not of a session object.
- Counters past 2^32 or 2^63: `Encrypt` asks for `ns` below 2^32 - 1, other counters are unbounded integers.
- Races the statements exclude by hypothesis: paging over whole runs takes creation times in order (`Allowed` in
  `Mailbox`); one purge over times in any order is `SilentLossExactly`, and a purge inside one fetch is
  `SplitFetchIsExact`. In `Storage` the two deletions inside the transaction of a pass are one step.
- `Throttle` compares the verdict with a limiter that never forgets for calls in the order of their clock readings;
  the code reads the clock before it takes its mutex, so two racing calls may count in the other order.
- Deleting an account: no route does it; its cascade is a step of `KeyLog` and is absent from `Storage`.
- Attachments older than the counters keep an absent account and are never credited; how they came to be is a
  migration, and is not modelled.
- Deleting an abandoned group is a step of `Storage`; `Mailbox` follows groups that still have members.
- Nonce, pairing and push tables of the purge, presence, call tokens, recovery, and everything in the interface.
