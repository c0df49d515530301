# Nanochain ledger: a verified model

Nanochain is a small account-model chain on the Commonware stack. This project models everything
between "a message reaches the application actor" and "accounts, mempool, block store and pending
blocks have changed", and proves what the chain relies on: only the holder of a key moves its funds,
money is conserved, no transaction takes effect twice, each reply to the consensus engine is the one it
should get, a block that verified on the finalized tip can be finalized until its pending entry goes or is
replaced, a block that shares a sender with it is finalized, or a receiver runs out of room, the greedy
builder is sound and leaves nothing it could take, an honest block is accepted by every peer in the same
state, and an equal tip digest means equal headers all the way down, and an equal ledger where the bodies
have equal roots.

`dafny verify dfyconfig.toml` checks the whole project.

## How it is built

Each stateful component of the source is a class with the source's fields and methods. Its methods are
proved against functions on values, and the theorems are about those functions, single steps and whole
runs. `Actor.Application.Handle` and `Runs.Serve` connect the two: whatever messages arrive, the objects
end up where the specification `Runs.Exec` says.

| file | component |
|---|---|
| `Primitives.dfy`, `Crypto.dfy` | u64 with wrap-around, bytes, fixed-width integers; hash and signature scheme |
| `Transaction.dfy`, `Block.dfy`, `Codec.dfy` | records, digests, wire formats, the buffer-advancing readers and writers |
| `Merkle.dfy` | the transaction root and what it binds |
| `State.dfy`, `LedgerLaws.dfy` | the account ledger and its laws |
| `Pool.dfy`, `Mempool.dfy` | the pending map, and the two indexes that represent it |
| `Builder.dfy` | greedy block building |
| `BlockStore.dfy` | blocks by digest and height, and the tip |
| `Actor.dfy`, `Genesis.dfy` | the actor, and the state it starts from |
| `Runs.dfy`, `Chain.dfy`, `Replicas.dfy` | whole runs, child-of-tip runs, two replicas |
| `Replies.dfy`, `Authority.dfy` | what the engine is told; who can move funds |
| `Pipeline.dfy` | proposals on a parent that is only pending |
| `Stale.dfy` | pending transactions whose nonce the ledger has passed |

Modelling choices:

- **Hashing** (SHA-256, FIPS 180-4) and **signatures** (Ed25519, section 5.1 of RFC 8032) are fields of
  a parameter `c`, so each theorem holds for every hash function and signature scheme. Nothing assumes
  an injective hash. Where a result needs one, it says: the conclusion holds, or two different members
  of an explicit finite set of strings, determined by the blocks and transactions it speaks of, have one
  hash (`Collides`), or one of them hashes to the zero digest (`HitsZero`). A leaf preimage has 81 or 145 bytes and a node
  preimage 64, so confusing a leaf with a node is such a collision too.
- **Machine arithmetic.** Unchecked `+` on u64 (`credit`, the nonce, the height) wraps, as in an
  optimised build; the manifest sets no overflow checks. Statements that wrapping would spoil carry the
  bound, or say exactly when they hold.
- **Hash maps.** The order of `HashMap` keys is arbitrary. A proposal event carries the order in which
  the senders were walked, any permutation of them, and the clock reading.
- **Library codecs.** u64 is 8 big-endian bytes, arrays are verbatim, an option is a one-byte tag, a
  vector is an 8-byte count followed by its elements.

Where comments and code disagree the code is followed. The builder's comment
(crates/consensus/src/builder.rs:42-43) says `apply_block` pays a proposer reward; the code
(crates/storage/src/state.rs:88-97) only runs the transactions, and `SupplyConserved` depends on it.

Four properties one might expect are false of the code, and the exact condition is proved:

- *A transaction root determines the list.* `OddListSharesRoot` gives `[x, y, z]` and `[x, y, z, z]`.
  Roots agree if and only if the padded lists agree (`RootsEqualIffPaddedEqual`); duplicate-free lists,
  and so all accepted bodies, are determined (`RootBindsDistinct`, `AcceptedBodiesBound`).
- *The tip digest determines the ledger.* Decoding a peer's block does not recompute its root, and
  `UncheckedRootDiverges` builds two runs that end with one tip header and different accounts. Headers
  always agree; the blocks agree if and only if their bodies have the same root at every height, and the
  ledgers if and only if the two histories have the same effect on every account
  (`TipDeterminesLedger`). Where the headers' roots are right, all agree (`CheckedRootsDetermineLedger`).
- *A verified block can be finalized.* Take a block that verified on the finalized tip, whose pending entry
  is not replaced and whose senders have nonces left. After any run it can be finalized if and only if it
  is still pending, no sender of it occurs in what was finalized since, and every receiver has room, as it
  has whenever the supply fits a machine word (`VerifiedMeansFinalizable`). So it can if nothing was
  finalized since (`VerifiedThenFinalized`), but of two blocks that verified on one tip and share a sender
  only one can be (`SiblingsIff`): `SiblingStalls` gives such a pair from any genesis. On a pending parent
  `propose` still selects against the finalized ledger and `verify` checks structure only:
  `StalledPipeline` shows a block that verifies and is then rejected. After its parent such a proposal can
  be finalized on the same two conditions (`PipelinedCommitsIff`).
- *Finalization leaves no used-up transaction pending.* It drops transactions by hash, so one whose sender
  and nonce another transaction used stays; what a run leaves pending has become stale if and only if that
  happened (`StaleIff`). It then stays for good, and the builder takes nothing from its sender any more
  (`StaleStalls`), until encodings collide or the sender's nonces run round. `StrandedSeed` is a concrete run.

At-most-once execution is bounded only by the width of a nonce: it holds if and only if no sender has more
than 2^64 executed transactions (`AtMostOnce`).

## Model

| member | source | states |
|---|---|---|
| Replicas.TipDeterminesLedger | crates/consensus/src/app/actor.rs:189-201 | Two child-of-tip runs from equal genesis accounts with one tip digest committed equal headers at every height, and equal blocks iff their bodies have one root at every height; then ledger, store and history are equal too; the ledgers alone are equal iff the two histories have the same effect (`SameEffect`); or an explicit break of the hash |
| Replicas.CheckedRootsDetermineLedger | crates/consensus/src/app/actor.rs:189-201 | If moreover every finalized root matches its body, the blocks, ledgers and stores are equal, or an explicit break of the hash |
| Replicas.MatchingRootsAgree | crates/types/src/block.rs:81-92 | Given equal headers and a first chain whose roots match, the bodies have equal roots iff the second chain's roots match |
| Replicas.ChainsWithOneTip | crates/types/src/block.rs:57-59 | Linked chains of accepted blocks with one tip digest have equal headers, and are equal iff their bodies have equal roots, or an explicit break of the hash |
| Replicas.TipBindsHeaders | crates/types/src/block.rs:57-59 | Linked chains with one tip digest have one length and the same header at every height, or headers collide |
| Replicas.SameBlocks | crates/types/src/block.rs:32-55 | Equal headers and accepted bodies with equal roots give equal blocks, or an explicit break of the hash |
| Replicas.UncheckedRootDiverges | crates/consensus/src/app/actor.rs:120-127 | From any genesis and seed transactions, two child-of-tip runs end with one tip header and different accounts, because stored bodies are not checked against the root; both blocks verify first, unless their header collides with the genesis header |
| Replicas.ProposalVerifiesAtPeer | crates/consensus/src/app/actor.rs:109-186 | A block proposed on the finalized tip, broadcast and stored by a peer with the same accounts and tip is pending there under the same digest, fits the message limit, and verifies (or headers collide) |
| Replicas.ProposalFacts | crates/consensus/src/builder.rs:38-50 | A proposal links to its parent, commits to its body, carries the clock reading and the proposer's key, holds at most 1024 transactions, is accepted by the proposer's ledger, and has an encoding of at most 1 MiB that decodes to it |
| Replicas.ReplacementKeepsHeader | crates/consensus/src/app/actor.rs:120-127 | Whatever overwrites a pending entry has the same header, or headers collide |
| Replicas.ReplacementCommitsVerified | crates/consensus/src/app/actor.rs:163-201 | If the entry of a verified digest was overwritten and commits, it is the block that verified iff its body has the same root, and then the ledger is the one verification computed, or an explicit break of the hash |
| Replies.VerifyAnswered | crates/consensus/src/app/actor.rs:89-95 | Among the replies of the mailbox loop, a verification is answered yes iff the block is pending, names the parent, stands one above it where it is known, and, if the parent is the finalized tip, every transaction is acceptable; it changes nothing |
| Replies.ProposeAnswered | crates/consensus/src/app/actor.rs:83-88 | A proposal is answered with a digest iff the parent is known and the node's own signature verifies; the digest is the hash of a pending header that names the parent, is one above it and carries clock and key; otherwise nothing is sent and nothing changes |
| Replies.ProposalLeavesNothing | crates/consensus/src/app/actor.rs:138-158 | In a legal run, a proposed block of fewer than 1024 transactions leaves of every pending sender only what the ledger rejects at the point where that sender was left |
| Replies.GenesisAnswered | crates/consensus/src/app/actor.rs:79-82 | The genesis message is answered with the hash of 112 zero bytes, the encoding of the genesis header |
| Replies.BroadcastAnswered | crates/consensus/src/app/actor.rs:109-117 | A broadcast sends bytes that decode to the pending block, or nothing if none is pending, and changes nothing |
| Replies.NotAnswered | crates/consensus/src/app/actor.rs:96-102 | Finalizing and storing send no reply, whatever comes of them |
| Authority.ExecutedAreSigned | crates/types/src/transaction.rs:82-93 | In every run each executed transaction has a signature that the scheme verifies under its sender over its payload |
| Authority.PendingAreSigned | crates/mempool/src/pool.rs:30-58 | In every run each pending transaction is so signed, positive and in the slot of its own sender and nonce |
| Authority.ForgedBodyRejected | crates/storage/src/state.rs:44-45 | A body with a transaction not so signed anywhere is never committed, and finalizing it drops only the pending entry |
| Authority.UnspendableAccount | crates/storage/src/state.rs:44-85 | An address under which nothing verifies keeps its nonce and never loses funds in any run, and nothing of it is executed or pending |
| Pipeline.PipelinedSelectionIff | crates/consensus/src/builder.rs:22-36 | The builder's selection on a ledger is still accepted after another accepted body iff no sender occurs in both and every receiver has room; with a supply within u64::MAX, iff no sender occurs in both |
| Pipeline.PipelinedVerifies | crates/consensus/src/app/actor.rs:138-186 | A proposal on a pending parent leaves both pending and verifies on it off the tip, or the two headers collide |
| Pipeline.PipelinedCommitsIff | crates/consensus/src/app/actor.rs:138-201 | The child of a pending parent verifies, and after the parent is finalized it can be finalized iff no sender occurs in both and every receiver has room (within a supply of u64::MAX, iff no sender occurs in both), or the two headers collide |
| Pipeline.ProposingTwiceStalls | crates/consensus/src/app/actor.rs:138-158 | Proposing twice in a row over a non-empty selection makes a second block that verifies and is then rejected, or headers collide |
| Pipeline.StalledPipeline | crates/consensus/src/app/actor.rs:163-186 | A concrete genesis, with one funded account and one pending transfer, from which that happens |
| Chain.StoreIsTheChain | crates/storage/src/block_store.rs:17-36 | Under child-of-tip finalization the store holds exactly the committed blocks on genesis at heights 0 to tip, with correct parent links, and the tip is the last one, or headers collide |
| Chain.LedgerFromStore | crates/storage/src/block_store.rs:27-36 | Replaying the stored blocks by height from the genesis accounts gives the current ledger, or headers collide |
| Chain.StoreExtends | crates/storage/src/block_store.rs:17-21 | Storing a child of the tip extends the stored chain unless its header collides with one in it |
| Chain.ChainDeterminesStore | crates/storage/src/block_store.rs:4-7 | The chain determines both maps of the store |
| Chain.RunKeepsHeights | crates/storage/src/block_store.rs:17-21 | In any run each stored block stays filed under its own height, or stored headers collide |
| Chain.ReachableInvariant | crates/node/src/node.rs:55-68 | Every reachable state satisfies the actor invariant, and its height index is right or headers collide |
| Runs.Serve | crates/consensus/src/app/actor.rs:76-105 | The mailbox loop leaves the objects in the state of a legal run over the same messages, and answers each message as specified |
| Runs.RunKeepsOk | crates/consensus/src/app/actor.rs:76-105 | Every run keeps the invariant: pool well formed, store and pending blocks under their own digests, pending bodies within the decoder's cap |
| Runs.LedgerIsReplay | crates/consensus/src/app/actor.rs:189-201 | In every run the ledger is the replay of exactly the committed bodies, in order |
| Runs.NoncesInOrder | crates/storage/src/state.rs:44-97 | From genesis, what took effect for a sender carries nonces 0, 1, 2, ... in order, and the account's nonce is their number |
| Runs.AtMostOnce | crates/storage/src/state.rs:44-97 | In any run no (sender, nonce) takes effect twice iff no sender has more than 2^64 transactions executed |
| Runs.ExecutedRejected | crates/storage/src/state.rs:47-53 | A block containing anything already executed is rejected whole, as long as that sender's executed transactions and those of it in the block so far fit the nonces |
| Runs.RefinalizeChangesNothing | crates/consensus/src/app/actor.rs:189-201 | Finalizing the body of a past block again changes no account, as long as its first sender has a nonce left |
| Runs.RunConservesSupply | crates/storage/src/state.rs:44-97 | No run changes the sum of all balances |
| Runs.GenesisSupplyForever | crates/node/src/node.rs:55-59 | In every reachable state the supply is the total allocated iff no address is allocated more than a balance holds |
| Runs.RunNeverOverflows | crates/storage/src/state.rs:63-69 | From a supply of at most u64::MAX, no list is rejected with BalanceOverflow in any reachable state |
| Runs.PoolOverRun | crates/consensus/src/app/actor.rs:195-197 | A run removes from the mempool exactly the transactions whose hash occurs in the committed bodies |
| Runs.QuietRun | crates/consensus/src/app/actor.rs:76-105 | Without finalizations ledger, store and mempool never change and no pending digest disappears |
| Runs.VerifiedExtendsTip | crates/consensus/src/app/actor.rs:163-186 | A block that verifies on the tip is its child, and storing it makes it the tip iff the old height was below u64::MAX, or headers collide |
| Runs.VerifiedMeansFinalizable | crates/consensus/src/app/actor.rs:163-201 | After any run that does not replace its pending entry, a block that verified on the tip can be finalized iff it is still pending, shares no sender with what was finalized since and every receiver has room (the last is automatic within a supply of u64::MAX), while its senders have nonces left; the ledger is then that history followed by the block |
| Runs.VerifiedThenFinalized | crates/consensus/src/app/actor.rs:163-201 | After any messages but Finalize it always can; the ledger is the one verification computed, and the block is the new tip iff the old height was below u64::MAX, or headers collide |
| Runs.SiblingsIff | crates/consensus/src/app/actor.rs:163-201 | Of two blocks that verified on one tip, finalizing one leaves the entry of the other alone, which can be finalized too iff they share no sender and receivers have room; it then takes over the height while the ledger keeps both |
| Replicas.SiblingStalls | crates/consensus/src/app/actor.rs:163-201 | From any genesis, two blocks with one body and different timestamps verify on the tip, and once one is finalized the other is pending and rejected, or headers collide |
| Stale.StaleIff | crates/consensus/src/app/actor.rs:195-197 | What a run leaves pending is behind its sender's nonce iff it was before or the run executed another transaction with its sender and nonce, while that sender's nonces do not run round |
| Stale.StaleStalls | crates/consensus/src/builder.rs:26-34 | A stale pending transaction stays in every run, and no proposal then contains anything from its sender, while that sender's nonces do not run round, or transaction encodings collide |
| Stale.ConflictStrands | crates/consensus/src/app/actor.rs:189-201 | Finalizing another transaction with the sender and nonce of a pending one leaves that one pending and stale, or the two encodings collide |
| Stale.StrandedSeed | crates/consensus/src/app/actor.rs:195-197 | A concrete genesis and peer block that strand a seed transaction, after which its sender is never proposed |
| Stale.UsedNonces | crates/storage/src/state.rs:47-75 | The slots of a sender that an accepted list uses are exactly those that were not stale before and are stale after, while the sender's nonces do not run round |
| Runs.ProposeSucceeds | crates/consensus/src/app/actor.rs:138-158 | With correct signatures, proposing on a known parent always yields the built block |
| Runs.ProposeFinalizeKeepsFresh | crates/consensus/src/app/actor.rs:138-201 | If no pending transaction is behind its sender's nonce, proposing and finalizing the proposal succeeds and keeps it so |
| Runs.FinalizeExact | crates/consensus/src/app/actor.rs:189-201 | Finalization is all or nothing: exact balances, nonces and pool on success; on failure the exact error, and only the pending entry gone |
| Actor.StepKeepsOk | crates/consensus/src/app/actor.rs:76-105 | Every message keeps the actor invariant |
| Actor.VerdictIff | crates/consensus/src/app/actor.rs:163-186 | For every parent and digest the verdict is true iff the structural conditions hold and, on the finalized tip, every transaction is acceptable in terms of the ledger |
| Actor.ProposedExact | crates/consensus/src/app/actor.rs:138-158 | When proposing fails and with which error, and exactly which block it makes otherwise, header field by field |
| Actor.ProposalMaximal | crates/consensus/src/builder.rs:22-36 | A proposal of fewer than 1024 transactions leaves of each sender only what the ledger rejects at the point where that sender was left |
| Actor.ProposalTakesAll | crates/consensus/src/builder.rs:22-36 | If the ledger accepts the whole pool in walking order and it has at most 1024 transactions, the proposal is all of it |
| Actor.StoreBlockExact | crates/consensus/src/app/actor.rs:120-127 | Bytes of a block of at most 16384 transactions make it pending under the hash of its header, replacing what was there; other bytes change nothing |
| Actor.Application.constructor | crates/consensus/src/app/actor.rs:46-70 | Takes over the given stores, with nothing pending and the digest of the genesis block |
| Actor.Application.GetByDigest | crates/consensus/src/app/actor.rs:130-134 | Pending blocks first, then finalized ones |
| Actor.Application.ProposeBlock | crates/consensus/src/app/actor.rs:138-158 | One legal proposal step for some walk of the senders; an unknown parent or a bad signature changes nothing |
| Actor.Application.VerifyBlock | crates/consensus/src/app/actor.rs:163-186 | The specified verdict, leaving the real ledger alone |
| Actor.Application.FinalizeBlock | crates/consensus/src/app/actor.rs:189-201 | The specified new state in every case: missing, rejected, committed |
| Actor.Application.BroadcastBlock | crates/consensus/src/app/actor.rs:109-117 | The encoding of the pending block, or nothing |
| Actor.Application.StorePeerBlock | crates/consensus/src/app/actor.rs:120-127 | A decodable block becomes pending under its digest; anything else changes nothing |
| Actor.Application.Handle | crates/consensus/src/app/actor.rs:76-105 | Each message is one legal step with the specified reply |
| Genesis.Boot | crates/node/src/node.rs:55-85 | A started node: credited allocations, genesis block stored, acceptable seed transactions pending |
| Genesis.SeedPoolOk | crates/node/src/node.rs:62-67 | Whatever the seed transactions, the pool is well formed and within capacity |
| Genesis.SeedPoolExact | crates/node/src/node.rs:62-67 | A seed is pending at the start iff it is signed and positive, no earlier kept seed has its slot or hash, and fewer than 1024 were kept before it |
| Genesis.AllSeedsPending | crates/node/src/node.rs:62-67 | Up to 1024 signed, positive seeds with different slots and hashes are all pending |
| Genesis.GenesisAccounts | crates/node/src/node.rs:56-59 | Each account starts with what its address was allocated, wrapped, and nonce 0, and exactly the allocated addresses have one |
| Genesis.InitialOk | crates/node/src/node.rs:55-85 | The initial state satisfies the invariant |
| Genesis.SupplyAfterCredits | crates/storage/src/state.rs:39-41 | Supply plus 2^64 per wrapped credit is the total allocated |
| Genesis.GenesisSupplyExact | crates/node/src/node.rs:56-59 | Genesis creates exactly the allocated total iff no address is allocated more than a balance holds |
| LedgerLaws.ClosedForm | crates/storage/src/state.rs:63-84 | After an accepted list each balance is initial + received - sent, each nonce initial + number sent, and the accounts are the old ones and those touched |
| LedgerLaws.AcceptedIff | crates/storage/src/state.rs:44-97 | A list is accepted iff every transaction is signed, has the next nonce, is covered and does not overflow, in terms of the initial accounts |
| LedgerLaws.RejectedWith | crates/storage/src/state.rs:44-97 | A rejected list fails on its first unacceptable transaction, with the error and the fields of the first check that fails, in terms of the initial accounts |
| LedgerLaws.RejectedTx | crates/storage/src/state.rs:44-70 | Which error one rejected transaction gets, and its fields |
| LedgerLaws.SignedTransfer | crates/storage/src/state.rs:44-85 | A transfer signed with a key is accepted iff it carries the account's nonce, is covered and does not overflow the receiver, and then moves the amount |
| LedgerLaws.OrderIndependence | crates/storage/src/state.rs:63-84 | Two accepted orders of the same transactions give the same account map |
| LedgerLaws.SumPermutation | crates/storage/src/state.rs:63-84 | Totals sent, received and counted depend only on the multiset of transactions |
| LedgerLaws.NonceAt | crates/storage/src/state.rs:47-53 | In an accepted list each nonce is the sender's initial one plus the number sent before |
| LedgerLaws.SenderNonces | crates/storage/src/state.rs:47-75 | A sender's accepted transactions carry consecutive nonces, and the final nonce counts them |
| LedgerLaws.NoncesDistinct | crates/storage/src/state.rs:47-75 | A sender with at most 2^64 transactions in an accepted list uses no nonce twice |
| LedgerLaws.NoReuseIff | crates/storage/src/state.rs:47-75 | An accepted list uses no (sender, nonce) twice iff no sender has more than 2^64 transactions in it |
| LedgerLaws.ReuseRejected | crates/storage/src/state.rs:47-53 | After an accepted list, a list that reuses one of its (sender, nonce) pairs is rejected while that sender has nonces left |
| LedgerLaws.BothCommitIff | crates/storage/src/state.rs:44-97 | Of two lists that one ledger accepts, the second is accepted after the first iff no sender occurs in both and every receiver has room in terms of the initial accounts, while its senders have nonces left |
| LedgerLaws.BothCommitWithinSupply | crates/storage/src/state.rs:44-97 | With a supply within u64::MAX there is always room: accepted iff no sender occurs in both |
| LedgerLaws.SameLedgerIff | crates/storage/src/state.rs:63-84 | Two accepted lists give the same account map iff they touch the same new accounts and, for every address, agree on received minus sent and on the number sent modulo 2^64 |
| LedgerLaws.AcceptedDistinct | crates/storage/src/state.rs:88-97 | Accepted bodies are duplicate-free |
| LedgerLaws.AcceptedBodiesBound | crates/types/src/block.rs:32-55 | Two bodies, each accepted from some state, with equal roots are identical, or an explicit break of the hash |
| LedgerLaws.StaleRejected | crates/storage/src/state.rs:47-53 | A list with a used-up nonce anywhere is rejected, unless the sender's nonces before it run all the way round |
| LedgerLaws.SupplyConserved | crates/storage/src/state.rs:63-84 | An accepted list keeps the sum of balances, self-transfers included |
| LedgerLaws.NeverOverflows | crates/storage/src/state.rs:63-69 | With supply at most u64::MAX no list is rejected with BalanceOverflow |
| State.ApplyAllStopsAt | crates/storage/src/state.rs:90-95 | The first rejection decides the whole list and its error |
| State.ApplyAllAppend | crates/storage/src/state.rs:88-97 | Applying a concatenation is applying the parts in turn |
| State.StateStore.constructor | crates/storage/src/state.rs:20-24 | A new ledger has no accounts |
| State.StateStore.Clone | crates/storage/src/state.rs:14-17 | A clone has the same accounts and is a separate object |
| LedgerLaws.MissingIsDefault | crates/storage/src/state.rs:12-36 | A missing account is a default account: ledgers that the getters cannot tell apart accept the same lists, reject the others with the same error, and stay indistinguishable |
| State.StateStore.Credit | crates/storage/src/state.rs:39-41 | Adds to a balance without any check, wrapping |
| State.StateStore.ApplyTransaction | crates/storage/src/state.rs:44-85 | The checks in order with their errors; on an error the accounts are untouched |
| State.StateStore.ApplyBlock | crates/storage/src/state.rs:88-97 | All transactions, or the first error and the accounts as they were |
| Builder.BuilderSound | crates/consensus/src/builder.rs:22-36 | For every sender order, pool and cap the selection is within the cap and replays on the original ledger to the builder's shadow |
| Builder.TakeFromPrefix | crates/consensus/src/builder.rs:26-35 | A sender contributes a prefix of its pending list, ended by the cap or by a rejection |
| Builder.BuilderMaximal | crates/consensus/src/builder.rs:25-36 | Below the cap each sender's next transaction is rejected by the ledger as it stood when that sender was left, after exactly the senders walked before |
| Builder.BuilderTakesAll | crates/consensus/src/builder.rs:25-36 | A pool that is acceptable in walking order and fits the cap is taken whole |
| Builder.SelectionShape | crates/consensus/src/builder.rs:25-36 | Each sender's share is a prefix of its pending list with consecutive nonces from the ledger's |
| Builder.EmptyExactly | crates/consensus/src/builder.rs:25-36 | With room, nothing is selected iff every sender's first pending transaction is rejected by the current ledger, whatever the order |
| Builder.BuildingKeepsFresh | crates/consensus/src/builder.rs:22-36 | Applying the selection and dropping it leaves no pending transaction behind its sender's nonce |
| Builder.SelectTxs | crates/consensus/src/builder.rs:22-36 | The nested loops compute the specified selection for some order of the senders |
| Builder.BuildBlock | crates/consensus/src/builder.rs:17-52 | Child of the given parent over the selection, signed by the proposer |
| Pool.PendingFromSorted | crates/mempool/src/pool.rs:86-94 | A sender's pending list is strictly increasing in the nonce and complete |
| Pool.PendingFromHead | crates/mempool/src/pool.rs:97-99 | It is empty iff the sender has nothing pending, and starts at the lowest pending nonce |
| Pool.EnumerationIsPermutation | crates/mempool/src/pool.rs:81-104 | The pending lists over all senders in any order are a permutation of all pending transactions |
| Pool.IndexesDeterminePool | crates/mempool/src/pool.rs:10-14 | The hash index and the pool determine each other, the pool determines the sender index, and the sender index determines its slots |
| Pool.InsertThenRemove | crates/mempool/src/pool.rs:30-70 | Removing what was just inserted gives back the pool as it was |
| Pool.RemoveThenInsert | crates/mempool/src/pool.rs:30-70 | A removed transaction can be inserted again, and the pool is as it was |
| Pool.RefusalsExact | crates/mempool/src/pool.rs:37-46 | Duplicate means that very transaction is pending, NonceConflict that another one holds its slot, up to a collision of transaction encodings |
| Pool.InsertExact | crates/mempool/src/pool.rs:30-58 | Every outcome of an insertion from the pool and the transaction alone: the five refusals in their order, or the hash |
| Pool.HashIndexInsert | crates/mempool/src/pool.rs:52-57 | A new hash and a new slot keep the hash index and the pool in agreement |
| Pool.HashIndexRemove | crates/mempool/src/pool.rs:61-70 | Removing a hash removes exactly its transaction from the pool |
| Pool.SenderIndexInsert | crates/mempool/src/pool.rs:52-55 | Filing under sender and nonce, creating the sender's entry if needed, keeps the sender index right |
| Pool.SenderIndexRemove | crates/mempool/src/pool.rs:63-68 | Dropping the nonce, and the sender's entry when it becomes empty, keeps the sender index right |
| Mempools.Mempool.WithCapacity | crates/mempool/src/pool.rs:21-27 | An empty, consistent pool of the given capacity |
| Mempools.Mempool.Insert | crates/mempool/src/pool.rs:30-58 | The five rejections in order, changing nothing; otherwise one more slot, both indexes in agreement |
| Mempools.Mempool.Remove | crates/mempool/src/pool.rs:61-70 | Removes exactly the transaction with that hash from both indexes, if there is one |
| Mempools.Mempool.PendingOf | crates/mempool/src/pool.rs:86-94 | The sender's pending transactions in nonce order; no entry is lost in the lookup by hash |
| Mempools.Mempool.LowestNonce | crates/mempool/src/pool.rs:97-99 | The nonce of the head of the sender's pending list |
| Mempools.Mempool.Senders | crates/mempool/src/pool.rs:102-104 | Every sender with something pending, once, in some order |
| Mempools.Mempool.AllPending | crates/mempool/src/pool.rs:81-83 | Every pending transaction, once, in some order |
| BlockStores.StoredHeights | crates/storage/src/block_store.rs:17-21 | Inserting keeps the height index right unless the header collides with a stored one |
| BlockStores.NewTip | crates/storage/src/block_store.rs:33-36 | A block above everything stored becomes the tip |
| BlockStores.SameTip | crates/storage/src/block_store.rs:33-36 | A lower block with another digest leaves the tip alone |
| BlockStores.BlockStore.Insert | crates/storage/src/block_store.rs:17-21 | Files the block by digest and by height, overwriting either |
| BlockStores.StoredLookups | crates/storage/src/block_store.rs:17-31 | After an insertion the new block is found under its digest and its height, and other digests and heights find what they found before |
| BlockStores.LookupsAgree | crates/storage/src/block_store.rs:23-31 | A height is found iff it is indexed, and what it finds is what its own digest finds |
| BlockStores.BlockStore.GetTip | crates/storage/src/block_store.rs:33-36 | The block at the greatest stored height |
| Merkle.ComputeTxRoot | crates/types/src/block.rs:32-55 | The layer loop ends with the digest of the symbolic tree over the list, zero for the empty list |
| Merkle.HashPairs | crates/types/src/block.rs:43-51 | One pass hashes neighbours in pairs |
| Merkle.TreeOfPadded | crates/types/src/block.rs:39-52 | That tree is perfect, of depth log2 rounded up, over the padded list |
| Merkle.PaddedShape | crates/types/src/block.rs:40-42 | Padding keeps the list as a prefix, repeats only its elements and stops at the least power of two that fits |
| Merkle.TreeDigestBinds | crates/types/src/block.rs:43-51 | Equal digests mean equal trees, or two hashed strings collide |
| Merkle.RootsEqualIffPaddedEqual | crates/types/src/block.rs:32-55 | Roots are equal iff the padded lists are, or an explicit break of the hash |
| Merkle.RootBindsEqualLengths | crates/types/src/block.rs:32-55 | A root determines the list among lists of one length, or a collision |
| Merkle.RootBindsDistinct | crates/types/src/block.rs:32-55 | A root determines the list among duplicate-free lists, or an explicit break of the hash |
| Crypto.BreakExhibited | crates/types/src/hash.rs:4-10 | Every break that a result mentions can be shown: a member of the set that hashes to 32 zero bytes, or two different members with one hash |
| Merkle.RootByHalves | crates/types/src/block.rs:32-55 | The root without a tree: zero bytes for nothing, the hash of the encoding for one transaction, else the hash of the roots of the two halves of the padded list |
| Merkle.OddListSharesRoot | crates/types/src/block.rs:40-42 | [x, y, z] and [x, y, z, z] share a root |
| Blocks.DecodeBlockExact | crates/types/src/block.rs:129-140 | Decoding accepts exactly the encodings of blocks of at most 16384 transactions, and returns that block |
| Blocks.BlockRoundTrip | crates/types/src/block.rs:122-140 | Decoding an encoded block returns it iff it has at most 16384 transactions, and otherwise fails |
| Blocks.BlockSizeExact | crates/types/src/block.rs:142-146 | The declared size is the length written, at most 120 bytes plus 145 a transaction |
| Blocks.BlockLayout | crates/types/src/block.rs:122-127 | A block's bytes: 112 of header, the count as a big-endian word, then each transaction at the offset that the sizes before it give |
| Blocks.HeaderLayout | crates/types/src/block.rs:95-103 | A header's bytes field by field |
| Blocks.GenesisIsZero | crates/types/src/block.rs:61-72 | The genesis block is empty and its header encodes to 112 zero bytes |
| Blocks.BlockEncodingBinds | crates/types/src/block.rs:122-127 | Block encoding is injective |
| Blocks.HeaderEncodingBinds | crates/types/src/block.rs:95-103 | Header encoding is injective |
| Blocks.BlockHashBinds | crates/types/src/block.rs:57-59 | Equal digests mean equal headers, or a collision |
| Blocks.ReadHeaderExact | crates/types/src/block.rs:105-116 | Header reading and writing are exact inverses on a buffer |
| Blocks.ReadTxsExact | crates/types/src/block.rs:134-134 | So are reading and writing a counted list of transactions |
| Blocks.EncodeHeader | crates/types/src/block.rs:118-120 | A header takes 112 bytes |
| Codec.WriteTx | crates/types/src/transaction.rs:96-104 | Appends exactly the encoding |
| Codec.GetTx | crates/types/src/transaction.rs:106-117 | Consumes exactly one transaction, or fails |
| Codec.WriteHeader | crates/types/src/block.rs:95-103 | Appends exactly the encoding |
| Codec.GetHeader | crates/types/src/block.rs:105-116 | Consumes exactly one header, or fails |
| Codec.WriteTxs | crates/types/src/block.rs:125-125 | Appends the count and the elements |
| Codec.GetTxs | crates/types/src/block.rs:133-134 | Checks the count against the cap, then consumes that many elements, or fails |
| Codec.Encode | crates/types/src/block.rs:122-127 | Produces the encoding of the block |
| Codec.Decode | crates/types/src/block.rs:129-140 | Returns the block decoded from exactly these bytes, or nothing |
| Transactions.EncodeTxInjective | crates/types/src/transaction.rs:96-104 | Transaction encoding is injective |
| Transactions.ReadTxExact | crates/types/src/transaction.rs:96-117 | Reading and writing a transaction are exact inverses on a buffer |
| Transactions.EncodeTx | crates/types/src/transaction.rs:119-127 | 145 bytes signed, 81 unsigned |
| Transactions.PayloadBindsFields | crates/types/src/transaction.rs:55-62 | The signed bytes determine every field except the signature |
| Transactions.PayloadLayout | crates/types/src/transaction.rs:55-62 | The signed bytes field by field: sender, receiver, then amount and nonce as little-endian words |
| Transactions.TxLayout | crates/types/src/transaction.rs:96-104 | The wire bytes field by field, amount and nonce as big-endian words, and a one-byte tag before the signature |
| Transactions.Signed | crates/types/src/transaction.rs:68-80 | With correct signatures, a transaction signed with a key verifies under its address |

## Left out

- Consensus engine, elections, certificates, timeouts: they only decide which messages arrive. Where the order matters (`Chain.ChildOfTip`) it is a stated hypothesis.
- Overflow panics of a build with overflow checks: the model wraps instead, so such a build stops where the model goes on.
- p2p network, channels, quotas, runtime, mailbox and one-shot replies: I/O; the model keeps the message alphabet and the replies.
- The outbound queue and its overflow: broadcasting yields the bytes offered to the queue, which may drop them.
- The genesis message's epoch assertion: only epoch zero is modelled, where the message returns the genesis digest.
- SHA-256 and Ed25519 internals and key parsing: a key that does not parse counts as a signature that does not verify.
- Capacity hints, logging, serde bridges, command line, devnet roster, tuning defaults: nothing proved depends on them.
- Mempool accessors `get`, `contains`, `len`, `is_empty`, `capacity`, and `get_account`: plain lookups.
- The getters of the ledger and the block store have no row of their own: `MissingIsDefault`, `StoredLookups` and `LookupsAgree` say what reading them means.
- The wire format of a signed block: blocks travel unsigned, and only signing and checking a proposal is modelled.
- Global optimality of the builder: it does not return to a sender funded later in the walk; `BuilderMaximal` says exactly what it leaves behind.
