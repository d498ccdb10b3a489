# A verified model of the `Blockchain` ledger engine

This project models the ledger engine of a small proof-of-work blockchain
node (`blockchain.py`) in Dafny. The `Blockchain` class owns three pieces of
state that its methods update in place:

- `chain`: the list of blocks;
- `current_transactions`: the pool of pending transactions;
- `nodes`: the set of peer addresses.

The model keeps that shape. `Ledger.Blockchain` is a class with those three
fields. Its methods are `NewBlock`, `NewTransaction`, `ProofOfWork`,
`ResolveConflicts` and `RegisterNode`, and the mining logic of the `/mine`
and `/transactions/new` handlers becomes `Mine` and `NewTransactionAndMine`.
Each method's postcondition states the whole new state in terms of the old
one.

- **Hashing and proof checking.** The block digest (`hash`) and the
  proof-of-work predicate (`valid_proof`) are function-valued constants of
  the class, given to the constructor. The model only assumes they are total
  and deterministic. SHA-256 and JSON encoding are not modelled.
- **Consensus.** The vote of `resolve_conflicts` is specified in module
  `Consensus` as functions over the peers' answers:
  - `Group`: the chains one tail digest collected;
  - `TipHashes`: the dictionary's key order;
  - `Leader`: the first largest group;
  - `Decide`: the chain adopted, if any.

  The method's loops are proved against these functions. The lemmas then
  show what the vote means:
  - at most one digest can pass the threshold;
  - a chain is adopted exactly when some digest passes it;
  - the chain adopted is the first one received with that digest;
  - with zero or one peer, nothing is ever replaced;
  - a chain can be adopted that no mining could have produced.
- **Chain invariant.** `Blocks.ChainInvariant` is the model's own statement
  of hash linkage:
  - the first block has genesis shape;
  - each later block is numbered after its predecessor;
  - each later block names its predecessor's digest;
  - each later block carries a proof valid against its predecessor.

  The source has no chain validator. The predicate appears only in
  specifications and proofs. The constructor and both mining paths are proved
  to keep it, and `NewTransaction` and `LastBlock` state what it implies for
  block indices. `ResolveConflicts` does
  not keep it, because the source adopts peer chains without checking them
  (`Consensus.AdoptsChainBreakingInvariant`).

Points where the model follows the code rather than a more idealised
reading of the ledger:
- consensus is the majority-by-tail-digest vote, and candidates are not
  validated: no longest-valid-chain rule is checked;
- `/transactions/new` mines a block without a reward transaction;
- `new_block` numbers the block `len(chain) + 1`, whereas `new_transaction`
  returns `last_block['index'] + 1`. The two agree exactly when the tail's
  index equals the chain's length, which is guaranteed whenever the chain
  keeps its invariant. `NewTransaction` states both facts.

Files: `wrappers.dfy` (Option, Outcome), `blocks.dfy` (records, chain
invariant), `consensus.dfy` (the vote), `blockchain.dfy` (the class).

## Model

| member | source | states |
|---|---|---|
| `Ledger.Blockchain.constructor` | blockchain.py:13-22 | the chain is exactly the genesis block (index 1, empty transactions, proof 100, previous hash "1"); the pool and the peer set are empty; the chain invariant holds |
| `Ledger.Blockchain.LastBlock` | blockchain.py:51-53 | the tail block, the element at position length - 1; while the chain keeps its invariant, its index is the chain's length |
| `Ledger.Truthy` | blockchain.py:30 | a previous hash is falsy exactly when it is omitted or the empty string, so `previous_hash or ...` falls back to the tail's digest in exactly those cases |
| `Ledger.Blockchain.NewBlock` | blockchain.py:24-34 | the chain grows by one block and earlier blocks are unchanged; the new block has index old length + 1, the old pool as its transactions, the given proof and timestamp, and as previous hash the truthy argument or else the digest of the old tail; the new block becomes the last block; the pool is empty; the peers are unchanged; a tail is needed only when no truthy previous hash is given |
| `Ledger.Blockchain.NewTransaction` | blockchain.py:36-53 | exactly one transaction with the given sender, recipient and amount is appended to the end of the pool; chain and peers are unchanged; the result is the tail's index + 1, which equals the next block's index whenever the chain keeps its invariant |
| `Ledger.Blockchain.ProofOfWork` | blockchain.py:55-61 | the returned proof is valid against the block's proof and digest, and no smaller non-negative proof is; nothing changes |
| `Ledger.Blockchain.Mine` | blockchain.py:170-186 | with an empty pool, nothing changes and nothing is mined; otherwise the chain grows by exactly one block and the pool becomes empty; the new block holds the old pool followed by the reward {"0", miner, 1}, is numbered old length + 1, names the old tail's digest, and carries the least proof valid against the old tail (the tail before the reward was added); the peers are unchanged; the chain invariant is preserved |
| `Ledger.Blockchain.NewTransactionAndMine` | blockchain.py:197-203 | the submitted transaction is appended and mined at once, without a reward; the chain grows by one block that holds the old pool followed by that transaction, with the least valid proof against the old tail; the pool becomes empty; the returned index is the old tail's index + 1; the chain invariant is preserved |
| `Ledger.Blockchain.ResolveConflicts` | blockchain.py:81-124 | returns true iff `Decide` selects a chain, and then the chain is that one; otherwise the chain is unchanged; pool and peers are never touched |
| `Ledger.Blockchain.CollectChains` | blockchain.py:88-105 | after the first loop, the dictionary's keys in insertion order are `TipHashes` of the answers, and each key maps to exactly the chains voting for it, in the order received; failed fetches and empty chains contribute nothing |
| `Ledger.Blockchain.PickMajority` | blockchain.py:107-114 | after the second loop, the count is the size of the first largest group (0 when there is none) and the chosen chain is that group's first chain |
| `Ledger.Blockchain.RegisterNode` | blockchain.py:138-145 | the operation fails (ValueError) exactly when both network location and path are empty, and then the peers are unchanged; otherwise the peer set becomes `AfterRegister` of the old one |
| `Ledger.PeerAddress` | blockchain.py:140-145 | no address exactly when both parts are empty; otherwise a non-empty address: the network location, or the path when the network location is empty |
| `Ledger.AfterRegister` | blockchain.py:138-145 | the peer set only grows, by at most one element, and contains the recorded address; a rejected URL leaves it unchanged |
| `Ledger.RegisterIdempotent` | blockchain.py:138-145 | registering the same URL twice gives the same peer set as registering it once |
| `Blocks.GenesisInvariant` | blockchain.py:13-19 | the genesis chain satisfies the chain invariant for every digest and proof predicate |
| `Blocks.IndexIsPosition` | blockchain.py:24-34 | in a chain keeping the invariant, the block at position i has index i + 1 |
| `Blocks.TipIndexIsLength` | blockchain.py:26 | in a chain keeping the invariant, the tail's index equals the chain's length, so `len(chain) + 1` and the tail's index + 1 coincide |
| `Blocks.ExtendKeepsInvariant` | blockchain.py:24-34 | appending a block numbered length + 1, naming the tail's digest and carrying a proof valid against the tail preserves the chain invariant |
| `Consensus.TipHash` | blockchain.py:93-105 | an answer casts a vote exactly when it was fetched and its chain is non-empty, and the vote is the digest of its tail; a failed fetch, a non-200 status or an empty chain (whose `chain[-1]` raises and is caught) casts none |
| `Consensus.Group` | blockchain.py:97-102 | a digest's group holds at most one chain per answer |
| `Consensus.GroupAgrees` | blockchain.py:97-102 | every chain in a digest's group is non-empty and its tail has that digest |
| `Consensus.GroupHasEveryVote` | blockchain.py:97-102 | every answer voting for a digest is in its group |
| `Consensus.GroupHeadIsFirstReceived` | blockchain.py:100-102 | the head of a group is the first answer received that votes for its digest, and no earlier answer votes for it |
| `Consensus.TipHashes` | blockchain.py:97-102 | the dictionary's keys are pairwise distinct, and a digest is a key iff at least one answer votes for it |
| `Consensus.Leader` | blockchain.py:108-114 | the chosen digest is a key with at least one vote, and no key has more votes than it; there is no choice only when no key has a vote |
| `Consensus.LeaderIsFirstMaximal` | blockchain.py:111-114 | strict `>` breaks ties in favour of the earlier key: every key before the chosen one has strictly fewer votes |
| `Consensus.Threshold` | blockchain.py:89-117 | the threshold is the floor of half the node count, this node included (Python's `//` on a positive count) |
| `Consensus.ThresholdIsStrictMajority` | blockchain.py:89-117 | a vote count passes the threshold exactly when it is more than half the node count, the "50% + 1" rule |
| `Consensus.Decide` | blockchain.py:116-124 | an adopted chain is non-empty, so the ledger keeps a tail block; `DecideExact` characterises when a chain is adopted and which one |
| `Consensus.GroupsDisjoint` | blockchain.py:97-102 | two different digests' groups together hold at most one chain per answer |
| `Consensus.MajorityIsUnique` | blockchain.py:89-117 | with at most one answer per peer, two digests that both pass the threshold `(peers + 1) / 2` are the same digest |
| `Consensus.DecideExact` | blockchain.py:88-124 | a chain is adopted iff some digest has more votes than the threshold, and then the adopted chain is the first received chain of that digest's group |
| `Consensus.DecideFromTally` | blockchain.py:116-124 | the final test on the two loops' tally, a truthy chosen chain and a count above `node_count // 2`, selects exactly the chain `Decide` selects, and nothing when `Decide` selects nothing |
| `Consensus.DecideAdoptsFirstReceived` | blockchain.py:111-118 | an adopted chain is one of the peers' non-empty answers, and no earlier answer has the same tail digest |
| `Consensus.FewPeersNeverReplace` | blockchain.py:89-117 | with zero or one registered peer, the chain is never replaced |
| `Consensus.AdoptsChainBreakingInvariant` | blockchain.py:111-118 | two of two peers sending the same chain with a non-genesis first block outvote this node, and that chain is adopted although it breaks the chain invariant |

## Left out

- HTTP routes, JSON responses and request-body validation (blockchain.py:149-268). Only the mining logic of `/mine` and `/transactions/new` is modelled. Each route's response message is not.
- Network calls made with `requests`. Peer answers in `resolve_conflicts` are an input sequence, one entry per peer in iteration order. `None` stands for an exception or a non-200 status.
- `propagate_transaction` (blockchain.py:126-136) and `register_to_central_node` (blockchain.py:69-79): pure outbound I/O with no effect on the ledger's state.
- SHA-256, `json.dumps(sort_keys=True)` and the f-string in `valid_proof`: foreign library code. `hash` and `valid_proof` are deterministic constants of the class whose values are not modelled, so the difficulty "0000" is not modelled either.
- `urlparse`: a foreign library. `RegisterNode` takes the parsed network location and path as inputs.
- `time()`: a wall clock returning a float. Each operation that stamps a block takes the time as a `real` parameter.
- `uuid4`: randomness. `self.node_identifier` is the constructor's `nodeIdentifier` argument. The module-level identifier that the `/mine` handler uses is `Mine`'s `minerId` argument.
- The bootstrap thread, `argparse` and `print` diagnostics (blockchain.py:271-287): concurrency, CLI and logging.
- Locking and concurrent access: the model runs operations one at a time.
- static/script.js: browser UI code.
- Transaction amounts are modelled as integers. The source stores whatever JSON value it receives; the browser form sends strings.
- Ledger.Blockchain.ProofOfWork: requires that some valid proof exists, because the source's unbounded scan never returns otherwise. `Mine` and `NewTransactionAndMine` inherit that precondition for the tail they mine on.
- Ledger.Blockchain.ResolveConflicts: the order in which the source iterates over its peer set is not modelled. It is the order of the `responses` input, and one response per peer is required.
- A chain validator is not in the source, and the model adds none. `Blocks.ChainInvariant` appears only in specifications and proofs and never decides what the ledger does.
- Ledger.Blockchain.NewBlock: requires a tail block or a truthy previous hash, so it does not model the `IndexError` that `self.chain[-1]` raises on an empty chain with a falsy previous hash. No caller reaches that case: the constructor passes "1", and no operation ever empties the chain (`Valid`).
