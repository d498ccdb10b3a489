/**
 * The `Blockchain` class of blockchain.py: the chain, the pending pool and
 * the peer set, with the operations that change them, and the two mining
 * steps of the `/mine` and `/transactions/new` handlers.
 */
module Ledger {
  import opened Wrappers
  import opened Blocks
  import opened Consensus

  /** The error `register_node` raises (`ValueError`) for a URL with neither network location nor path. */
  datatype RegisterError = InvalidUrl

  /** The address `register_node` records for a parsed URL: its network location, else its path. */
  function PeerAddress(netloc: string, path: string): (a: Option<string>)
    ensures a.None? <==> netloc == "" && path == ""
    ensures a.Some? ==> a.value != "" && (a.value == netloc || (netloc == "" && a.value == path))
  {
    if netloc != "" then Some(netloc) else if path != "" then Some(path) else None
  }

  /** The peer set after registering a parsed URL; unchanged when the URL is rejected. */
  function AfterRegister(nodes: set<string>, netloc: string, path: string): (r: set<string>)
    ensures nodes <= r && |r - nodes| <= 1
    ensures PeerAddress(netloc, path).Some? ==> PeerAddress(netloc, path).value in r
    ensures PeerAddress(netloc, path).None? ==> r == nodes
  {
    match PeerAddress(netloc, path)
    case None => nodes
    case Some(a) =>
      assert (nodes + {a}) - nodes <= {a};
      nodes + {a}
  }

  /** Registering the same URL twice leaves the same peer set as registering it once. */
  lemma RegisterIdempotent(nodes: set<string>, netloc: string, path: string)
    ensures AfterRegister(AfterRegister(nodes, netloc, path), netloc, path) == AfterRegister(nodes, netloc, path)
  {
  }

  /** `previous_hash or ...`: an omitted or empty previous hash is falsy. */
  predicate Truthy(previousHash: Option<string>): (r: bool)
    ensures r <==> previousHash != None && previousHash != Some("")
  {
    previousHash.Some? && previousHash.value != ""
  }

  class Blockchain {
    /** `Blockchain.hash`: a deterministic digest of a block. */
    const hash: Hasher
    /** `Blockchain.valid_proof`: the proof-of-work predicate. */
    const validProof: ProofCheck
    /** `self.node_identifier`, drawn once at construction. */
    const nodeIdentifier: string

    var chain: seq<Block>
    var currentTransactions: seq<Transaction>
    var nodes: set<string>

    /** Every operation keeps a tail block: genesis is appended at once, and consensus adopts only non-empty chains. */
    ghost predicate Valid()
      reads this
    {
      |chain| > 0
    }

    /** `__init__`: the genesis block alone, no pending transaction, no peer. */
    constructor (hash: Hasher, validProof: ProofCheck, nodeIdentifier: string, now: real)
      ensures Valid()
      ensures this.hash == hash && this.validProof == validProof && this.nodeIdentifier == nodeIdentifier
      ensures chain == [Genesis(now)]
      ensures currentTransactions == [] && nodes == {}
      ensures ChainInvariant(hash, validProof, chain)
    {
      this.hash := hash;
      this.validProof := validProof;
      this.nodeIdentifier := nodeIdentifier;
      currentTransactions := [];
      chain := [];
      nodes := {};
      new;
      var _ := NewBlock(100, Some("1"), now);
      GenesisInvariant(hash, validProof, now);
    }

    /**
     * `last_block`: the tail `chain[-1]`. While the chain keeps its
     * invariant, the tail's index is the chain's length.
     */
    function LastBlock(): (b: Block)
      reads this
      requires Valid()
      ensures b == chain[|chain| - 1]
      ensures ChainInvariant(hash, validProof, chain) ==> b.index == |chain|
    {
      TipIndexIsLength(hash, validProof, chain);
      Tip(chain)
    }

    /**
     * `new_block`: seals the pending pool into a block numbered after the
     * chain's length, appends it and empties the pool. Without a truthy
     * previous hash the digest of the tail is used, which needs a tail.
     */
    method NewBlock(proof: int, previousHash: Option<string>, now: real) returns (block: Block)
      requires |chain| > 0 || Truthy(previousHash)
      modifies this
      ensures Valid()
      ensures block.index == |old(chain)| + 1
      ensures block.timestamp == now && block.proof == proof
      ensures block.transactions == old(currentTransactions)
      ensures block.previousHash == if Truthy(previousHash) then previousHash.value else hash(Tip(old(chain)))
      ensures chain == old(chain) + [block] && LastBlock() == block
      ensures currentTransactions == [] && nodes == old(nodes)
    {
      var prev := if Truthy(previousHash) then previousHash.value else hash(Tip(chain));
      block := Block(|chain| + 1, now, currentTransactions, proof, prev);
      currentTransactions := [];
      chain := chain + [block];
    }

    /**
     * `new_transaction`: appends one transaction to the pool and returns
     * the index after the tail's, which is the next block's index while the
     * chain keeps its invariant.
     */
    method NewTransaction(sender: string, recipient: string, amount: int) returns (index: int)
      requires Valid()
      modifies this
      ensures Valid()
      ensures currentTransactions == old(currentTransactions) + [Transaction(sender, recipient, amount)]
      ensures chain == old(chain) && nodes == old(nodes)
      ensures index == LastBlock().index + 1
      ensures ChainInvariant(hash, validProof, chain) ==> index == |chain| + 1
    {
      currentTransactions := currentTransactions + [Transaction(sender, recipient, amount)];
      index := LastBlock().index + 1;
    }

    /**
     * `proof_of_work`: scans 0, 1, 2, ... and returns the first proof valid
     * against `lastBlock`'s proof and digest. Terminates when such a proof
     * exists; changes nothing.
     */
    method ProofOfWork(lastBlock: Block) returns (proof: nat)
      requires Solvable(validProof, lastBlock.proof, hash(lastBlock))
      ensures validProof(lastBlock.proof, proof, hash(lastBlock))
      ensures forall q: nat :: q < proof ==> !validProof(lastBlock.proof, q, hash(lastBlock))
    {
      var lastProof := lastBlock.proof;
      var lastHash := hash(lastBlock);
      ghost var w: nat :| validProof(lastProof, w, lastHash);
      proof := 0;
      while !validProof(lastProof, proof, lastHash)
        invariant proof <= w
        invariant forall q: nat :: q < proof ==> !validProof(lastProof, q, lastHash)
        decreases w - proof
      {
        proof := proof + 1;
      }
    }

    /**
     * The `/mine` handler: with pending transactions, finds the proof
     * against the tail, adds the reward `{sender: "0", recipient: minerId,
     * amount: 1}` and seals the pool into a new block; with none, nothing
     * happens.
     */
    method Mine(minerId: string, now: real) returns (mined: Option<Block>)
      requires Valid()
      requires currentTransactions != [] ==> Solvable(validProof, LastBlock().proof, hash(LastBlock()))
      modifies this
      ensures Valid() && nodes == old(nodes)
      ensures old(currentTransactions) == [] ==>
        mined == None && chain == old(chain) && currentTransactions == old(currentTransactions)
      ensures old(currentTransactions) != [] ==>
        mined.Some? && chain == old(chain) + [mined.value] && currentTransactions == []
      ensures mined.Some? ==> MinedOn(old(chain), old(currentTransactions) + [Reward(minerId)], now, mined.value)
      ensures ChainInvariant(hash, validProof, old(chain)) ==> ChainInvariant(hash, validProof, chain)
    {
      if currentTransactions == [] {
        return None;
      }
      var last := LastBlock();
      var proof := ProofOfWork(last);
      var _ := NewTransaction("0", minerId, 1);
      var block := NewBlock(proof, None, now);
      if ChainInvariant(hash, validProof, old(chain)) {
        ExtendKeepsInvariant(hash, validProof, old(chain), block);
      }
      return Some(block);
    }

    /**
     * The `/transactions/new` handler: appends the submitted transaction,
     * then mines at once, with no reward transaction. Returns the index
     * `new_transaction` reported and the new block.
     */
    method NewTransactionAndMine(sender: string, recipient: string, amount: int, now: real)
      returns (index: int, block: Block)
      requires Valid()
      requires Solvable(validProof, LastBlock().proof, hash(LastBlock()))
      modifies this
      ensures Valid() && nodes == old(nodes)
      ensures index == Tip(old(chain)).index + 1
      ensures chain == old(chain) + [block] && currentTransactions == []
      ensures MinedOn(old(chain), old(currentTransactions) + [Transaction(sender, recipient, amount)], now, block)
      ensures ChainInvariant(hash, validProof, old(chain)) ==> ChainInvariant(hash, validProof, chain)
    {
      index := NewTransaction(sender, recipient, amount);
      var last := LastBlock();
      var proof := ProofOfWork(last);
      block := NewBlock(proof, None, now);
      if ChainInvariant(hash, validProof, old(chain)) {
        ExtendKeepsInvariant(hash, validProof, old(chain), block);
      }
    }

    /** The reward the `/mine` handler credits to the miner. */
    function Reward(minerId: string): Transaction {
      Transaction("0", minerId, 1)
    }

    /**
     * `b` is the block mined on chain `c` from pool `txs` at time `now`:
     * numbered after `c`'s length, linked to `c`'s tail by its digest, and
     * carrying the least proof valid against that tail.
     */
    ghost predicate MinedOn(c: seq<Block>, txs: seq<Transaction>, now: real, b: Block)
      requires |c| > 0
    {
      b.index == |c| + 1 && b.timestamp == now && b.transactions == txs &&
      b.previousHash == hash(Tip(c)) && b.proof >= 0 &&
      LeastProof(validProof, Tip(c).proof, hash(Tip(c)), b.proof)
    }

    /**
     * `resolve_conflicts`: `responses[i]` is the answer of the i-th peer in
     * iteration order. Groups the fetched non-empty chains by the digest of
     * their tail, picks the first largest group, and adopts its first chain
     * when the group has more than `(|nodes| + 1) / 2` members.
     */
    method ResolveConflicts(responses: seq<Response>) returns (replaced: bool)
      requires Valid()
      requires |responses| == |nodes|
      modifies this
      ensures Valid()
      ensures replaced <==> Decide(hash, |old(nodes)|, responses).Some?
      ensures chain == if replaced then Decide(hash, |old(nodes)|, responses).value else old(chain)
      ensures currentTransactions == old(currentTransactions) && nodes == old(nodes)
    {
      var nodeCount := |nodes| + 1;
      var chains, order := CollectChains(responses);
      var majorityChain, majorityCount := PickMajority(responses, chains, order);
      DecideFromTally(hash, |nodes|, responses);
      if majorityChain.Some? && |majorityChain.value| > 0 && majorityCount > nodeCount / 2 {
        chain := majorityChain.value;
        return true;
      }
      return false;
    }

    /**
     * The first loop of `resolve_conflicts`: files each fetched non-empty
     * chain under the digest of its tail. `order` is the key order of the
     * dictionary, the order in which digests were first seen.
     */
    method CollectChains(responses: seq<Response>) returns (chains: map<string, seq<seq<Block>>>, order: seq<string>)
      ensures order == TipHashes(hash, responses)
      ensures forall k :: k in chains <==> k in order
      ensures forall k | k in chains :: chains[k] == Group(hash, responses, k)
    {
      chains, order := map[], [];
      var i := 0;
      while i < |responses|
        invariant 0 <= i <= |responses|
        invariant order == TipHashes(hash, responses[..i])
        invariant forall k :: k in chains <==> k in order
        invariant forall k | k in chains :: chains[k] == Group(hash, responses[..i], k)
      {
        assert responses[..i + 1][..i] == responses[..i];
        match responses[i] {
          case None =>
          case Some(c) =>
            if |c| > 0 {
              var chainHash := hash(Tip(c));
              if chainHash !in chains {
                chains := chains[chainHash := []];
                order := order + [chainHash];
              }
              chains := chains[chainHash := chains[chainHash] + [c]];
            }
        }
        i := i + 1;
      }
      assert responses[..i] == responses;
    }

    /**
     * The second loop of `resolve_conflicts`: walks the digests in key order
     * and keeps the first group with strictly more chains than any before it.
     */
    method PickMajority(responses: seq<Response>, chains: map<string, seq<seq<Block>>>, order: seq<string>)
      returns (majorityChain: Option<seq<Block>>, majorityCount: nat)
      requires forall k | k in order :: k in chains && chains[k] == Group(hash, responses, k)
      ensures majorityCount == Votes(hash, responses, Leader(hash, responses, order))
      ensures majorityChain == LeaderChain(hash, responses, Leader(hash, responses, order))
    {
      majorityChain, majorityCount := None, 0;
      var j := 0;
      while j < |order|
        invariant 0 <= j <= |order|
        invariant majorityCount == Votes(hash, responses, Leader(hash, responses, order[..j]))
        invariant majorityChain == LeaderChain(hash, responses, Leader(hash, responses, order[..j]))
      {
        assert order[..j + 1][..j] == order[..j];
        ghost var prev := Leader(hash, responses, order[..j]);
        assert Leader(hash, responses, order[..j + 1]) ==
          if |Group(hash, responses, order[j])| > Votes(hash, responses, prev) then Some(order[j]) else prev;
        var chainList := chains[order[j]];
        assert chainList == Group(hash, responses, order[j]);
        if |chainList| > majorityCount {
          majorityCount := |chainList|;
          majorityChain := Some(chainList[0]);
        }
        j := j + 1;
      }
      assert order[..j] == order;
    }

    /**
     * `register_node`, given the network location and path `urlparse`
     * extracts: records the location, else the path; fails with
     * `InvalidUrl` and leaves the peers alone when both are empty.
     */
    method RegisterNode(netloc: string, path: string) returns (outcome: Outcome<RegisterError>)
      modifies this`nodes
      ensures outcome.Fail? <==> netloc == "" && path == ""
      ensures nodes == AfterRegister(old(nodes), netloc, path)
    {
      if netloc != "" {
        nodes := nodes + {netloc};
      } else if path != "" {
        nodes := nodes + {path};
      } else {
        return Fail(InvalidUrl);
      }
      return Pass;
    }
  }
}
