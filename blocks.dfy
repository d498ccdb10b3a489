/**
 * Transactions, blocks and chains of the ledger (blockchain.py), and the
 * linkage invariant a chain built by mining keeps.
 */
module Blocks {

  /** A pending or mined transaction: `{sender, recipient, amount}`. */
  datatype Transaction = Transaction(sender: string, recipient: string, amount: int)

  /** A block: `{index, timestamp, transactions, proof, previous_hash}`. */
  datatype Block = Block(
    index: int,
    timestamp: real,
    transactions: seq<Transaction>,
    proof: int,
    previousHash: string)

  /** The digest of a block (SHA-256 of its canonical JSON in the source). */
  type Hasher = Block -> string

  /** The proof-of-work predicate `valid_proof(last_proof, proof, last_hash)`. */
  type ProofCheck = (int, int, string) -> bool

  /** The tail block, `chain[-1]`. */
  function Tip(c: seq<Block>): Block
    requires |c| > 0
  {
    c[|c| - 1]
  }

  /** The genesis block the ledger's constructor appends, stamped at time `now`. */
  function Genesis(now: real): Block {
    Block(1, now, [], 100, "1")
  }

  /** `p` is what a scan from 0 finds: it satisfies the predicate and no smaller candidate does. */
  ghost predicate LeastProof(validProof: ProofCheck, lastProof: int, lastHash: string, p: nat) {
    validProof(lastProof, p, lastHash) &&
    forall q: nat :: q < p ==> !validProof(lastProof, q, lastHash)
  }

  /** Some non-negative proof satisfies the predicate, so the scan from 0 stops. */
  ghost predicate Solvable(validProof: ProofCheck, lastProof: int, lastHash: string) {
    exists p: nat :: validProof(lastProof, p, lastHash)
  }

  /** `b` may follow `prev`: it is numbered next, names `prev`'s digest and carries a valid proof. */
  ghost predicate Links(hash: Hasher, validProof: ProofCheck, prev: Block, b: Block) {
    b.index == prev.index + 1 &&
    b.previousHash == hash(prev) &&
    validProof(prev.proof, b.proof, hash(prev))
  }

  /**
   * The model's statement of hash linkage: a genesis-shaped first block and
   * every later block linked to its predecessor. The source never checks it;
   * the model uses it to state what mining preserves.
   */
  ghost predicate ChainInvariant(hash: Hasher, validProof: ProofCheck, c: seq<Block>) {
    |c| > 0 &&
    c[0].index == 1 && c[0].previousHash == "1" && c[0].proof == 100 && c[0].transactions == [] &&
    forall i :: 0 < i < |c| ==> Links(hash, validProof, c[i - 1], c[i])
  }

  /** The genesis chain satisfies the invariant for every hash and proof predicate. */
  lemma GenesisInvariant(hash: Hasher, validProof: ProofCheck, now: real)
    ensures ChainInvariant(hash, validProof, [Genesis(now)])
  {
  }

  /** In a chain that keeps the invariant, the block at position `i` has index `i + 1`. */
  lemma {:induction false} IndexIsPosition(hash: Hasher, validProof: ProofCheck, c: seq<Block>, i: nat)
    requires ChainInvariant(hash, validProof, c)
    requires i < |c|
    ensures c[i].index == i + 1
  {
    if i > 0 {
      IndexIsPosition(hash, validProof, c, i - 1);
      assert Links(hash, validProof, c[i - 1], c[i]);
    }
  }

  /** In a chain that keeps the invariant, the tail's index is the chain's length. */
  lemma TipIndexIsLength(hash: Hasher, validProof: ProofCheck, c: seq<Block>)
    requires |c| > 0
    ensures ChainInvariant(hash, validProof, c) ==> Tip(c).index == |c|
  {
    if ChainInvariant(hash, validProof, c) {
      IndexIsPosition(hash, validProof, c, |c| - 1);
    }
  }

  /**
   * Appending a block numbered `|c| + 1` that names the tail's digest and
   * carries a proof valid against the tail keeps the invariant.
   */
  lemma ExtendKeepsInvariant(hash: Hasher, validProof: ProofCheck, c: seq<Block>, b: Block)
    requires ChainInvariant(hash, validProof, c)
    requires b.index == |c| + 1
    requires b.previousHash == hash(Tip(c))
    requires validProof(Tip(c).proof, b.proof, hash(Tip(c)))
    ensures ChainInvariant(hash, validProof, c + [b])
  {
    IndexIsPosition(hash, validProof, c, |c| - 1);
    var d := c + [b];
    forall i | 0 < i < |d|
      ensures Links(hash, validProof, d[i - 1], d[i])
    {
      if i < |c| {
        assert d[i - 1] == c[i - 1] && d[i] == c[i];
      }
    }
  }
}
