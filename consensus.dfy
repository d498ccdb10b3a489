/**
 * The majority vote of `resolve_conflicts` (blockchain.py), as functions of
 * the peers' answers. Each answer is `None` when the fetch failed or the
 * status was not 200, and `Some(chain)` otherwise; an empty chain makes
 * `chain[-1]` raise, so it contributes no vote either.
 */
module Consensus {
  import opened Wrappers
  import opened Blocks

  /** One peer's answer to `GET /chain`. */
  type Response = Option<seq<Block>>

  /** The vote an answer casts: the digest of its tail block, if it has one. */
  function TipHash(hash: Hasher, r: Response): (v: Option<string>)
    ensures v.Some? <==> r.Some? && |r.value| > 0
    ensures v.Some? ==> v.value == hash(Tip(r.value))
  {
    if r.Some? && |r.value| > 0 then Some(hash(Tip(r.value))) else None
  }

  /** The chains voting for digest `h`, in the order they were received (`chains[h]`). */
  function Group(hash: Hasher, rs: seq<Response>, h: string): (g: seq<seq<Block>>)
    ensures |g| <= |rs|
  {
    if rs == [] then []
    else
      var last := rs[|rs| - 1];
      Group(hash, rs[..|rs| - 1], h) + (if TipHash(hash, last) == Some(h) then [last.value] else [])
  }

  /** The digests that received votes, each once, in the order first seen (the key order of `chains`). */
  function TipHashes(hash: Hasher, rs: seq<Response>): (ks: seq<string>)
    ensures forall i, j | 0 <= i < j < |ks| :: ks[i] != ks[j]
    ensures forall h :: h in ks <==> |Group(hash, rs, h)| > 0
  {
    if rs == [] then []
    else
      var ks := TipHashes(hash, rs[..|rs| - 1]);
      match TipHash(hash, rs[|rs| - 1])
      case None => ks
      case Some(h) => if h in ks then ks else ks + [h]
  }

  /** The size of the group a candidate names, 0 for no candidate (`majority_count`). */
  function Votes(hash: Hasher, rs: seq<Response>, l: Option<string>): nat {
    if l.Some? then |Group(hash, rs, l.value)| else 0
  }

  /**
   * The candidate the second loop of `resolve_conflicts` ends with: scanning
   * `ks` in order, a digest replaces the current one only with strictly more
   * votes, so the result is the first digest of largest group.
   */
  function Leader(hash: Hasher, rs: seq<Response>, ks: seq<string>): (l: Option<string>)
    ensures l.Some? ==> l.value in ks && |Group(hash, rs, l.value)| > 0
    ensures forall k | k in ks :: |Group(hash, rs, k)| <= Votes(hash, rs, l)
    ensures l.None? ==> forall k | k in ks :: |Group(hash, rs, k)| == 0
  {
    if ks == [] then None
    else
      var prev := Leader(hash, rs, ks[..|ks| - 1]);
      var k := ks[|ks| - 1];
      assert forall x | x in ks :: x in ks[..|ks| - 1] || x == k;
      if |Group(hash, rs, k)| > Votes(hash, rs, prev) then Some(k) else prev
  }

  /** The first chain of the group a candidate digest names (`majority_chain`). */
  function LeaderChain(hash: Hasher, rs: seq<Response>, l: Option<string>): Option<seq<Block>>
    requires l.Some? ==> |Group(hash, rs, l.value)| > 0
  {
    if l.Some? then Some(Group(hash, rs, l.value)[0]) else None
  }

  /** The vote threshold: more than half of the peers plus this node (`node_count // 2`). */
  function Threshold(peers: nat): (t: nat)
    ensures 2 * t <= peers + 1 <= 2 * t + 1
  {
    (peers + 1) / 2
  }

  /** Passing the threshold means more votes than half of the nodes, this node included. */
  lemma ThresholdIsStrictMajority(peers: nat, votes: nat)
    ensures votes > Threshold(peers) <==> 2 * votes > peers + 1
  {
  }

  /**
   * The chain `resolve_conflicts` adopts, or `None` when it keeps its own.
   * An adopted chain is never empty, so the ledger keeps a tail block.
   */
  function Decide(hash: Hasher, peers: nat, rs: seq<Response>): (d: Option<seq<Block>>)
    ensures d.Some? ==> |d.value| > 0
  {
    var l := Leader(hash, rs, TipHashes(hash, rs));
    if l.Some? && |Group(hash, rs, l.value)| > Threshold(peers) then
      var c := Group(hash, rs, l.value)[0];
      GroupAgrees(hash, rs, l.value, c);
      Some(c)
    else None
  }

  /** Ties go to the digest seen first: every digest before the leader in `ks` has strictly fewer votes. */
  lemma {:induction false} LeaderIsFirstMaximal(hash: Hasher, rs: seq<Response>, ks: seq<string>)
    requires Leader(hash, rs, ks).Some?
    ensures exists i :: 0 <= i < |ks| && ks[i] == Leader(hash, rs, ks).value && BeatsEarlier(hash, rs, ks, i)
  {
    var init := ks[..|ks| - 1];
    var prev := Leader(hash, rs, init);
    if |Group(hash, rs, ks[|ks| - 1])| > Votes(hash, rs, prev) {
      var i := |ks| - 1;
      forall j | 0 <= j < i
        ensures |Group(hash, rs, ks[j])| < |Group(hash, rs, ks[i])|
      {
        assert ks[j] == init[j] && ks[j] in init;
      }
      assert BeatsEarlier(hash, rs, ks, i);
    } else {
      LeaderIsFirstMaximal(hash, rs, init);
      var i :| 0 <= i < |init| && init[i] == prev.value && BeatsEarlier(hash, rs, init, i);
      assert ks[i] == init[i];
      forall j | 0 <= j < i
        ensures |Group(hash, rs, ks[j])| < |Group(hash, rs, ks[i])|
      {
        assert ks[j] == init[j];
      }
      assert BeatsEarlier(hash, rs, ks, i);
    }
  }

  /** Every digest before position `i` of `ks` has strictly fewer votes than `ks[i]`. */
  ghost predicate BeatsEarlier(hash: Hasher, rs: seq<Response>, ks: seq<string>, i: nat)
    requires i < |ks|
  {
    forall j :: 0 <= j < i ==> |Group(hash, rs, ks[j])| < |Group(hash, rs, ks[i])|
  }

  /** Two different digests split the votes: together their groups hold at most one chain per answer. */
  lemma {:induction false} GroupsDisjoint(hash: Hasher, rs: seq<Response>, h1: string, h2: string)
    requires h1 != h2
    ensures |Group(hash, rs, h1)| + |Group(hash, rs, h2)| <= |rs|
  {
    if rs != [] {
      GroupsDisjoint(hash, rs[..|rs| - 1], h1, h2);
    }
  }

  /**
   * The head of a group is the first answer received that votes for its
   * digest (`chain_list[0]`).
   */
  lemma {:induction false} GroupHeadIsFirstReceived(hash: Hasher, rs: seq<Response>, h: string)
    requires |Group(hash, rs, h)| > 0
    ensures exists i ::
      (0 <= i < |rs| && rs[i] == Some(Group(hash, rs, h)[0]) &&
       TipHash(hash, rs[i]) == Some(h) &&
       forall j :: 0 <= j < i ==> TipHash(hash, rs[j]) != Some(h))
  {
    var init := rs[..|rs| - 1];
    if |Group(hash, init, h)| > 0 {
      GroupHeadIsFirstReceived(hash, init, h);
      var i :| 0 <= i < |init| && init[i] == Some(Group(hash, init, h)[0]) &&
        TipHash(hash, init[i]) == Some(h) &&
        (forall j :: 0 <= j < i ==> TipHash(hash, init[j]) != Some(h));
      assert rs[i] == init[i];
      assert forall j :: 0 <= j < i ==> rs[j] == init[j];
    } else {
      var i := |rs| - 1;
      forall j | 0 <= j < i
        ensures TipHash(hash, rs[j]) != Some(h)
      {
        assert rs[j] == init[j];
        if TipHash(hash, init[j]) == Some(h) {
          GroupHasEveryVote(hash, init, h, j);
        }
      }
    }
  }

  /** A group holds only non-empty chains whose tail has digest `h`. */
  lemma {:induction false} GroupAgrees(hash: Hasher, rs: seq<Response>, h: string, c: seq<Block>)
    requires c in Group(hash, rs, h)
    ensures |c| > 0 && hash(Tip(c)) == h
  {
    var init := rs[..|rs| - 1];
    if c in Group(hash, init, h) {
      GroupAgrees(hash, init, h, c);
    }
  }

  /** Every answer voting for `h` lands in `h`'s group. */
  lemma {:induction false} GroupHasEveryVote(hash: Hasher, rs: seq<Response>, h: string, i: nat)
    requires i < |rs| && TipHash(hash, rs[i]) == Some(h)
    ensures rs[i].value in Group(hash, rs, h)
  {
    if i < |rs| - 1 {
      GroupHasEveryVote(hash, rs[..|rs| - 1], h, i);
    }
  }

  /**
   * With one answer per peer, at most one digest can pass the threshold,
   * so the largest group is the one that passes when any does.
   */
  lemma MajorityIsUnique(hash: Hasher, peers: nat, rs: seq<Response>, h1: string, h2: string)
    requires |rs| <= peers
    requires |Group(hash, rs, h1)| > Threshold(peers) && |Group(hash, rs, h2)| > Threshold(peers)
    ensures h1 == h2
  {
    if h1 != h2 {
      GroupsDisjoint(hash, rs, h1, h2);
    }
  }

  /**
   * The replacement rule: `resolve_conflicts` adopts a chain exactly when
   * some digest has more votes than the threshold, and then it adopts the
   * first chain received with that digest.
   */
  lemma DecideExact(hash: Hasher, peers: nat, rs: seq<Response>)
    requires |rs| <= peers
    ensures Decide(hash, peers, rs).Some? <==> exists h :: |Group(hash, rs, h)| > Threshold(peers)
    ensures forall h :: |Group(hash, rs, h)| > Threshold(peers) ==> Decide(hash, peers, rs) == Some(Group(hash, rs, h)[0])
  {
    var ks := TipHashes(hash, rs);
    var l := Leader(hash, rs, ks);
    forall h | |Group(hash, rs, h)| > Threshold(peers)
      ensures Decide(hash, peers, rs) == Some(Group(hash, rs, h)[0])
    {
      assert h in ks;
      assert |Group(hash, rs, h)| <= Votes(hash, rs, l);
      MajorityIsUnique(hash, peers, rs, h, l.value);
    }
    if Decide(hash, peers, rs).Some? {
      assert |Group(hash, rs, l.value)| > Threshold(peers);
    }
  }

  /** An adopted chain is one of the answers, and the first one received with its tail digest. */
  lemma DecideAdoptsFirstReceived(hash: Hasher, peers: nat, rs: seq<Response>)
    requires Decide(hash, peers, rs).Some?
    ensures exists i ::
      (0 <= i < |rs| && rs[i] == Decide(hash, peers, rs) && |rs[i].value| > 0 &&
       forall j :: 0 <= j < i ==> TipHash(hash, rs[j]) != TipHash(hash, rs[i]))
  {
    var l := Leader(hash, rs, TipHashes(hash, rs)).value;
    GroupHeadIsFirstReceived(hash, rs, l);
  }

  /**
   * With no peer or a single peer the chain is never replaced: one vote at
   * most, against a threshold of at least the number of answers.
   */
  lemma FewPeersNeverReplace(hash: Hasher, peers: nat, rs: seq<Response>)
    requires peers <= 1 && |rs| <= peers
    ensures Decide(hash, peers, rs).None?
  {
    var l := Leader(hash, rs, TipHashes(hash, rs));
    if l.Some? {
      assert |Group(hash, rs, l.value)| <= |rs|;
    }
  }

  /**
   * Votes are not validated: two peers agreeing on a chain whose first block
   * is no genesis block outvote this node, and that chain is adopted.
   */
  lemma AdoptsChainBreakingInvariant(hash: Hasher, validProof: ProofCheck)
    ensures var c := [Block(5, 0.0, [], 0, "")];
      Decide(hash, 2, [Some(c), Some(c)]) == Some(c) && !ChainInvariant(hash, validProof, c)
  {
    var c := [Block(5, 0.0, [], 0, "")];
    var rs := [Some(c), Some(c)];
    var h := hash(Tip(c));
    assert rs[..1] == [Some(c)] && rs[..1][..0] == [];
    assert Group(hash, rs, h) == [c, c];
    DecideExact(hash, 2, rs);
  }

  /**
   * The final test of `resolve_conflicts` on the tally of its two loops
   * (a chosen chain that is non-empty, with more votes than half the node
   * count) decides as `Decide` does.
   */
  lemma DecideFromTally(hash: Hasher, peers: nat, rs: seq<Response>)
    ensures var l := Leader(hash, rs, TipHashes(hash, rs));
      var majorityChain := LeaderChain(hash, rs, l);
      Decide(hash, peers, rs) ==
        if majorityChain.Some? && |majorityChain.value| > 0 && Votes(hash, rs, l) > (peers + 1) / 2
        then majorityChain else None
  {
    var l := Leader(hash, rs, TipHashes(hash, rs));
    if l.Some? {
      GroupAgrees(hash, rs, l.value, Group(hash, rs, l.value)[0]);
    }
  }
}
