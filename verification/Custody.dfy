/** Who keeps a scope when several nodes claimed custody of it: rendezvous among the claimants
    (swarm/cell-protocol/src/replication.rs). */
module Custody {
  import opened Basics

  type Node = nat

  /** The scope's hash of every node. */
  type Score = Node -> nat

  predicate Outranks(score: Score, a: Node, b: Node) {
    score(a) > score(b) || (score(a) == score(b) && a > b)
  }

  /** The claimant with the greatest hash, node id as tiebreak. */
  function Winner(score: Score, nodes: seq<Node>): Option<Node> {
    if nodes == [] then None
    else
      var before, last := Winner(score, nodes[..|nodes| - 1]), nodes[|nodes| - 1];
      if before.Some? && Outranks(score, before.value, last) then before else Some(last)
  }

  /** What a winner is: a claimant that outranks every other. */
  ghost predicate Wins(score: Score, nodes: seq<Node>, w: Node) {
    w in nodes && forall n :: n in nodes && n != w ==> Outranks(score, w, n)
  }

  lemma {:induction false} WinnerWins(score: Score, nodes: seq<Node>)
    ensures Winner(score, nodes).None? <==> nodes == []
    ensures Winner(score, nodes).Some? ==> Wins(score, nodes, Winner(score, nodes).value)
  {
    if nodes != [] {
      var init, last := nodes[..|nodes| - 1], nodes[|nodes| - 1];
      WinnerWins(score, init);
      assert forall n :: n in nodes <==> n in init || n == last;
    }
  }

  /** Only one claimant can win. */
  lemma WinsIff(score: Score, nodes: seq<Node>, w: Node)
    ensures Wins(score, nodes, w) <==> Winner(score, nodes) == Some(w)
  {
    WinnerWins(score, nodes);
    if Wins(score, nodes, w) {
      assert nodes != [];
      var v := Winner(score, nodes).value;
      assert v == w || Outranks(score, v, w);
    }
  }

  /** In plain terms: no claimant has a greater hash than the winner, and none with the same hash a greater
      id. */
  lemma WinnerIsGreatest(score: Score, nodes: seq<Node>, w: Node)
    ensures Winner(score, nodes) == Some(w)
            <==> w in nodes && forall n :: n in nodes ==> score(n) <= score(w) && (score(n) == score(w) ==> n <= w)
  {
    WinsIff(score, nodes, w);
  }

  /** The winner depends on who claims, not on the order or the number of times they are listed. */
  lemma OrderIrrelevant(score: Score, a: seq<Node>, b: seq<Node>)
    requires forall n :: n in a <==> n in b
    ensures Winner(score, a) == Winner(score, b)
  {
    WinnerWins(score, a);
    assert b == [] || b[0] in b;
    if a != [] {
      assert Wins(score, b, Winner(score, a).value);
      WinsIff(score, b, Winner(score, a).value);
    }
  }

  function AsSeq(node: Option<Node>): seq<Node> {
    if node.Some? then [node.value] else []
  }

  /** When two sides of a split meet, the winner is the winner of their winners: no side need know the
      other's losers. */
  lemma WinnerOfWinners(score: Score, a: seq<Node>, b: seq<Node>)
    ensures Winner(score, a + b) == Winner(score, AsSeq(Winner(score, a)) + AsSeq(Winner(score, b)))
  {
    var final := AsSeq(Winner(score, a)) + AsSeq(Winner(score, b));
    WinnerWins(score, a);
    WinnerWins(score, b);
    WinnerWins(score, final);
    if final == [] {
      assert a + b == [];
    } else {
      var w := Winner(score, final).value;
      assert w in a || w in b;
      forall n | n in a + b && n != w ensures Outranks(score, w, n) {
        var side := if n in a then Winner(score, a).value else Winner(score, b).value;
        assert side in final;
        assert side == w || Outranks(score, w, side);
        assert n == side || Outranks(score, side, n);
      }
      WinsIff(score, a + b, w);
    }
  }

  /** A loser that gives up changes nothing. */
  lemma LoserLeaves(score: Score, nodes: seq<Node>, left: seq<Node>, loser: Node)
    requires Winner(score, nodes) != Some(loser) && forall n :: n in left <==> n in nodes && n != loser
    ensures Winner(score, left) == Winner(score, nodes)
  {
    WinnerWins(score, nodes);
    assert left == [] || left[0] in left;
    if nodes != [] {
      WinsIff(score, left, Winner(score, nodes).value);
    }
  }
}
