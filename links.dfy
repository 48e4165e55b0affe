/**
 The link relation of a network: a sequence of directed entries (key, partner),
 in insertion order. An undirected link between a and b is the pair of entries
 (a, b) and (b, a). Entries with equal keys keep their insertion order, as the
 multimap of the original does, so the partners of a node are the projection of
 the entries keyed by that node.
 */
module Links {

  /** One directed entry: (key node, partner node). */
  type Link = (nat, nat)

  /** Partners of node `n`, in the order their entries were inserted: `m` is
      listed exactly when the entry (n, m) exists. */
  function Neighbors(links: seq<Link>, n: nat): (r: seq<nat>)
    ensures forall m :: m in r <==> (n, m) in links
  {
    if links == [] then []
    else
      var k := |links| - 1;
      assert links == links[..k] + [links[k]];
      Neighbors(links[..k], n) + (if links[k].0 == n then [links[k].1] else [])
  }

  /** Number of entries keyed by `n` (the multimap's count of a key), which is
      the length of its neighbour list. */
  function Degree(links: seq<Link>, n: nat): (r: nat)
    ensures r == |Neighbors(links, n)|
  {
    if links == [] then 0
    else Degree(links[..|links| - 1], n) + (if links[|links| - 1].0 == n then 1 else 0)
  }

  /** Sum of the degrees of the nodes 0 .. size-1. */
  function SumDegrees(links: seq<Link>, size: nat): nat
  {
    if size == 0 then 0 else SumDegrees(links, size - 1) + Degree(links, size - 1)
  }

  /** Every entry has its reverse entry. */
  ghost predicate Symmetric(links: seq<Link>)
  {
    forall p :: p in links ==> (p.1, p.0) in links
  }

  /** No node is linked to itself. */
  ghost predicate Irreflexive(links: seq<Link>)
  {
    forall p :: p in links ==> p.0 != p.1
  }

  /** No entry occurs twice. */
  ghost predicate NoDuplicates(links: seq<Link>)
  {
    forall i, j :: 0 <= i < j < |links| ==> links[i] != links[j]
  }

  /** The structural invariant of the link relation. */
  ghost predicate Wellformed(links: seq<Link>)
  {
    Symmetric(links) && Irreflexive(links) && NoDuplicates(links)
  }

  /** Every entry refers to nodes below `size`. */
  ghost predicate InRange(links: seq<Link>, size: nat)
  {
    forall p :: p in links ==> p.0 < size && p.1 < size
  }

  /**
   Whether add_link(a, b) succeeds on a network of `size` nodes: `b` is not
   already a neighbour of `a`, the endpoints differ and both are in range.
   */
  function Accepts(links: seq<Link>, size: nat, a: nat, b: nat): (r: bool)
    ensures r <==> a != b && a < size && b < size && (a, b) !in links
  {
    !(b in Neighbors(links, a)) && a != b && b < size && a < size
  }

  /** The link relation after add_link(a, b): both directions of a-b are
      appended when the link is accepted, nothing otherwise. */
  function Linked(links: seq<Link>, size: nat, a: nat, b: nat): (r: seq<Link>)
    ensures |r| == |links| + (if Accepts(links, size, a, b) then 2 else 0)
  {
    if Accepts(links, size, a, b) then links + [(a, b), (b, a)] else links
  }

  /** The link relation after add_link(a, c) for each candidate c in turn. */
  function LinkBatch(links: seq<Link>, size: nat, a: nat, candidates: seq<nat>): seq<Link>
  {
    if candidates == [] then links
    else
      var k := |candidates| - 1;
      Linked(LinkBatch(links, size, a, candidates[..k]), size, a, candidates[k])
  }

  /**
   The link relation random_connect builds from an empty one: node i tries
   the candidates draws[i] in turn.
   */
  function Connect(size: nat, draws: seq<seq<nat>>): seq<Link>
  {
    if draws == [] then []
    else
      var k := |draws| - 1;
      LinkBatch(Connect(size, draws[..k]), size, k, draws[k])
  }

  /** Total number of candidates drawn (the sum of the Poisson degrees). */
  function TotalDrawn(draws: seq<seq<nat>>): nat
  {
    if draws == [] then 0 else TotalDrawn(draws[..|draws| - 1]) + |draws[|draws| - 1]|
  }

  // ---------------------------------------------------------------------------
  // Queries

  /** A node without entries has degree 0 and no neighbours. */
  lemma {:induction false} UnlinkedNode(links: seq<Link>, n: nat)
    requires forall p :: p in links ==> p.0 != n
    ensures Degree(links, n) == 0 && Neighbors(links, n) == []
  {
    if links != [] {
      var k := |links| - 1;
      assert links[k] in links;
      assert forall p :: p in links[..k] ==> p in links;
      UnlinkedNode(links[..k], n);
    }
  }

  /** Appending one entry adds it to the end of its key's neighbour list only. */
  lemma AppendEntry(links: seq<Link>, p: Link, n: nat)
    ensures Neighbors(links + [p], n) == Neighbors(links, n) + (if p.0 == n then [p.1] else [])
    ensures Degree(links + [p], n) == Degree(links, n) + (if p.0 == n then 1 else 0)
  {
    assert (links + [p])[..|links|] == links;
  }

  /** In a well-formed relation neighbourhood is mutual, no node is its own
      neighbour, and no neighbour is listed twice. */
  lemma WellformedNeighbors(links: seq<Link>, a: nat, b: nat)
    requires Wellformed(links)
    ensures b in Neighbors(links, a) <==> a in Neighbors(links, b)
    ensures a !in Neighbors(links, a)
    ensures forall i, j :: 0 <= i < j < |Neighbors(links, a)| ==>
              Neighbors(links, a)[i] != Neighbors(links, a)[j]
  {
    if (a, b) in links { assert (b, a) in links; }
    if (b, a) in links { assert (a, b) in links; }
    DistinctNeighbors(links, a);
  }

  lemma {:induction false} DistinctNeighbors(links: seq<Link>, a: nat)
    requires NoDuplicates(links)
    ensures forall i, j :: 0 <= i < j < |Neighbors(links, a)| ==>
              Neighbors(links, a)[i] != Neighbors(links, a)[j]
  {
    if links != [] {
      var k := |links| - 1;
      var prefix := links[..k];
      assert NoDuplicates(prefix);
      DistinctNeighbors(prefix, a);
      if links[k].0 == a {
        assert links[k] !in prefix;
      }
    }
  }

  /** Inserting one entry raises the degree sum by one when its key is counted. */
  lemma {:induction false} SumDegreesAppend(links: seq<Link>, p: Link, size: nat)
    ensures SumDegrees(links + [p], size) == SumDegrees(links, size) + (if p.0 < size then 1 else 0)
  {
    if size > 0 {
      SumDegreesAppend(links, p, size - 1);
      AppendEntry(links, p, size - 1);
    }
  }

  /** Summing the degrees over all nodes counts every entry once, so the
      number of undirected links is half of it. */
  lemma {:induction false} DegreeSum(links: seq<Link>, size: nat)
    requires InRange(links, size)
    ensures SumDegrees(links, size) == |links|
  {
    if links == [] {
      EmptySum(size);
    } else {
      var k := |links| - 1;
      assert links == links[..k] + [links[k]];
      assert links[k] in links;
      DegreeSum(links[..k], size);
      SumDegreesAppend(links[..k], links[k], size);
    }
  }

  lemma {:induction false} EmptySum(size: nat)
    ensures SumDegrees([], size) == 0
  {
    if size > 0 { EmptySum(size - 1); }
  }

  // ---------------------------------------------------------------------------
  // add_link

  /** add_link keeps the relation symmetric, loop-free, free of duplicates and
      within range. */
  lemma LinkedKeepsInvariant(links: seq<Link>, size: nat, a: nat, b: nat)
    requires Wellformed(links)
    ensures Wellformed(Linked(links, size, a, b))
    ensures InRange(links, size) ==> InRange(Linked(links, size, a, b), size)
  {
    if Accepts(links, size, a, b) {
      var r := links + [(a, b), (b, a)];
      assert (b, a) !in links;
      forall i, j | 0 <= i < j < |r| ensures r[i] != r[j] {
        if j < |links| {
          assert r[i] == links[i] && r[j] == links[j];
        } else if i < |links| {
          assert r[i] in links;
        }
      }
    }
  }

  /** Appending both directions of a-b, seen from one node. */
  lemma AppendPair(links: seq<Link>, a: nat, b: nat, n: nat)
    ensures Neighbors(links + [(a, b), (b, a)], n) ==
              Neighbors(links, n) + (if a == n then [b] else []) + (if b == n then [a] else [])
    ensures Degree(links + [(a, b), (b, a)], n) ==
              Degree(links, n) + (if a == n then 1 else 0) + (if b == n then 1 else 0)
  {
    assert links + [(a, b), (b, a)] == (links + [(a, b)]) + [(b, a)];
    AppendEntry(links, (a, b), n);
    AppendEntry(links + [(a, b)], (b, a), n);
  }

  /** An accepted add_link appends b to a's neighbours and a to b's, raising
      both degrees by one and leaving every other node as it was. */
  lemma LinkedEffect(links: seq<Link>, size: nat, a: nat, b: nat, n: nat)
    requires Accepts(links, size, a, b)
    ensures Neighbors(Linked(links, size, a, b), a) == Neighbors(links, a) + [b]
    ensures Neighbors(Linked(links, size, a, b), b) == Neighbors(links, b) + [a]
    ensures Degree(Linked(links, size, a, b), a) == Degree(links, a) + 1
    ensures Degree(Linked(links, size, a, b), b) == Degree(links, b) + 1
    ensures n != a && n != b ==>
              Neighbors(Linked(links, size, a, b), n) == Neighbors(links, n) &&
              Degree(Linked(links, size, a, b), n) == Degree(links, n)
  {
    AppendPair(links, a, b, a);
    AppendPair(links, a, b, b);
    AppendPair(links, a, b, n);
  }

  /** A rejected add_link changes nothing. */
  lemma LinkedRejected(links: seq<Link>, size: nat, a: nat, b: nat)
    requires a == b || a >= size || b >= size || b in Neighbors(links, a)
    ensures Linked(links, size, a, b) == links
  {
  }

  /** Repeating add_link(a, b), or asking for the reverse link b-a, fails and
      changes nothing. */
  lemma LinkedTwice(links: seq<Link>, size: nat, a: nat, b: nat)
    requires Wellformed(links)
    ensures !Accepts(Linked(links, size, a, b), size, a, b)
    ensures !Accepts(Linked(links, size, a, b), size, b, a)
    ensures Linked(Linked(links, size, a, b), size, a, b) == Linked(links, size, a, b)
  {
    var r := Linked(links, size, a, b);
    if !Accepts(links, size, a, b) && a != b && a < size && b < size {
      assert (a, b) in links;
      assert (b, a) in links;
    } else if Accepts(links, size, a, b) {
      assert r[|links|] == (a, b) && r[|links| + 1] == (b, a);
    }
  }

  // ---------------------------------------------------------------------------
  // random_connect

  /** A batch of add_link calls keeps the relation well formed and in range. */
  lemma {:induction false} LinkBatchKeepsInvariant(links: seq<Link>, size: nat, a: nat, candidates: seq<nat>)
    requires Wellformed(links) && InRange(links, size)
    ensures Wellformed(LinkBatch(links, size, a, candidates))
    ensures InRange(LinkBatch(links, size, a, candidates), size)
  {
    if candidates != [] {
      var k := |candidates| - 1;
      LinkBatchKeepsInvariant(links, size, a, candidates[..k]);
      LinkedKeepsInvariant(LinkBatch(links, size, a, candidates[..k]), size, a, candidates[k]);
    }
  }

  /** A batch of add_link calls adds an even number of entries, at most two
      per candidate. */
  lemma {:induction false} LinkBatchGrowth(links: seq<Link>, size: nat, a: nat, candidates: seq<nat>)
    ensures |links| <= |LinkBatch(links, size, a, candidates)| <= |links| + 2 * |candidates|
    ensures (|LinkBatch(links, size, a, candidates)| - |links|) % 2 == 0
  {
    if candidates != [] {
      LinkBatchGrowth(links, size, a, candidates[..|candidates| - 1]);
    }
  }

  /** The relation random_connect builds is well formed and within range. */
  lemma {:induction false} ConnectKeepsInvariant(size: nat, draws: seq<seq<nat>>)
    ensures Wellformed(Connect(size, draws)) && InRange(Connect(size, draws), size)
  {
    if draws != [] {
      var k := |draws| - 1;
      ConnectKeepsInvariant(size, draws[..k]);
      LinkBatchKeepsInvariant(Connect(size, draws[..k]), size, k, draws[k]);
    }
  }

  /** The relation random_connect builds holds an even number of entries, at
      most two per drawn candidate. */
  lemma {:induction false} ConnectSize(size: nat, draws: seq<seq<nat>>)
    ensures |Connect(size, draws)| % 2 == 0
    ensures |Connect(size, draws)| <= 2 * TotalDrawn(draws)
  {
    if draws != [] {
      var k := |draws| - 1;
      var prev := Connect(size, draws[..k]);
      ConnectSize(size, draws[..k]);
      LinkBatchGrowth(prev, size, k, draws[k]);
      assert Connect(size, draws) == LinkBatch(prev, size, k, draws[k]);
      EvenGrowth(|prev|, |Connect(size, draws)|, TotalDrawn(draws[..k]), |draws[k]|);
    }
  }

  lemma EvenGrowth(before: nat, after: nat, drawn: nat, batch: nat)
    requires before % 2 == 0 && before <= 2 * drawn
    requires before <= after <= before + 2 * batch && (after - before) % 2 == 0
    ensures after % 2 == 0 && after <= 2 * (drawn + batch)
  {
  }

  /** In the relation random_connect builds, the degree sum over all nodes is
      the number of entries, twice the number of links. */
  lemma ConnectDegreeSum(size: nat, draws: seq<seq<nat>>)
    ensures SumDegrees(Connect(size, draws), size) == |Connect(size, draws)|
  {
    ConnectKeepsInvariant(size, draws);
    DegreeSum(Connect(size, draws), size);
  }

  /** Without nodes every add_link is rejected, whatever was drawn. */
  lemma {:induction false} LinkBatchNoNodes(a: nat, candidates: seq<nat>)
    ensures LinkBatch([], 0, a, candidates) == []
  {
    if candidates != [] {
      LinkBatchNoNodes(a, candidates[..|candidates| - 1]);
    }
  }

  /** A batch only appends: the earlier entries stay in front, in order. */
  lemma {:induction false} LinkBatchKeepsOld(links: seq<Link>, size: nat, a: nat, candidates: seq<nat>)
    ensures links <= LinkBatch(links, size, a, candidates)
  {
    if candidates != [] {
      LinkBatchKeepsOld(links, size, a, candidates[..|candidates| - 1]);
    }
  }

  /** Every entry a batch adds has the drawing node `a` as an endpoint. */
  lemma {:induction false} LinkBatchEndpoints(links: seq<Link>, size: nat, a: nat, candidates: seq<nat>)
    ensures forall p :: p in LinkBatch(links, size, a, candidates) ==> p in links || p.0 == a || p.1 == a
  {
    if candidates != [] {
      LinkBatchEndpoints(links, size, a, candidates[..|candidates| - 1]);
    }
  }

  /** Every link random_connect makes has a drawing node as an endpoint. */
  lemma {:induction false} ConnectEndpoints(size: nat, draws: seq<seq<nat>>)
    ensures forall p :: p in Connect(size, draws) ==> p.0 < |draws| || p.1 < |draws|
  {
    if draws != [] {
      var k := |draws| - 1;
      ConnectEndpoints(size, draws[..k]);
      LinkBatchEndpoints(Connect(size, draws[..k]), size, k, draws[k]);
    }
  }

  /** A network with no nodes gets no links, whatever was drawn. */
  lemma {:induction false} ConnectNoNodes(draws: seq<seq<nat>>)
    ensures Connect(0, draws) == []
  {
    if draws != [] {
      var k := |draws| - 1;
      ConnectNoNodes(draws[..k]);
      LinkBatchNoNodes(k, draws[k]);
    }
  }

  /** Every admissible candidate ends up linked to the drawing node: either
      its add_link succeeds, or the link was already there and stays. */
  lemma {:induction false} LinkBatchLinksCandidates(links: seq<Link>, size: nat, a: nat, candidates: seq<nat>, c: nat)
    requires c in candidates && c != a && a < size && c < size
    ensures (a, c) in LinkBatch(links, size, a, candidates)
  {
    var k := |candidates| - 1;
    var prev := LinkBatch(links, size, a, candidates[..k]);
    assert candidates == candidates[..k] + [candidates[k]];
    if c != candidates[k] {
      LinkBatchLinksCandidates(links, size, a, candidates[..k], c);
      assert prev <= Linked(prev, size, a, candidates[k]);
    }
  }

  /** Every entry a batch adds joins the drawing node to one of its
      candidates. */
  lemma {:induction false} LinkBatchFromCandidates(links: seq<Link>, size: nat, a: nat, candidates: seq<nat>, p: Link)
    requires p in LinkBatch(links, size, a, candidates)
    ensures p in links || (p.0 == a && p.1 in candidates) || (p.1 == a && p.0 in candidates)
  {
    if candidates != [] {
      var k := |candidates| - 1;
      var prev := LinkBatch(links, size, a, candidates[..k]);
      if p in prev {
        LinkBatchFromCandidates(links, size, a, candidates[..k], p);
        assert forall x :: x in candidates[..k] ==> x in candidates;
      } else {
        assert p == (a, candidates[k]) || p == (candidates[k], a);
      }
    }
  }

  /** The entries after a batch are the earlier ones plus links between the
      drawing node and its candidates, every admissible candidate included. */
  lemma LinkBatchMembers(links: seq<Link>, size: nat, a: nat, candidates: seq<nat>)
    ensures forall c :: c in candidates && c != a && a < size && c < size ==>
              (a, c) in LinkBatch(links, size, a, candidates)
    ensures forall p :: p in LinkBatch(links, size, a, candidates) ==>
              p in links || (p.0 == a && p.1 in candidates) || (p.1 == a && p.0 in candidates)
  {
    forall c | c in candidates && c != a && a < size && c < size
      ensures (a, c) in LinkBatch(links, size, a, candidates)
    {
      LinkBatchLinksCandidates(links, size, a, candidates, c);
    }
    forall p | p in LinkBatch(links, size, a, candidates)
      ensures p in links || (p.0 == a && p.1 in candidates) || (p.1 == a && p.0 in candidates)
    {
      LinkBatchFromCandidates(links, size, a, candidates, p);
    }
  }

  /** random_connect links node i with every admissible candidate it drew, in
      both directions. */
  lemma {:induction false} ConnectLinksDrawn(size: nat, draws: seq<seq<nat>>, i: nat, c: nat)
    requires i < |draws| && i < size && c in draws[i] && c != i && c < size
    ensures (i, c) in Connect(size, draws) && (c, i) in Connect(size, draws)
  {
    var k := |draws| - 1;
    var prev := Connect(size, draws[..k]);
    if i == k {
      LinkBatchLinksCandidates(prev, size, k, draws[k], c);
    } else {
      assert draws[..k][i] == draws[i];
      ConnectLinksDrawn(size, draws[..k], i, c);
      LinkBatchKeepsOld(prev, size, k, draws[k]);
    }
    ConnectKeepsInvariant(size, draws);
  }

  /** Every link random_connect makes joins a node with one of its drawn
      candidates. */
  lemma {:induction false} ConnectFromDraws(size: nat, draws: seq<seq<nat>>, p: Link)
    requires p in Connect(size, draws)
    ensures (p.0 < |draws| && p.1 in draws[p.0]) || (p.1 < |draws| && p.0 in draws[p.1])
  {
    var k := |draws| - 1;
    var prev := Connect(size, draws[..k]);
    LinkBatchFromCandidates(prev, size, k, draws[k], p);
    if p in prev {
      ConnectFromDraws(size, draws[..k], p);
      if p.0 < k && p.1 in draws[..k][p.0] {
        assert draws[..k][p.0] == draws[p.0];
      } else {
        assert draws[..k][p.1] == draws[p.1];
      }
    }
  }

  /** Links in range survive a growth of the node count. */
  lemma InRangeWidens(links: seq<Link>, size: nat, larger: nat)
    requires InRange(links, size) && size <= larger
    ensures InRange(links, larger)
  {
  }
}
