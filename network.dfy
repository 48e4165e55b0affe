/**
 The network: node values indexed by position and a link relation over those
 positions. The random-number service is passed in as pre-drawn samples.
 */
module Networks {
  import opened Links
  import opened NodeValues

  class Network {
    /** One value per node; the position is the node's identity. */
    var values: seq<real>
    /** Both directions of every link, in insertion order. */
    var links: seq<Link>

    /** The link relation is symmetric, loop-free and free of duplicates.
        Whether its endpoints are below the node count is stated separately,
        because resizing does not prune links. */
    ghost predicate Valid()
      reads this
    {
      Wellformed(links)
    }

    /** Every link refers to an existing node. */
    ghost predicate LinksInRange()
      reads this
    {
      InRange(links, |values|)
    }

    /** A network with no nodes and no links. */
    constructor ()
      ensures Valid() && LinksInRange()
      ensures values == [] && links == []
    {
      values := [];
      links := [];
    }

    /**
     Replaces all values with `samples`, the `n` draws of the standard normal
     distribution supplied by the random service. The links are left alone.
     */
    method Resize(n: nat, samples: seq<real>)
      requires Valid()
      requires |samples| == n
      modifies this
      ensures Valid()
      ensures Size() == n && values == samples
      ensures links == old(links)
      ensures old(LinksInRange()) && n >= old(|values|) ==> LinksInRange()
    {
      values := [];
      values := samples;
      if old(LinksInRange()) && n >= old(|values|) {
        InRangeWidens(links, old(|values|), n);
      }
    }

    /**
     Adds the undirected link a-b unless b is already a neighbour of a, the
     endpoints coincide, or one of them is not a node.
     */
    method AddLink(a: nat, b: nat) returns (ok: bool)
      requires Valid()
      modifies this
      ensures Valid()
      ensures ok <==> a != b && a < |values| && b < |values| && (a, b) !in old(links)
      ensures links == if ok then old(links) + [(a, b), (b, a)] else old(links)
      ensures ok == Accepts(old(links), |values|, a, b)
      ensures links == Linked(old(links), |values|, a, b)
      ensures values == old(values)
      ensures old(LinksInRange()) ==> LinksInRange()
    {
      var v := Neighbors(a);
      LinkedKeepsInvariant(links, |values|, a, b);
      if b in v {
        ok := false;
      } else if a != b && b < |values| && a < |values| {
        links := links + [(a, b), (b, a)];
        ok := true;
      } else {
        ok := false;
      }
    }

    /**
     Rebuilds the links from scratch. Node i draws a Poisson degree and that
     many candidate partners; `draws[i]` holds those candidates, so its length
     is the drawn degree. Each candidate is tried with AddLink; the number of
     successes is returned.
     */
    method RandomConnect(draws: seq<seq<nat>>) returns (count: nat)
      requires Valid()
      requires |draws| == |values|
      modifies this
      ensures Valid() && LinksInRange()
      ensures values == old(values)
      ensures links == Connect(|values|, draws)
      ensures 2 * count == |links| == SumDegrees(links, |values|)
      ensures count <= TotalDrawn(draws)
      ensures forall i, c :: 0 <= i < |draws| && c in draws[i] && c != i && c < |values| ==>
                (i, c) in links && (c, i) in links
      ensures forall p :: p in links ==>
                (p.0 < |draws| && p.1 in draws[p.0]) || (p.1 < |draws| && p.0 in draws[p.1])
    {
      links := [];
      count := 0;
      var it := 0;
      while it < |values|
        invariant 0 <= it <= |values|
        invariant values == old(values)
        invariant Valid()
        invariant links == Connect(|values|, draws[..it])
        invariant 2 * count == |links|
        invariant count <= TotalDrawn(draws[..it])
      {
        assert draws[..it + 1][..it] == draws[..it];
        var added := LinkCandidates(it, draws[it]);
        count := count + added;
        it := it + 1;
      }
      assert draws[..it] == draws;
      ConnectKeepsInvariant(|values|, draws);
      ConnectSize(|values|, draws);
      ConnectDegreeSum(|values|, draws);
      forall i, c | 0 <= i < |draws| && c in draws[i] && c != i && c < |values|
        ensures (i, c) in links && (c, i) in links
      {
        ConnectLinksDrawn(|values|, draws, i, c);
      }
      forall p | p in links
        ensures (p.0 < |draws| && p.1 in draws[p.0]) || (p.1 < |draws| && p.0 in draws[p.1])
      {
        ConnectFromDraws(|values|, draws, p);
      }
    }

    /**
     The inner loop of random_connect: tries AddLink(a, c) for each candidate
     c in turn and returns how many of those calls succeeded.
     */
    method LinkCandidates(a: nat, candidates: seq<nat>) returns (added: nat)
      requires Valid()
      modifies this
      ensures Valid()
      ensures values == old(values)
      ensures links == LinkBatch(old(links), |values|, a, candidates)
      ensures |links| == |old(links)| + 2 * added
      ensures added <= |candidates|
      ensures forall c :: c in candidates && c != a && a < |values| && c < |values| ==> (a, c) in links
      ensures forall p :: p in links ==>
                p in old(links) || (p.0 == a && p.1 in candidates) || (p.1 == a && p.0 in candidates)
    {
      added := 0;
      var i := 0;
      while i < |candidates|
        invariant 0 <= i <= |candidates|
        invariant values == old(values)
        invariant Valid()
        invariant links == LinkBatch(old(links), |values|, a, candidates[..i])
        invariant |links| == |old(links)| + 2 * added
        invariant added <= i
      {
        assert candidates[..i + 1][..i] == candidates[..i];
        var ok := AddLink(a, candidates[i]);
        if ok {
          added := added + 1;
        }
        i := i + 1;
      }
      assert candidates[..i] == candidates;
      LinkBatchMembers(old(links), |values|, a, candidates);
    }

    /**
     Overwrites the values from `newValues` as the code does: with more new
     values than nodes only the first |values| are used; otherwise the values
     end up equal to `newValues`. Returns the resulting node count.
     */
    method SetValues(newValues: seq<real>) returns (r: nat)
      requires Valid()
      modifies this
      ensures Valid() && links == old(links)
      ensures values == SetValuesResult(old(values), newValues)
      ensures r == |values|
      ensures |newValues| >= old(|values|) ==>
                r == old(|values|) && forall i :: 0 <= i < r ==> values[i] == newValues[i]
      ensures |newValues| < old(|values|) ==> values == newValues
      ensures old(LinksInRange()) && |newValues| >= old(|values|) ==> LinksInRange()
    {
      if |values| > |newValues| {
        var i := 0;
        while i < |newValues|
          invariant 0 <= i <= |newValues|
          invariant |values| == old(|values|) && links == old(links)
          invariant forall k :: 0 <= k < i ==> values[k] == newValues[k]
          invariant forall k :: i <= k < |values| ==> values[k] == old(values)[k]
        {
          values := values[i := newValues[i]];
          i := i + 1;
        }
      }
      if |values| < |newValues| {
        var i := 0;
        while i < |values|
          invariant 0 <= i <= |values|
          invariant |values| == old(|values|) && links == old(links)
          invariant forall k :: 0 <= k < i ==> values[k] == newValues[k]
        {
          values := values[i := newValues[i]];
          i := i + 1;
        }
        assert values == newValues[..|values|];
      } else {
        values := newValues;
      }
      r := |values|;
    }

    /** Number of nodes. */
    function Size(): (r: nat)
      reads this
      ensures r == |values|
    {
      |values|
    }

    /** Value of node `n`; only existing nodes may be asked for. */
    function Value(n: nat): (r: real)
      reads this
      requires n < Size()
      ensures r == values[n]
    {
      values[n]
    }

    /** Partners of node `n`, in the order their links were made. */
    function Neighbors(n: nat): (r: seq<nat>)
      reads this
      ensures forall m :: m in r <==> (n, m) in links
    {
      Links.Neighbors(links, n)
    }

    /** Number of links of node `n`; 0 for a node without links. */
    function Degree(n: nat): (r: nat)
      reads this
      ensures r == |Neighbors(n)|
    {
      Links.Degree(links, n)
    }

    /** All values in non-increasing order; the values themselves are left
        unchanged. */
    function SortedValues(): (r: seq<real>)
      reads this
      ensures |r| == |values|
      ensures multiset(r) == multiset(values)
      ensures Descending(r)
    {
      SortDescending(values)
    }
  }

  /**
   Resize does not prune links: the link 0-1 of a two-node network survives a
   resize to one node and then refers to a node that does not exist.
   */
  method ShrinkingResizeLeavesDanglingLink() returns (net: Network)
    ensures net.Valid() && net.Size() == 1
    ensures net.links == [(0, 1), (1, 0)]
    ensures !net.LinksInRange()
  {
    net := new Network();
    net.Resize(2, [0.0, 0.0]);
    var ok := net.AddLink(0, 1);
    net.Resize(1, [0.0]);
    assert (0, 1) in net.links;
  }

  /**
   set_values with fewer new values than nodes shrinks the node count under
   the existing links: after linking 1-2 in a three-node network, setting one
   value leaves a single node and two dangling entries.
   */
  method ShortSetValuesLeavesDanglingLink() returns (net: Network, count: nat)
    ensures net.Valid() && count == net.Size() == 1
    ensures net.links == [(1, 2), (2, 1)]
    ensures !net.LinksInRange()
  {
    net := new Network();
    net.Resize(3, [0.0, 0.0, 0.0]);
    var ok := net.AddLink(1, 2);
    count := net.SetValues([1.0]);
    assert (1, 2) in net.links;
  }
}
