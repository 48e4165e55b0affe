# Network: a verified model

This project models the `Network` class of `src/network.cpp` in Dafny. A network is an undirected, unweighted graph. Its nodes are the positions of a vector of real values. Its links are kept in a multimap that holds both directions of every link.

- `links.dfy` (module `Links`) models the link relation as a sequence of directed entries `(key, partner)` in insertion order. Entries with equal keys keep their insertion order, as in the multimap, so `neighbors(n)` is the projection of the entries keyed by `n`. The module defines the invariant: symmetric, no self-loops, no duplicate entries, endpoints below the node count. It also defines `add_link` (`Accepts`, `Linked`) and the relation that `random_connect` builds (`LinkBatch`, `Connect`) as functions, with lemmas about them.
- `node_values.dfy` (module `NodeValues`) specifies the descending copy returned by `sorted_values`. It also gives the result of `set_values`, both as the code computes it and as its comment documents it.
- `network.dfy` (module `Networks`) holds the class `Network` with the fields `values: seq<real>` and `links: seq<Link>`. The mutators `resize`, `add_link`, `random_connect` and `set_values` are methods that reassign these fields, and `random_connect` and `set_values` keep the loops of the source. The inner loop of `random_connect` is the method `LinkCandidates`. The queries `size`, `value`, `degree`, `neighbors` and `sorted_values` are functions that read the object.

The class invariant `Valid()` says that the links are symmetric, loop-free and free of duplicates. It does not depend on the node count, and every operation preserves it. "Every endpoint is below the node count" is a separate predicate, `LinksInRange()`. `resize` keeps it when the node count does not shrink, `add_link` always keeps it, and `random_connect` re-establishes it. `set_values` keeps it when it is given at least as many values as there are nodes. Two operations can break it, and a scenario method shows each. `resize` does not prune links, so a shrinking resize can leave dangling entries (`Networks.ShrinkingResizeLeavesDanglingLink`). `set_values` with fewer values than nodes shrinks the node count under the existing links, because of the discrepancy described below (`Networks.ShortSetValuesLeavesDanglingLink`).

The random-number service is passed in as pre-drawn samples:
- `Resize(n, samples)` receives the `n` standard-normal draws.
- `RandomConnect(draws)` receives one sequence of candidate partners per node. The length of `draws[i]` is the Poisson degree drawn for node `i`. The model does not require the candidates to be in range, because `add_link` rejects out-of-range candidates anyway.

The comment on `set_values` (`src/network.cpp:71-74`) promises that the vector keeps its size. The code disagrees: when there are fewer new values than nodes, the prefix loop at line 85 runs, and then the `else` at line 96 assigns the new vector wholesale, so the values shrink to it. When the counts are equal, the values are also replaced wholesale. The model follows the code (`NodeValues.SetValuesResult`, `Networks.Network.SetValues`). The documented behaviour is `NodeValues.OverwritePrefix`. The two agree exactly when there are at least as many new values as nodes.

## Model

| member | source | states |
|---|---|---|
| Networks.Network.constructor | src/network.cpp:102-105 | a new network has no values and no links; the source has no constructor body (it is implicit in `network.h`, which is not part of this model), so the cited lines are `size()`, read on a fresh object as 0 |
| Networks.Network.Resize | src/network.cpp:14-19 | the node count becomes `n` and the values are the supplied normal samples; the links are untouched; the link invariant holds afterwards, and links stay in range if the count does not shrink |
| Networks.Network.AddLink | src/network.cpp:26-39 | returns true iff `a != b`, both are below the node count and the link is not already present; on success exactly `(a,b)` and `(b,a)` are appended, otherwise nothing changes; values untouched; symmetry, irreflexivity, no-duplicates and range are preserved |
| Networks.Network.RandomConnect | src/network.cpp:47-67 | starts from an empty relation, tries every drawn candidate of every node through add_link, ends with the well-formed in-range relation `Connect(N, draws)`; node `i` is linked, in both directions, with every candidate `c` it drew unless `c == i` or `c` is not a node (lines 41 and 61-65), and every link joins a node with one of its own candidates; the returned count is half the number of entries, which equals half the degree sum, and is at most the total of the drawn degrees; values untouched |
| Networks.Network.SetValues | src/network.cpp:81-99 | the values become `SetValuesResult(old values, newValues)`: with at least as many new values as nodes, the node count is kept, `values[i] == newValues[i]` for every node and links stay in range; with fewer, the values end equal to `newValues`; returns the resulting count; links untouched |
| Networks.Network.LinkCandidates | src/network.cpp:61-65 | tries add_link(a, c) for each candidate in turn; the links become `LinkBatch(old links, N, a, candidates)`, the number of successes is returned, each adds two entries, and there are at most as many successes as candidates; afterwards `a` is linked with every candidate other than itself that is a node, and every new entry joins `a` with one of its candidates; values untouched |
| Networks.Network.Size | src/network.cpp:102-105 | the number of nodes is the length of the values |
| Networks.Network.Value | src/network.cpp:114-117 | the value of an existing node `n` is `values[n]`; only nodes below the count may be asked for |
| Networks.Network.Degree | src/network.cpp:108-111 | the degree of `n` is the length of its neighbour list |
| Networks.Network.Neighbors | src/network.cpp:129-141 | `m` is listed among the neighbours of `n` iff the link entry `(n, m)` exists |
| Networks.Network.SortedValues | src/network.cpp:121-126 | a permutation of the values, of the same length, in non-increasing order; the values are left unchanged (a function cannot change them); by `NodeValues.SortUnique` no other order is possible, so how `std::sort` arranges equal values does not matter |
| Links.Neighbors | src/network.cpp:129-141 | `m` is listed among the neighbours of `n` iff the entry `(n, m)` exists; the list is the partners of the entries keyed by `n`, in insertion order (by its body; `AppendEntry` states the order) |
| Links.Degree | src/network.cpp:108-111 | the multimap count of a key equals the length of its neighbour list |
| Links.Accepts | src/network.cpp:28-32 | add_link succeeds iff the endpoints differ, both are in range and the entry `(a,b)` is absent, so a self-loop or an out-of-range endpoint is always rejected |
| Links.Linked | src/network.cpp:26-39 | the relation after add_link(a, b): both directions of a-b are appended when `Accepts` holds, nothing otherwise; its contract states only that the length grows by two exactly on acceptance |
| Links.LinkBatch | src/network.cpp:61-65 | definition, no contract of its own: the relation after add_link(a, c) for each candidate in turn; see `LinkBatchLinksCandidates`, `LinkBatchFromCandidates`, `LinkBatchKeepsOld`, `LinkBatchEndpoints`, `LinkBatchKeepsInvariant`, `LinkBatchGrowth` |
| Links.Connect | src/network.cpp:51-66 | definition, no contract of its own: the relation random_connect builds from an empty one, node by node; see `ConnectLinksDrawn`, `ConnectFromDraws`, `ConnectKeepsInvariant`, `ConnectSize`, `ConnectDegreeSum`, `ConnectEndpoints`, `ConnectNoNodes` |
| Links.UnlinkedNode | src/network.cpp:108-111 | a node with no entries has degree 0 and an empty neighbour list |
| Links.AppendEntry | src/network.cpp:34-35 | inserting an entry appends its partner to the end of its key's neighbour list and raises that key's degree by one; every other node is unaffected (insertion order among equal keys) |
| Links.WellformedNeighbors | src/network.cpp:26-39 | in a well-formed relation `b` is a neighbour of `a` iff `a` is a neighbour of `b`, no node is its own neighbour, and no neighbour is listed twice |
| Links.DistinctNeighbors | src/network.cpp:28-35 | without duplicate entries, no node's neighbour list repeats a partner |
| Links.SumDegreesAppend | src/network.cpp:108-111 | one more entry raises the sum of degrees over the nodes below `size` by one exactly when its key is below `size` |
| Links.DegreeSum | src/network.cpp:47-67 | when all endpoints are in range, the sum of all degrees equals the number of entries (twice the number of links) |
| Links.LinkedKeepsInvariant | src/network.cpp:26-39 | add_link preserves symmetry, irreflexivity and absence of duplicates, and keeps links within range |
| Links.LinkedEffect | src/network.cpp:34-36 | an accepted add_link appends `b` to `a`'s neighbours and `a` to `b`'s, raises both degrees by one and leaves every other node's neighbours and degree unchanged |
| Links.LinkedRejected | src/network.cpp:28-38 | a self-loop, an out-of-range endpoint or an existing neighbour leaves the relation unchanged |
| Links.LinkedTwice | src/network.cpp:28-31 | after add_link(a,b), repeating it or asking for b-a is rejected, and a second identical call changes nothing |
| Links.AppendPair | src/network.cpp:34-35 | inserting both directions of a-b appends `b` to `a`'s neighbour list and `a` to `b`'s, one degree each, and affects no other node |
| Links.LinkBatchKeepsOld | src/network.cpp:61-65 | a batch only appends: the earlier entries stay in front, in order |
| Links.LinkBatchEndpoints | src/network.cpp:61-65 | every entry a batch adds has the drawing node as one endpoint |
| Links.LinkBatchKeepsInvariant | src/network.cpp:61-65 | one node's batch of add_link calls keeps the relation well formed and in range |
| Links.LinkBatchGrowth | src/network.cpp:61-65 | one node's batch of add_link calls adds an even number of entries, at most two per candidate |
| Links.ConnectKeepsInvariant | src/network.cpp:47-67 | the relation random_connect builds is symmetric, loop-free, free of duplicates and in range |
| Links.ConnectSize | src/network.cpp:47-67 | the relation random_connect builds has an even number of entries, at most twice the total of the drawn Poisson degrees |
| Links.ConnectDegreeSum | src/network.cpp:47-67 | in the relation random_connect builds, the sum of all degrees equals the number of entries |
| Links.ConnectEndpoints | src/network.cpp:56-66 | every link random_connect makes has one of the drawing nodes as an endpoint |
| Links.LinkBatchNoNodes | src/network.cpp:32-38 | with no nodes every add_link is rejected, whatever the candidates |
| Links.ConnectNoNodes | src/network.cpp:56-66 | with no nodes random_connect builds no links, whatever was drawn |
| Links.LinkBatchLinksCandidates | src/network.cpp:61-65 | after one node's batch, `a` is linked with every candidate `c` with `c != a` and both below the node count, whether that add_link succeeded or the link already existed |
| Links.LinkBatchFromCandidates | src/network.cpp:61-65 | every entry after a batch was there before or joins `a` with one of its candidates, in either direction |
| Links.LinkBatchMembers | src/network.cpp:61-65 | both of the above for all candidates and all entries at once |
| Links.ConnectLinksDrawn | src/network.cpp:41 | in the relation random_connect builds, node `i` is linked with every candidate it drew, in both directions, unless the candidate is `i` itself or not a node |
| Links.ConnectFromDraws | src/network.cpp:56-66 | every entry of the relation random_connect builds joins some node with one of the candidates that node drew |
| Links.InRangeWidens | src/network.cpp:14-19 | links in range for a node count stay in range for any larger count |
| Networks.ShrinkingResizeLeavesDanglingLink | src/network.cpp:14-19 | scenario: after resize(2), add_link(0,1) and resize(1), the links are still `(0,1),(1,0)` and no longer in range, because resize does not prune links |
| Networks.ShortSetValuesLeavesDanglingLink | src/network.cpp:83-98 | scenario: after resize(3), add_link(1,2) and set_values([1.0]), set_values returns 1, the links are still `(1,2),(2,1)` and no longer in range |
| NodeValues.SetValuesResult | src/network.cpp:83-98 | set_values as the code runs it: the result is always the first min(N, number of new values) new values, and no old value survives |
| NodeValues.InsertDescending | src/network.cpp:121-126 | inserting into a non-increasing sequence keeps it non-increasing and adds exactly that element |
| NodeValues.SortDescending | src/network.cpp:121-126 | the sorted copy is non-increasing and a permutation (same multiset, same length) of the input |
| NodeValues.SortedHeadIsMaximum | src/network.cpp:119-126 | the first sorted value is at least every value |
| NodeValues.SameHead | src/network.cpp:121-126 | two non-increasing sequences with the same elements start with the same element |
| NodeValues.DescendingUnique | src/network.cpp:121-126 | two non-increasing sequences with the same elements are equal |
| NodeValues.SortUnique | src/network.cpp:121-126 | every non-increasing permutation of the values is the model's sorted copy, so the result of sorted_values is fully determined |
| NodeValues.OverwritePrefix | src/network.cpp:71-74 | the documented set_values: same length, position `i` takes the new value when one is given and keeps the old one otherwise |
| NodeValues.SetValuesKeepsSize | src/network.cpp:90-96 | with at least as many new values as nodes, the code keeps the length, overwrites every value, and agrees with the documented behaviour |
| NodeValues.SetValuesShrinks | src/network.cpp:83-96 | with fewer new values than nodes, the code's result is the new vector, shorter than before and different from the documented result |
| NodeValues.SetValuesShrinkExample | src/network.cpp:83-96 | for values `[1,2,3,4,5]` and new values `[9,9,9]` the code yields `[9,9,9]` while the documentation promises `[9,9,9,4,5]` |
| NodeValues.SetValuesTruncateExample | src/network.cpp:90-96 | for values `[1,2,3]` and new values `[7,8,9,10]` the result is `[7,8,9]` |

## Findings

| source | as written | input that shows it | evidently intended | confidence | as-written member | corrected member |
|---|---|---|---|---|---|---|
| src/network.cpp:83-96 | after the prefix copy for a shorter vector, the `else` of the second `if` also runs and assigns the new vector wholesale, so the values shrink | values `[1,2,3,4,5]`, new values `[9,9,9]`: result `[9,9,9]`, size 3 | keep the size, as the comment at lines 71-74 says: `[9,9,9,4,5]`; the return value is not in question, since lines 77 and 79 describe it as the number of nodes reset, 3, which is what the code returns | high (not executed) | NodeValues.SetValuesShrinkExample | NodeValues.OverwritePrefix |

The class follows the code as written (`Networks.Network.SetValues`). `NodeValues.SetValuesShrinks` states the discrepancy for every shorter input. `NodeValues.SetValuesKeepsSize` proves that the code and the documented behaviour agree whenever there are at least as many new values as nodes.

## Left out

- Random-number service (`RNG.normal`, `RNG.poisson`, `RNG.uniform_int`): its implementation is not part of this model. Its draws are parameters, and the distributions and statistical properties are not modelled. `RandomConnect` takes no mean degree, because the mean only parameterises the Poisson draw.
- Floating point: values are `real`. NaN and the behaviour of `std::greater` on it are not modelled.
- The erase loop at `src/network.cpp:51-54` erases through an iterator it then increments, which is undefined behaviour in C++. The model does what it evidently intends and clears all links.
- `values.size()-1` at `src/network.cpp:60` underflows when there are no nodes. The loop body never runs in that case, so this is not modelled.
- Integer widths: node indices are `nat` rather than `size_t`, and the counter `compteur` is an unbounded `nat` rather than an `int` converted to `size_t`. Overflow is not modelled.
- Networks.Network.Value: out-of-range access is undefined behaviour in the source, so the model makes it a precondition rather than an error result.
- Declarations in `network.h` and `random.h`, the default constructor and I/O: these headers are not part of this model. `Networks.Network.constructor` gives a fresh network with no nodes and no links.
