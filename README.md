# Banana trainers and the blossom matching engine

This project models a small Python program in Dafny and proves properties of the model. The program solves the "distract the trainers" puzzle.

- Each trainer holds a positive number of bananas.
- Two trainers are joined by an edge when `check_pair` accepts their counts. It divides both counts by their gcd and rejects the pair when the reduced sum is a power of two.
- The program then finds a matching of that graph with Edmonds' blossom algorithm.
- Its answer is the number of trainers left unmatched.

The project has four modules:

- `Graphs` (`graphs.dfy`) holds the shared vocabulary:
  - graphs as adjacency lists;
  - matchings with the `-1` sentinel (`NoVertex`);
  - the undirected edge relation;
  - occurrence counting;
  - the `Outcome` of a computation whose walk may not end.
- `PairRule` (`pair_rule.dfy`) holds `gcd`, `reduce_pair`, `is_power_of_two` and `check_pair`.
  - `gcd` is a loop, so it is a method proved against the recursive Euclid function `Gcd`.
  - The others are pure functions with lemmas about them.
- `Blossom` (`blossom.dfy`) is the engine of `blossom_algorithm.py`, on arrays updated in place:
  - the lowest common ancestor walk;
  - the blossom path marking;
  - the breadth-first search with blossom contraction;
  - the driver with its path-flip loop.
  - `mysterious_challenge.py:90-181` repeats the same helpers verbatim, and they are modelled once, here.
- `Tournament` (`tournament.dfy`) holds `host_tournament`, `distract_the_trainer` and `solution`.
  - `host_tournament` is modelled as its nested loops, proved equal to a functional description of the graph.

How the model handles the forest walks:

- Four walks climb the alternating forest:
  - the two loops of the lowest common ancestor;
  - the blossom path marking;
  - the flip loop.
- In the source these loops end only because the search keeps the forest well formed, and nothing checks that.
- The model runs each walk exactly as the source does, with two additions.
  - A walk stops with `Stuck` (or `Blocked`, or `ok == false`) after |V| rounds.
  - It also stops the same way when the next step would index an array with `-1`. Python's negative index reaches the last vertex's entry there, and the loop carries on:
    - the lowest common ancestor walks (blossom_algorithm.py:6-17) only read at `-1`. a's walk, after an unset parent link, continues from `base[-1]`. b's walk, at an unmatched base, continues from `parent[-1]`, and after an unset parent link from `base[-1]`.
    - the marking walk at an unmatched `vertex` (blossom_algorithm.py:23-26) marks `base[vertex]` and `base[-1]`, points `parent[vertex]` at `child`, sets `child` to `-1` and continues from `parent[-1]`. It does not touch the last vertex's parent at that step.
    - the marking walk whose next vertex is `-1` (blossom_algorithm.py:22) reads `base[-1]`. When that equals the blossom base, Python leaves the loop normally and the search goes on, while the model reports the walk as not ending and the driver returns `Stuck`. Otherwise Python marks `base[-1]` and points `parent[-1]` at `child`.
    - the flip loop (blossom_algorithm.py:104-107) stores `-1` in `match[x]` and `x` in the last vertex's entry, breaking symmetry.
- The driver then returns `Stuck`.
- Every property below is proved for the runs that do not stop this way. Nothing is assumed about the others.

What the search does keep, and the model proves:

- Every parent link is unset, or leads to a different vertex across an edge of the graph (`ParentForest`).
- Hence the driver only pairs vertices that share an edge.

Termination of the search's queue loop is proved with this measure: the number of unset parent links, plus the number of unused vertices, plus the queue's length.

## Model

| member | source | states |
|---|---|---|
| PairRule.ComputeGcd | mysterious_challenge.py:29-33 | the loop returns Euclid's gcd; gcd(a, 0) == a; for a positive argument the result is positive and divides both; every common divisor divides it |
| PairRule.GcdDividesBoth | mysterious_challenge.py:29-33 | when a or b is positive, gcd(a, b) is positive and divides both |
| PairRule.GcdGreatest | mysterious_challenge.py:29-33 | every common divisor of a and b divides gcd(a, b) |
| PairRule.GcdCommutes | mysterious_challenge.py:29-33 | gcd is symmetric |
| PairRule.GcdScale | mysterious_challenge.py:29-33 | gcd(k*a, k*b) == k*gcd(a, b) for k > 0 |
| PairRule.ReducePairExact | mysterious_challenge.py:36-39 | both divisions are exact (ra*g == a, rb*g == b) and the cross products agree: ra*b == rb*a |
| PairRule.ReducedCoprime | mysterious_challenge.py:36-39 | the reduced components are coprime |
| PairRule.ReduceScale | mysterious_challenge.py:36-39 | scaling both counts by k > 0 leaves the reduced pair unchanged |
| PairRule.ReduceSwap | mysterious_challenge.py:36-39 | swapping the arguments swaps the reduced components |
| PairRule.PowerOfTwoExact | mysterious_challenge.py:42-44 | the `n > 0 and n & (n-1) == 0` test holds exactly when n == 2^k for some k >= 0 (so it is false for n <= 0) |
| PairRule.CheckPairMeaning | mysterious_challenge.py:68-69 | check_pair holds exactly when the sum of the reduced pair is no power of two |
| PairRule.CheckPairSymmetric | mysterious_challenge.py:68-69 | check_pair(a, b) == check_pair(b, a) |
| PairRule.CheckPairScale | mysterious_challenge.py:53-55 | check_pair(k*a, k*b) == check_pair(a, b) for k > 0 |
| PairRule.CheckPairEqual | mysterious_challenge.py:68-69 | equal counts reduce to (1, 1), whose sum 2 is a power of two, so check_pair(x, x) is false |
| PairRule.CheckPairExamples | mysterious_challenge.py:11-16 | check_pair(1, 4) holds and check_pair(3, 5) does not |
| Tournament.OpponentsExact | mysterious_challenge.py:82-85 | trainer k's list built over trainers below m holds exactly the trainers x < m, x != k, that check_pair accepts with k |
| Tournament.OpponentsSorted | mysterious_challenge.py:82-85 | that list is strictly increasing and below m |
| Tournament.HostTournament | mysterious_challenge.py:72-87 | the nested loops over pairs i < j build exactly the tournament graph |
| Tournament.TournamentAdjacency | mysterious_challenge.py:78-87 | v is in u's list iff u != v and check_pair accepts them, so no vertex lists itself |
| Tournament.TournamentSymmetric | mysterious_challenge.py:83-85 | v is in u's list iff u is in v's list |
| Tournament.TournamentSorted | mysterious_challenge.py:81-85 | every adjacency list is strictly increasing, so it has no duplicates |
| Tournament.TournamentValid | mysterious_challenge.py:78-87 | every listed neighbour is a trainer index |
| Tournament.MatchedPairsAccepted | mysterious_challenge.py:75-76 | in any matching of the tournament graph, each matched pair is a pair check_pair accepts |
| Tournament.EqualBananasUnmatched | mysterious_challenge.py:68-69 | when all counts are equal, every matching of the tournament graph leaves all trainers unmatched |
| Tournament.SolutionEqualPair | mysterious_challenge.py:68-69 | for counts [1, 1] every matching leaves both trainers unmatched |
| Tournament.DistractTheTrainer | mysterious_challenge.py:184-209 | a completed run returns the number of -1 entries of a matching of the graph; the count lies between 0 and the vertex count and has the vertex count's parity |
| Tournament.Solution | mysterious_challenge.py:212-216 | the same for the tournament graph of the banana counts |
| Blossom.FindLowestCommonAncestor | blossom_algorithm.py:1-17 | reads only; on success the walk from a climbs base by base to an unmatched base, and the walk from b climbs to the first base met by a's walk, which is the result; no earlier base of b's walk was met by a's walk; it reports Stuck only when a's walk, or b's walk after climbing past no base of a's, ran as many rounds as there are vertices or reached a NoVertex link |
| Blossom.MarkAscent | blossom_algorithm.py:4-11 | visited marks exactly the bases of a's base-by-base ascent; on success the last of them is unmatched; on failure the last is matched and the ascent ran as many rounds as there are vertices or reached an unset parent link |
| Blossom.ClimbToMarked | blossom_algorithm.py:12-17 | reads only; a found base ends b's base-by-base ascent, is visited, and no earlier base of the ascent is; Stuck only after an ascent of unvisited bases that ran as many rounds as there are vertices, reached an unmatched base, or reached an unset parent link |
| Blossom.MarkStep | blossom_algorithm.py:22-26 | one round of the marking walk keeps the forest's shape, records the vertex and its child, marks both bases, and moves the walk to the partner's parent |
| Blossom.MarkBlossomPath | blossom_algorithm.py:20-26 | changes only parent and the marks, and leaves them exactly as the marking walk `MarkWalk` does from the old parent links and marks: walk round by round while the base differs from the blossom base, mark the vertex's base and its partner's base, point the vertex at the child, move to the parent of the partner |
| Blossom.MarkWalkSound | blossom_algorithm.py:20-26 | the marking walk keeps the forest's shape; its first vertex is `vertex` with child `child`; each next vertex is the parent of the previous vertex's partner, read after the earlier rewiring, with that partner as child; every walked vertex is matched and outside the blossom base; the parent links are the old ones with each walked vertex pointed at its child; the marks are the old ones plus exactly the walked vertices' bases and their partners' bases; on a clean exit the next vertex has the blossom base |
| Blossom.SetParent | blossom_algorithm.py:86 | writing a different adjacent vertex into a parent link keeps the forest shape, and removes one unset link exactly when the link was unset |
| Blossom.StartSearch | blossom_algorithm.py:31-36 | parent all -1, base the identity, only root used, queue == [root] |
| Blossom.ContractBlossom | blossom_algorithm.py:79-84 | each vertex whose old base is marked moves to cur_base and becomes used; the others keep their base and flag; the newly used vertices are queued in index order; bases stay in range |
| Blossom.MarkSides | blossom_algorithm.py:57-76 | given the lowest common ancestor of u and w, changes only parent, keeping the forest's shape; when both marking walks (from u with child w, then from w with child u) end at the blossom base, the marks are exactly the bases they touched, over an all-false start; otherwise `GaveUp` holds: the walk from u does not end there as `MarkWalk` runs it from the old parent links and all-false marks, or it does and the walk from w, run from where it left the links and marks, does not |
| Blossom.MarkBlossom | blossom_algorithm.py:54-76 | changes only parent, keeping the forest's shape; when no walk is stuck, the blossom base is the lowest common ancestor as `FindLowestCommonAncestor` characterises it, the two marking walks (from u with child w, then from w with child u) both end at it, and the marks are exactly the bases those walks touched, over an all-false start; when it gives up, `GaveUp` names the walk that stopped: the ancestor search stuck as `LcaStuck` describes it, or the ancestor found and one of the two marking walks not ending at it |
| Blossom.ContractAt | blossom_algorithm.py:48-84 | the blossom branch keeps bases in range and the forest's shape; when no walk is stuck, the marks are those of `MarkBlossom`, every vertex whose old base is marked moves to the blossom base and becomes used, the others keep base and flag, exactly the newly used vertices are queued in index order, and both endpoints of the edge end in the blossom base; when a walk is stuck, base, used and the queue are unchanged and `GaveUp` names the walk that stopped, as for `MarkBlossom` |
| Blossom.GrowTree | blossom_algorithm.py:85-91 | the unparented neighbour w gets u as parent, keeping the forest's shape with one unset link fewer; it reports w exactly when w is unmatched, and otherwise marks w's partner used and appends it to the queue, changing nothing else |
| Blossom.FindAugmentingPath | blossom_algorithm.py:29-92 | writes only parent, never mate; terminates; a reported endpoint w is unmatched, differs from root, has a parent, and is a neighbour of that parent |
| Blossom.FlipStep | blossom_algorithm.py:104-108 | pairing x with its parent p keeps a matching (up to p's former partner, now dangling) and lowers the unmatched count by one for each of x and p that was unmatched |
| Blossom.FlipRound | blossom_algorithm.py:104-108 | one flip round keeps the flip loop's record: a matching except at the next vertex, the endpoint matched, the unmatched count on track to drop by exactly two, and no vertex of the starting matching unmatched |
| Blossom.FlipRunStop | blossom_algorithm.py:103-108 | a flip run takes at most its rounds, and one that does not complete stops at a vertex after all its rounds or at an unset parent link |
| Blossom.FlipRunFacts | blossom_algorithm.py:103-108 | a flip run from a state the loop can reach, once a round is taken, ends in such a state again: a matching except at the stop vertex, the endpoint matched, the unmatched count on track, only parent links written as partners |
| Blossom.FlipRunSound | blossom_algorithm.py:103-108 | the flip run from an unmatched endpoint of a matching along a parent forest keeps every entry a vertex or -1, unmatches no vertex, writes only parent links as partners; if it completes, the result is a matching with the endpoint matched and exactly two fewer unmatched vertices; if not, it stopped after as many rounds as there are vertices or at an unset parent link |
| Blossom.Augment | blossom_algorithm.py:103-108 | the new partners, the vertex the loop stopped at and its round count are exactly those of `FlipRun`, the flip loop over the old partners from w with one round per vertex; it reports success exactly when that run completed; a vertex whose partner changed now has its own parent or a vertex whose parent it is as partner, so a vertex no parent link touches keeps its partner; no matched vertex becomes unmatched; a completed flip leaves a matching with the endpoint matched and exactly two fewer unmatched vertices; a failed one stopped after as many rounds as there are vertices or at a vertex whose parent link is unset |
| Blossom.MaxMatching | blossom_algorithm.py:95-109 | a completed run returns a symmetric matching along graph edges, entries -1 or vertex indices, of length the vertex count; its number of unmatched vertices is at most the vertex count and has the vertex count's parity (each completed flip matches two more vertices) |

## Left out

- Blossom.FindLowestCommonAncestor, Blossom.MarkBlossomPath, Blossom.Augment: each walk stops after |V| rounds or before indexing with -1.
  - The source instead relies on the forest being well formed. At index -1 it would read and write the last element, as described above.
  - The model does not prove that the search keeps the forest well formed, so it does not prove that these stops never happen.
- Blossom.MaxMatching: maximality of the matching (Berge's theorem, the correctness of Edmonds' algorithm) is not proved. Only validity, symmetry, edges and the unmatched count are proved.
- Blossom.Augment: it does not prove that the second newly matched vertex is the search root. It proves only that exactly two unmatched vertices become matched, the endpoint among them.
  - A flip that stops partway leaves `mate` partially flipped. The model proves only that its entries stay in range and that no matched vertex became unmatched. The driver then gives up with `Stuck`.
  - The model stops before the writes that Python would make at a `-1` parent link, where it would store `-1` in `match` and break symmetry. So "no matched vertex becomes unmatched" is proved only for the walk the model runs.
- Blossom.FindAugmentingPath, Blossom.MaxMatching, Tournament.DistractTheTrainer, Tournament.Solution: their `Blocked` and `Stuck` results are not tied by contract to the walk that stopped. A body that always gave up would meet these four contracts. DistractTheTrainer and Solution pass on the `Stuck` of MaxMatching. The stop conditions are stated one level down: on MarkBlossom and ContractAt through `GaveUp`, and on Augment through `FlipRun`.
- Blossom.FindAugmentingPath: a reported endpoint is shown to be a valid unmatched neighbour, not the end of an augmenting path. That would need the full alternating-tree invariant.
- The O(n^3) running time and the cost of `queue.pop(0)` are not modelled. The queue is a sequence.
- The graph is a Python dict of lists; here it is a sequence of neighbour sequences. The engine's callers must supply in-range neighbours (`ValidGraph`), otherwise the source raises an index error.
- Banana counts are naturals, and the pair rule needs a positive count where the source would divide by zero. The 2^30 - 1 bound on counts is only stated in a comment and is not modelled.
- The puzzle's claim that `check_pair` characterises endless thumb-wrestling matches (mysterious_challenge.py:53-66) is an informal argument with no code behind it. It is not modelled.
- The example answer 0 for counts [1, 4] depends on maximality and is not proved. Only check_pair(1, 4) is.
- There is no I/O, concurrency or floating point in the program.
