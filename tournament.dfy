/** The banana tournament (mysterious_challenge.py): the graph of trainers
    who would wrestle forever, and the count of trainers left over once the
    blossom engine has paired as many of them as it can. */
module Tournament {
  import opened Graphs
  import opened PairRule
  import Blossom

  /** Every trainer holds at least one banana (mysterious_challenge.py:24). */
  predicate Positive(bananas: seq<nat>) {
    forall i :: 0 <= i < |bananas| ==> bananas[i] > 0
  }

  /** Trainer k's opponents among trainers 0 .. m - 1, in increasing order. */
  function Opponents(bananas: seq<nat>, k: nat, m: nat): seq<nat>
    requires Positive(bananas) && k < |bananas| && m <= |bananas|
  {
    if m == 0 then []
    else Opponents(bananas, k, m - 1)
         + (if m - 1 != k && CheckPair(bananas[k], bananas[m - 1]) then [m - 1] else [])
  }

  /** The graph host_tournament builds: vertex k is adjacent to every other
      trainer it would wrestle forever with. */
  function TournamentGraph(bananas: seq<nat>): (g: Graph)
    requires Positive(bananas)
    ensures |g| == |bananas|
  {
    seq(|bananas|, k requires 0 <= k < |bananas| => Opponents(bananas, k, |bananas|))
  }

  /** Opponents lists exactly the qualifying trainers below m. */
  lemma {:induction false} OpponentsExact(bananas: seq<nat>, k: nat, m: nat)
    requires Positive(bananas) && k < |bananas| && m <= |bananas|
    ensures forall x: nat :: x in Opponents(bananas, k, m) <==>
              x < m && x != k && CheckPair(bananas[k], bananas[x])
  {
    if m > 0 {
      OpponentsExact(bananas, k, m - 1);
    }
  }

  /** Opponents is strictly increasing and below m. */
  lemma {:induction false} OpponentsSorted(bananas: seq<nat>, k: nat, m: nat)
    requires Positive(bananas) && k < |bananas| && m <= |bananas|
    ensures forall x :: x in Opponents(bananas, k, m) ==> x < m
    ensures forall i, j :: 0 <= i < j < |Opponents(bananas, k, m)| ==>
              Opponents(bananas, k, m)[i] < Opponents(bananas, k, m)[j]
  {
    if m > 0 {
      OpponentsSorted(bananas, k, m - 1);
      var prev, cur := Opponents(bananas, k, m - 1), Opponents(bananas, k, m);
      if cur != prev {
        assert cur == prev + [m - 1];
        forall i, j | 0 <= i < j < |cur| ensures cur[i] < cur[j] {
          assert cur[i] == prev[i] && prev[i] in prev;
          if j < |prev| {
            assert cur[j] == prev[j];
          }
        }
      }
    }
  }

  /** Row u of the tournament graph is u's full opponent list. */
  lemma TournamentRow(bananas: seq<nat>, u: nat)
    requires Positive(bananas) && u < |bananas|
    ensures TournamentGraph(bananas)[u] == Opponents(bananas, u, |bananas|)
  {
  }

  /** host_tournament's graph has one vertex per trainer, and v is adjacent
      to u exactly when they differ and check_pair accepts them
      (mysterious_challenge.py:78-87); so no vertex is its own neighbour. */
  lemma TournamentAdjacency(bananas: seq<nat>)
    requires Positive(bananas)
    ensures forall u, v :: 0 <= u < |bananas| && 0 <= v < |bananas| ==>
              (v in TournamentGraph(bananas)[u] <==> u != v && CheckPair(bananas[u], bananas[v]))
  {
    var g := TournamentGraph(bananas);
    forall u | 0 <= u < |bananas|
      ensures forall x: nat :: x in g[u] <==> x < |bananas| && x != u && CheckPair(bananas[u], bananas[x])
    {
      TournamentRow(bananas, u);
      OpponentsExact(bananas, u, |bananas|);
    }
  }

  /** Every neighbour index of host_tournament's graph names a trainer. */
  lemma TournamentValid(bananas: seq<nat>)
    requires Positive(bananas)
    ensures ValidGraph(TournamentGraph(bananas))
  {
    var g := TournamentGraph(bananas);
    forall u, i | 0 <= u < |g| && 0 <= i < |g[u]| ensures g[u][i] < |g| {
      TournamentRow(bananas, u);
      OpponentsSorted(bananas, u, |bananas|);
      assert g[u][i] in g[u];
    }
  }

  /** The adjacency of host_tournament's graph is symmetric. */
  lemma TournamentSymmetric(bananas: seq<nat>)
    requires Positive(bananas)
    ensures forall u, v :: 0 <= u < |bananas| && 0 <= v < |bananas| ==>
              (v in TournamentGraph(bananas)[u] <==> u in TournamentGraph(bananas)[v])
  {
    TournamentAdjacency(bananas);
    forall u, v | 0 <= u < |bananas| && 0 <= v < |bananas|
      ensures CheckPair(bananas[u], bananas[v]) == CheckPair(bananas[v], bananas[u])
    {
      CheckPairSymmetric(bananas[u], bananas[v]);
    }
  }

  /** Every adjacency list of host_tournament's graph is strictly
      increasing, so it holds no vertex twice. */
  lemma TournamentSorted(bananas: seq<nat>)
    requires Positive(bananas)
    ensures forall u, i, j :: 0 <= u < |bananas| && 0 <= i < j < |TournamentGraph(bananas)[u]| ==>
              TournamentGraph(bananas)[u][i] < TournamentGraph(bananas)[u][j]
  {
    forall u | 0 <= u < |bananas|
      ensures forall i, j :: 0 <= i < j < |TournamentGraph(bananas)[u]| ==>
                TournamentGraph(bananas)[u][i] < TournamentGraph(bananas)[u][j]
    {
      TournamentRow(bananas, u);
      OpponentsSorted(bananas, u, |bananas|);
    }
  }

  /** How far trainer k's list is built when the loops of HostTournament
      stand at the pair (i, j). */
  function Built(n: nat, k: nat, i: nat, j: nat): nat {
    if k < i then n else if k == i then j else if k < j then i + 1 else i
  }

  /** One round of the inner loop on the pair (i, j) extends trainer k's
      list from Built at j to Built at j + 1. */
  lemma BuiltRowStep(bananas: seq<nat>, row: seq<nat>, i: nat, j: nat, k: nat)
    requires Positive(bananas) && i < j < |bananas| && k < |bananas|
    requires row == Opponents(bananas, k, Built(|bananas|, k, i, j))
    ensures (if k == i then row + (if CheckPair(bananas[i], bananas[j]) then [j] else [])
             else if k == j then row + (if CheckPair(bananas[i], bananas[j]) then [i] else [])
             else row)
            == Opponents(bananas, k, Built(|bananas|, k, i, j + 1))
  {
    if k == j {
      CheckPairSymmetric(bananas[i], bananas[j]);
    }
  }

  /** One round of the inner loop keeps every list built up to Built. */
  lemma BuiltStep(bananas: seq<nat>, before: Graph, after: Graph, i: nat, j: nat)
    requires Positive(bananas) && i < j < |bananas| && |before| == |bananas|
    requires forall k :: 0 <= k < |bananas| ==>
               before[k] == Opponents(bananas, k, Built(|bananas|, k, i, j))
    requires after == if CheckPair(bananas[i], bananas[j])
                      then before[i := before[i] + [j]][j := before[j] + [i]]
                      else before
    ensures |after| == |bananas|
    ensures forall k :: 0 <= k < |bananas| ==>
              after[k] == Opponents(bananas, k, Built(|bananas|, k, i, j + 1))
  {
    var n := |bananas|;
    forall k | 0 <= k < n ensures after[k] == Opponents(bananas, k, Built(n, k, i, j + 1)) {
      var accept := CheckPair(bananas[i], bananas[j]);
      var row := if k == i then before[i] + (if accept then [j] else [])
                 else if k == j then before[j] + (if accept then [i] else [])
                 else before[k];
      assert after[k] == row;
      BuiltRowStep(bananas, before[k], i, j, k);
    }
  }

  /** Before the inner loop for i, row i lacks only the opponents above i,
      and rows above i hold the opponents below i. */
  lemma BuiltStart(bananas: seq<nat>, graph: Graph, i: nat)
    requires Positive(bananas) && i < |bananas| && |graph| == |bananas|
    requires forall k :: 0 <= k < |bananas| ==>
               graph[k] == Opponents(bananas, k, if k < i then |bananas| else i)
    ensures forall k :: 0 <= k < |bananas| ==>
              graph[k] == Opponents(bananas, k, Built(|bananas|, k, i, i + 1))
  {
    assert Opponents(bananas, i, i + 1) == Opponents(bananas, i, i);
  }

  /** After the inner loop for i, rows up to i are complete. */
  lemma BuiltEnd(bananas: seq<nat>, graph: Graph, i: nat)
    requires Positive(bananas) && i < |bananas| && |graph| == |bananas|
    requires forall k :: 0 <= k < |bananas| ==>
               graph[k] == Opponents(bananas, k, Built(|bananas|, k, i, |bananas|))
    ensures forall k :: 0 <= k < |bananas| ==>
              graph[k] == Opponents(bananas, k, if k < i + 1 then |bananas| else i + 1)
  {
  }

  /** Once every row is complete the graph is the tournament graph. */
  lemma BuiltAll(bananas: seq<nat>, graph: Graph)
    requires Positive(bananas) && |graph| == |bananas|
    requires forall k :: 0 <= k < |bananas| ==> graph[k] == Opponents(bananas, k, |bananas|)
    ensures graph == TournamentGraph(bananas)
  {
  }

  /** The nested loops of host_tournament (mysterious_challenge.py:72-87):
      for each pair i < j that check_pair accepts, append j to i's list and
      i to j's list. */
  method HostTournament(bananas: seq<nat>) returns (graph: Graph)
    requires Positive(bananas)
    ensures graph == TournamentGraph(bananas)
  {
    var n := |bananas|;
    graph := seq(n, _ => []);
    for i := 0 to n
      invariant |graph| == n
      invariant forall k :: 0 <= k < n ==> graph[k] == Opponents(bananas, k, if k < i then n else i)
    {
      BuiltStart(bananas, graph, i);
      for j := i + 1 to n
        invariant |graph| == n
        invariant forall k :: 0 <= k < n ==> graph[k] == Opponents(bananas, k, Built(n, k, i, j))
      {
        ghost var before := graph;
        if CheckPair(bananas[i], bananas[j]) {
          graph := graph[i := graph[i] + [j]];
          graph := graph[j := graph[j] + [i]];
        }
        BuiltStep(bananas, before, graph, i, j);
      }
      BuiltEnd(bananas, graph, i);
    }
    BuiltAll(bananas, graph);
  }

  /** Every pair of a matching of the tournament graph is a pair of trainers
      that check_pair accepts. */
  lemma MatchedPairsAccepted(bananas: seq<nat>, m: seq<int>)
    requires Positive(bananas) && IsMatching(TournamentGraph(bananas), m)
    ensures forall v :: 0 <= v < |m| && m[v] != NoVertex ==>
              0 <= m[v] < |bananas| && CheckPair(bananas[v], bananas[m[v]])
  {
    TournamentAdjacency(bananas);
    TournamentSymmetric(bananas);
  }

  /** When every trainer holds the same number of bananas no pair is
      accepted, so a matching of the tournament graph leaves every trainer
      unmatched. */
  lemma EqualBananasUnmatched(bananas: seq<nat>, m: seq<int>)
    requires Positive(bananas) && IsMatching(TournamentGraph(bananas), m)
    requires forall i, j :: 0 <= i < j < |bananas| ==> bananas[i] == bananas[j]
    ensures Count(m, NoVertex) == |bananas|
  {
    MatchedPairsAccepted(bananas, m);
    forall v | 0 <= v < |m| ensures m[v] == NoVertex {
      if m[v] != NoVertex {
        var w := m[v];
        assert bananas[v] == bananas[w] by {
          if v < w {
            assert bananas[v] == bananas[w];
          } else {
            assert bananas[w] == bananas[v];
          }
        }
        CheckPairEqual(bananas[v]);
        assert false;
      }
    }
    CountAll(m, NoVertex);
  }

  /** distract_the_trainer (mysterious_challenge.py:184-209): run the
      blossom driver and count the trainers left unmatched. The count is
      that of a matching of the graph, at most the number of trainers, and
      of the same parity since matched trainers come in pairs. */
  method DistractTheTrainer(g: Graph) returns (r: Outcome<nat>, ghost matching: seq<int>)
    requires ValidGraph(g)
    ensures r.Done? ==> && IsMatching(g, matching) && r.value == Count(matching, NoVertex)
                        && r.value <= |g| && r.value % 2 == |g| % 2
  {
    var result, augmentations := Blossom.MaxMatching(g);
    if result.Stuck? {
      return Stuck, [];
    }
    matching := result.value;
    r := Done(Count(result.value, NoVertex));
  }

  /** solution (mysterious_challenge.py:212-216): the number of trainers
      left over once the tournament graph of the banana counts is matched. */
  method Solution(bananas: seq<nat>) returns (r: Outcome<nat>, ghost matching: seq<int>)
    requires Positive(bananas)
    ensures r.Done? ==> && IsMatching(TournamentGraph(bananas), matching)
                        && r.value == Count(matching, NoVertex)
                        && r.value <= |bananas| && r.value % 2 == |bananas| % 2
  {
    var graph := HostTournament(bananas);
    TournamentValid(bananas);
    r, matching := DistractTheTrainer(graph);
  }

  /** The two trainers of the example [1, 1] hold equal counts, so both are
      left over. */
  lemma SolutionEqualPair(m: seq<int>)
    requires IsMatching(TournamentGraph([1, 1]), m)
    ensures Count(m, NoVertex) == 2
  {
    EqualBananasUnmatched([1, 1], m);
  }
}
