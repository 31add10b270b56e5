/** Shared vocabulary of the matching engine: graphs as adjacency lists,
    matchings with the -1 sentinel, occurrence counting, and the outcome of a
    computation whose walks may not end. */
module Graphs {

  /** Sentinel the engine stores for "no partner" and "no parent". */
  const NoVertex: int := -1

  /** Vertex u's neighbours are Graph[u]; vertices are 0 .. |Graph| - 1. */
  type Graph = seq<seq<nat>>

  /** Every neighbour index names a vertex of the graph. */
  predicate ValidGraph(g: Graph) {
    forall u, i :: 0 <= u < |g| && 0 <= i < |g[u]| ==> g[u][i] < |g|
  }

  /** An undirected edge between u and v: one of them lists the other. */
  predicate Edge(g: Graph, u: nat, v: nat)
    requires u < |g| && v < |g|
  {
    v in g[u] || u in g[v]
  }

  /** Every entry of s is NoVertex or a vertex index below n. */
  predicate Entries(s: seq<int>, n: nat) {
    forall v :: 0 <= v < |s| ==> -1 <= s[v] < n
  }

  /** m is a matching of g, except that vertex x may still point at a
      partner that no longer points back (x == NoVertex: no exception).
      Every other matched vertex v has a partner m[v] distinct from v and x,
      the partner points back, and the pair is an edge of g. */
  predicate MatchingExcept(g: Graph, m: seq<int>, x: int) {
    && |m| == |g|
    && Entries(m, |g|)
    && forall v :: 0 <= v < |m| && v != x && m[v] != NoVertex ==>
         m[v] != v && m[v] != x && m[m[v]] == v && Edge(g, v, m[v])
  }

  /** m is a matching of g: symmetric, without self-pairs, along edges. */
  predicate IsMatching(g: Graph, m: seq<int>) {
    MatchingExcept(g, m, NoVertex)
  }

  /** Number of occurrences of x in s. */
  function Count<T(==)>(s: seq<T>, x: T): (c: nat)
    ensures c <= |s|
  {
    if s == [] then 0 else (if s[0] == x then 1 else 0) + Count(s[1..], x)
  }

  /** Overwriting one entry changes the count of x by at most the entry. */
  lemma {:induction false} CountUpdate<T>(s: seq<T>, i: nat, v: T, x: T)
    requires i < |s|
    ensures Count(s[i := v], x)
         == Count(s, x) - (if s[i] == x then 1 else 0) + (if v == x then 1 else 0)
  {
    if i == 0 {
      assert s[i := v][1..] == s[1..];
    } else {
      assert s[i := v][1..] == s[1..][i - 1 := v];
      CountUpdate(s[1..], i - 1, v, x);
    }
  }

  /** A sequence made only of x counts every entry. */
  lemma {:induction false} CountAll<T>(s: seq<T>, x: T)
    requires forall i :: 0 <= i < |s| ==> s[i] == x
    ensures Count(s, x) == |s|
  {
    if s != [] {
      CountAll(s[1..], x);
    }
  }

  /** A computation that ends with a value, or one whose walk through the
      alternating forest would not end (see Blossom). */
  datatype Outcome<T> = Done(value: T) | Stuck
}
