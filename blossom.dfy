/** Edmonds' blossom algorithm for a maximum matching in a general graph
    (blossom_algorithm.py; the same helpers are repeated verbatim in
    mysterious_challenge.py:90-181 and are modelled once, here).

    The search state lives in flat arrays indexed by vertex: mate (the source's match: partner
    or NoVertex), parent (the alternating tree, NoVertex when unset), base
    (the blossom a vertex is contracted into), used (already queued).

    The walks up the alternating forest (both loops of the lowest common
    ancestor, the blossom path marking and the augmenting flip) end in a
    well-formed forest within |V| rounds without ever following a NoVertex
    link. The model runs them as the source does but stops with Stuck when
    a walk would take a round more than |V| or index an array with NoVertex
    (where Python would read and write the last element instead); the model
    does not prove that the search always keeps the forest well formed. */
module Blossom {
  import opened Graphs

  /** What one search from a root yields: an unmatched endpoint of an
      augmenting path, no path at all, or a walk that did not end. */
  datatype SearchResult = Found(endpoint: nat) | Exhausted | Blocked

  /** Every base is a vertex. */
  predicate Bases(b: seq<int>, n: nat) {
    |b| == n && forall x :: 0 <= x < |b| ==> 0 <= b[x] < n
  }

  /** Each parent link is unset, or leads to a different vertex across an
      edge of g. */
  predicate ParentForest(g: Graph, p: seq<int>) {
    && |p| == |g|
    && forall x :: 0 <= x < |p| ==>
         p[x] == NoVertex || (0 <= p[x] < |g| && p[x] != x && Edge(g, x, p[x]))
  }

  /** One round of the walk to the root: the base of the parent of the
      partner of x, or NoVertex when x is unmatched or that parent is unset. */
  function Up(m: seq<int>, b: seq<int>, p: seq<int>, x: nat): int
    requires |m| == |b| == |p| && x < |m| && Entries(m, |m|) && Entries(p, |m|)
    requires Bases(b, |m|)
  {
    if m[x] == NoVertex || p[m[x]] == NoVertex then NoVertex else b[p[m[x]]]
  }

  /** path lists the bases met walking up from start, one round at a time. */
  predicate IsAscent(m: seq<int>, b: seq<int>, p: seq<int>, start: nat, path: seq<nat>)
    requires |m| == |b| == |p| && start < |m| && Entries(m, |m|) && Entries(p, |m|)
    requires Bases(b, |m|)
  {
    && |path| >= 1
    && (forall k :: 0 <= k < |path| ==> path[k] < |m|)
    && path[0] == b[start]
    && forall k :: 0 <= k < |path| - 1 ==> Up(m, b, p, path[k]) == path[k + 1]
  }

  /** A walk up from start begins with the base of start. */
  lemma AscentStart(m: seq<int>, b: seq<int>, p: seq<int>, start: nat)
    requires |m| == |b| == |p| && start < |m| && Entries(m, |m|) && Entries(p, |m|)
    requires Bases(b, |m|)
    ensures IsAscent(m, b, p, start, [b[start]])
  {
  }

  /** A walk up extends by one round. */
  lemma AscentExtend(m: seq<int>, b: seq<int>, p: seq<int>, start: nat, path: seq<nat>, v: int)
    requires |m| == |b| == |p| && start < |m| && Entries(m, |m|) && Entries(p, |m|)
    requires Bases(b, |m|)
    requires IsAscent(m, b, p, start, path)
    requires m[path[|path| - 1]] != NoVertex && v == p[m[path[|path| - 1]]] && v != NoVertex
    ensures 0 <= v < |m| && IsAscent(m, b, p, start, path + [b[v]])
  {
    assert Up(m, b, p, path[|path| - 1]) == b[v];
  }

  /** The first walk of the lowest common ancestor
      (blossom_algorithm.py:4-11): from a, mark every base on the way up to
      an unmatched base in visited, which starts all false. */
  method MarkAscent(mate: array<int>, base: array<int>, parent: array<int>, visited: array<bool>, a: nat)
    returns (ok: bool, ghost pathA: seq<nat>)
    requires mate.Length == base.Length == parent.Length == visited.Length && a < mate.Length
    requires Entries(mate[..], mate.Length) && Entries(parent[..], mate.Length)
    requires Bases(base[..], mate.Length)
    requires forall x :: 0 <= x < visited.Length ==> !visited[x]
    modifies visited
    ensures forall x :: 0 <= x < visited.Length ==> (visited[x] <==> x in pathA)
    ensures forall k :: 0 <= k < |pathA| ==> pathA[k] < mate.Length
    ensures ok ==> IsAscent(mate[..], base[..], parent[..], a, pathA) && mate[pathA[|pathA| - 1]] == NoVertex
    ensures !ok ==> && IsAscent(mate[..], base[..], parent[..], a, pathA)
                    && mate[pathA[|pathA| - 1]] != NoVertex
                    && (|pathA| == mate.Length || parent[mate[pathA[|pathA| - 1]]] == NoVertex)
  {
    var n := mate.Length;
    ghost var m, bs, p := mate[..], base[..], parent[..];
    var v: int := a;
    var steps := 0;
    pathA := [];
    while true
      invariant 0 <= steps <= n && |pathA| == steps && -1 <= v < n
      invariant forall x :: 0 <= x < n ==> (visited[x] <==> x in pathA)
      invariant forall k :: 0 <= k < |pathA| ==> pathA[k] < n
      invariant steps == 0 ==> v == a
      invariant steps > 0 ==> IsAscent(m, bs, p, a, pathA)
                              && m[pathA[steps - 1]] != NoVertex
                              && v == p[m[pathA[steps - 1]]]
      decreases n - steps
    {
      if v == NoVertex || steps == n {
        return false, pathA;
      }
      if steps == 0 {
        AscentStart(m, bs, p, a);
      } else {
        AscentExtend(m, bs, p, a, pathA, v);
      }
      var x := base[v];
      visited[x] := true;
      pathA := pathA + [x];
      if mate[x] == NoVertex {
        return true, pathA;
      }
      v := parent[mate[x]];
      steps := steps + 1;
    }
  }

  /** The second walk of the lowest common ancestor
      (blossom_algorithm.py:12-17): from b, climb base by base to the first
      base marked in visited. */
  method ClimbToMarked(mate: array<int>, base: array<int>, parent: array<int>, visited: array<bool>, b: nat)
    returns (r: Outcome<nat>, ghost pathB: seq<nat>)
    requires mate.Length == base.Length == parent.Length == visited.Length && b < mate.Length
    requires Entries(mate[..], mate.Length) && Entries(parent[..], mate.Length)
    requires Bases(base[..], mate.Length)
    ensures r.Done? ==> r.value < mate.Length && IsAscent(mate[..], base[..], parent[..], b, pathB)
                        && pathB[|pathB| - 1] == r.value && visited[r.value]
                        && forall k :: 0 <= k < |pathB| - 1 ==> !visited[pathB[k]]
    ensures r.Stuck? ==> && IsAscent(mate[..], base[..], parent[..], b, pathB)
                         && (forall k :: 0 <= k < |pathB| ==> !visited[pathB[k]])
                         && (|pathB| == mate.Length || mate[pathB[|pathB| - 1]] == NoVertex
                             || parent[mate[pathB[|pathB| - 1]]] == NoVertex)
  {
    var n := mate.Length;
    ghost var m, bs, p := mate[..], base[..], parent[..];
    var w: int := b;
    var steps := 0;
    pathB := [];
    while true
      invariant 0 <= steps <= n && |pathB| == steps && -1 <= w < n
      invariant forall k :: 0 <= k < |pathB| ==> pathB[k] < n && !visited[pathB[k]]
      invariant steps == 0 ==> w == b
      invariant steps > 0 ==> IsAscent(m, bs, p, b, pathB)
                              && m[pathB[steps - 1]] != NoVertex
                              && w == p[m[pathB[steps - 1]]]
      decreases n - steps
    {
      if w == NoVertex || steps == n {
        return Stuck, pathB;
      }
      if steps == 0 {
        AscentStart(m, bs, p, b);
      } else {
        AscentExtend(m, bs, p, b, pathB, w);
      }
      var y := base[w];
      pathB := pathB + [y];
      if visited[y] {
        return Done(y), pathB;
      }
      if mate[y] == NoVertex {
        return Stuck, pathB;
      }
      w := parent[mate[y]];
      steps := steps + 1;
    }
  }

  /** The lowest common ancestor of a and b (blossom_algorithm.py:1-17):
      mark every base on the walk from a up to an unmatched base, then walk
      up from b to the first marked base. Reads mate, base and parent only. */
  method FindLowestCommonAncestor(mate: array<int>, base: array<int>, parent: array<int>, a: nat, b: nat)
    returns (r: Outcome<nat>, ghost pathA: seq<nat>, ghost pathB: seq<nat>)
    requires mate.Length == base.Length == parent.Length && a < mate.Length && b < mate.Length
    requires Entries(mate[..], mate.Length) && Entries(parent[..], mate.Length)
    requires Bases(base[..], mate.Length)
    ensures r.Done? ==> r.value < mate.Length
    ensures r.Done? ==> IsAscent(mate[..], base[..], parent[..], a, pathA)
                        && mate[pathA[|pathA| - 1]] == NoVertex
    ensures r.Done? ==> IsAscent(mate[..], base[..], parent[..], b, pathB)
                        && pathB[|pathB| - 1] == r.value && r.value in pathA
                        && forall k :: 0 <= k < |pathB| - 1 ==> pathB[k] !in pathA
    ensures r.Stuck? ==> IsAscent(mate[..], base[..], parent[..], a, pathA)
    ensures r.Stuck? && mate[pathA[|pathA| - 1]] != NoVertex ==>
              |pathA| == mate.Length || parent[mate[pathA[|pathA| - 1]]] == NoVertex
    ensures r.Stuck? && mate[pathA[|pathA| - 1]] == NoVertex ==>
              && IsAscent(mate[..], base[..], parent[..], b, pathB)
              && (forall k :: 0 <= k < |pathB| ==> pathB[k] !in pathA)
              && (|pathB| == mate.Length || mate[pathB[|pathB| - 1]] == NoVertex
                  || parent[mate[pathB[|pathB| - 1]]] == NoVertex)
  {
    var visited := new bool[mate.Length](_ => false);
    var ok;
    ok, pathA := MarkAscent(mate, base, parent, visited, a);
    if !ok {
      return Stuck, pathA, [];
    }
    r, pathB := ClimbToMarked(mate, base, parent, visited, b);
  }

  /** The bases marked for the walked vertices: each one's base and its
      partner's base. */
  function Touched(m: seq<int>, b: seq<int>, walk: seq<nat>): set<int>
    requires |m| == |b| && Entries(m, |m|) && Bases(b, |m|)
    requires forall k :: 0 <= k < |walk| ==> walk[k] < |m|
  {
    if walk == [] then {}
    else
      var x := walk[|walk| - 1];
      Touched(m, b, walk[..|walk| - 1]) + {b[x]} + (if m[x] != NoVertex then {b[m[x]]} else {})
  }

  /** The marks mk0 after marking, for each walked vertex in walk order,
      its base and its partner's base. */
  function Mark(mk0: seq<bool>, m: seq<int>, b: seq<int>, walk: seq<nat>): (mk: seq<bool>)
    requires |m| == |b| == |mk0| && Entries(m, |m|) && Bases(b, |m|)
    requires forall k :: 0 <= k < |walk| ==> walk[k] < |m|
    ensures |mk| == |mk0|
  {
    if walk == [] then mk0
    else
      var x := walk[|walk| - 1];
      var mk := Mark(mk0, m, b, walk[..|walk| - 1])[b[x] := true];
      if m[x] != NoVertex then mk[b[m[x]] := true] else mk
  }

  /** Marking along a walk sets exactly the bases the walk touched. */
  lemma {:induction false} MarkTouched(mk0: seq<bool>, m: seq<int>, b: seq<int>, walk: seq<nat>)
    requires |m| == |b| == |mk0| && Entries(m, |m|) && Bases(b, |m|)
    requires forall k :: 0 <= k < |walk| ==> walk[k] < |m|
    ensures forall x :: 0 <= x < |mk0| ==> (Mark(mk0, m, b, walk)[x] <==> mk0[x] || x in Touched(m, b, walk))
  {
    if walk != [] {
      MarkTouched(mk0, m, b, walk[..|walk| - 1]);
    }
  }

  /** Writing a different adjacent vertex into a parent link keeps the
      forest's shape, and removes one unset link exactly when the link was
      unset. */
  lemma SetParent(g: Graph, p: seq<int>, x: nat, c: nat)
    requires ParentForest(g, p) && x < |p| && c < |p| && x != c && Edge(g, x, c)
    ensures ParentForest(g, p[x := c])
    ensures Count(p[x := c], NoVertex) == Count(p, NoVertex) - (if p[x] == NoVertex then 1 else 0)
  {
    CountUpdate(p, x, c, NoVertex);
  }

  /** The walked vertices are vertices, the first is vertex with child
      child, each next child is the partner of the vertex before, and each
      walked vertex lies outside the blossom base and is matched. */
  predicate WalkRecord(m: seq<int>, b: seq<int>, bb: nat, vertex: nat, child: nat,
                       walk: seq<nat>, kids: seq<nat>)
    requires |m| == |b|
  {
    && |walk| == |kids|
    && (forall k :: 0 <= k < |walk| ==> walk[k] < |m| && kids[k] < |m|)
    && (|walk| > 0 ==> walk[0] == vertex && kids[0] == child)
    && (forall k :: 0 <= k < |walk| - 1 ==> kids[k + 1] == m[walk[k]])
    && (forall k :: 0 <= k < |walk| ==> b[walk[k]] != bb && m[walk[k]] != NoVertex)
  }

  /** The parent links p0 after pointing each walked vertex at its child,
      in walk order. */
  function Rewire(p0: seq<int>, walk: seq<nat>, kids: seq<nat>): (p: seq<int>)
    requires |walk| == |kids| && forall k :: 0 <= k < |walk| ==> walk[k] < |p0|
    ensures |p| == |p0|
  {
    if walk == [] then p0
    else Rewire(p0, walk[..|walk| - 1], kids[..|kids| - 1])[walk[|walk| - 1] := kids[|kids| - 1]]
  }

  /** Each walked vertex after the first is the parent of the previous
      child, read after the earlier vertices were rewired. */
  predicate Chained(p0: seq<int>, walk: seq<nat>, kids: seq<nat>)
    requires |walk| == |kids| && forall k :: 0 <= k < |walk| ==> walk[k] < |p0| && kids[k] < |p0|
    decreases |walk|
  {
    |walk| > 1 ==>
      var walk', kids' := walk[..|walk| - 1], kids[..|kids| - 1];
      && Chained(p0, walk', kids')
      && walk[|walk| - 1] == Rewire(p0, walk', kids')[kids[|kids| - 1]]
  }

  /** The partners m and the bases b belong to the vertices of g. */
  predicate Frame(g: Graph, m: seq<int>, b: seq<int>) {
    |g| == |m| == |b| && Entries(m, |m|) && Bases(b, |m|)
  }

  /** What a blossom path walk has done so far: from parent links p0 and
      marks mk0 it reached p and mk by rewiring the vertices of walk to the
      children kids and marking their bases and their partners' bases,
      keeping the forest's shape. */
  predicate MarkedSoFar(g: Graph, m: seq<int>, b: seq<int>, p0: seq<int>, mk0: seq<bool>,
                        p: seq<int>, mk: seq<bool>, bb: nat, vertex: nat, child: nat,
                        walk: seq<nat>, kids: seq<nat>)
    requires Frame(g, m, b)
  {
    && |p0| == |mk0| == |m| && ForestKept(g, p0, p)
    && WalkRecord(m, b, bb, vertex, child, walk, kids)
    && Chained(p0, walk, kids)
    && p == Rewire(p0, walk, kids)
    && mk == Mark(mk0, m, b, walk)
  }

  /** The parent links p still have the forest's shape, with no more unset
      links than p0. */
  predicate ForestKept(g: Graph, p0: seq<int>, p: seq<int>) {
    ParentForest(g, p) && Count(p, NoVertex) <= Count(p0, NoVertex)
  }

  /** Where the walk stands: v is the next vertex to rewire and c its child. */
  predicate WalkAt(g: Graph, m: seq<int>, p: seq<int>, vertex: nat, child: nat,
                   walk: seq<nat>, v: nat, c: nat)
    requires |m| == |p| == |g| && forall k :: 0 <= k < |walk| ==> walk[k] < |g|
  {
    && v < |g| && c < |g| && v != c && Edge(g, v, c)
    && (walk == [] ==> v == vertex && c == child)
    && (walk != [] ==> c == m[walk[|walk| - 1]] && v == p[c])
  }

  lemma WalkRecordStep(m: seq<int>, b: seq<int>, bb: nat, vertex: nat, child: nat,
                       walk: seq<nat>, kids: seq<nat>, v: nat, c: nat)
    requires |m| == |b| && WalkRecord(m, b, bb, vertex, child, walk, kids)
    requires v < |m| && c < |m| && b[v] != bb && m[v] != NoVertex
    requires walk == [] ==> v == vertex && c == child
    requires walk != [] ==> c == m[walk[|walk| - 1]]
    ensures WalkRecord(m, b, bb, vertex, child, walk + [v], kids + [c])
  {
  }

  /** Rewiring one more vertex updates the last rewired links. */
  lemma RewireSnoc(p0: seq<int>, walk: seq<nat>, kids: seq<nat>, v: nat, c: nat)
    requires |walk| == |kids| && (forall k :: 0 <= k < |walk| ==> walk[k] < |p0|) && v < |p0|
    ensures Rewire(p0, walk + [v], kids + [c]) == Rewire(p0, walk, kids)[v := c]
  {
    assert (walk + [v])[..|walk|] == walk;
    assert (kids + [c])[..|kids|] == kids;
  }

  lemma ChainStep(p0: seq<int>, walk: seq<nat>, kids: seq<nat>, v: nat, c: nat)
    requires |walk| == |kids| && forall k :: 0 <= k < |walk| ==> walk[k] < |p0| && kids[k] < |p0|
    requires Chained(p0, walk, kids) && v < |p0| && c < |p0|
    requires walk != [] ==> v == Rewire(p0, walk, kids)[c]
    ensures Chained(p0, walk + [v], kids + [c])
  {
    assert (walk + [v])[..|walk|] == walk;
    assert (kids + [c])[..|kids|] == kids;
  }

  lemma MarksStep(m: seq<int>, b: seq<int>, mk0: seq<bool>, mk: seq<bool>, walk: seq<nat>, v: nat)
    requires |m| == |b| == |mk0| == |mk| && Entries(m, |m|) && Bases(b, |m|)
    requires (forall k :: 0 <= k < |walk| ==> walk[k] < |m|) && v < |m| && m[v] != NoVertex
    requires mk == Mark(mk0, m, b, walk)
    ensures mk[b[v] := true][b[m[v]] := true] == Mark(mk0, m, b, walk + [v])
  {
    assert (walk + [v])[..|walk|] == walk;
  }

  /** Before the first round nothing is walked, rewired or marked. */
  lemma MarkStart(g: Graph, m: seq<int>, b: seq<int>, p0: seq<int>, mk0: seq<bool>,
                  bb: nat, vertex: nat, child: nat)
    requires |g| == |m| == |b| == |mk0| && Entries(m, |m|) && Bases(b, |m|) && ParentForest(g, p0)
    ensures MarkedSoFar(g, m, b, p0, mk0, p0, mk0, bb, vertex, child, [], [])
  {
  }

  /** One round of the blossom path walk. */
  lemma MarkStep(g: Graph, m: seq<int>, b: seq<int>, p0: seq<int>, mk0: seq<bool>,
                 p: seq<int>, mk: seq<bool>, bb: nat, vertex: nat, child: nat,
                 walk: seq<nat>, kids: seq<nat>, v: nat, c: nat)
    requires Frame(g, m, b) && MarkedSoFar(g, m, b, p0, mk0, p, mk, bb, vertex, child, walk, kids)
    requires WalkAt(g, m, p, vertex, child, walk, v, c)
    requires b[v] != bb && m[v] != NoVertex
    ensures MarkedSoFar(g, m, b, p0, mk0, p[v := c], mk[b[v] := true][b[m[v]] := true],
                        bb, vertex, child, walk + [v], kids + [c])
    ensures var next := p[v := c][m[v]];
            next != NoVertex ==> WalkAt(g, m, p[v := c], vertex, child, walk + [v], next, m[v])
  {
    SetParent(g, p, v, c);
    WalkRecordStep(m, b, bb, vertex, child, walk, kids, v, c);
    RewireSnoc(p0, walk, kids, v, c);
    ChainStep(p0, walk, kids, v, c);
    MarksStep(m, b, mk0, mk, walk, v);
    var p', mk' := p[v := c], mk[b[v] := true][b[m[v]] := true];
    assert p' == Rewire(p0, walk + [v], kids + [c]);
    assert WalkRecord(m, b, bb, vertex, child, walk + [v], kids + [c]);
    assert Chained(p0, walk + [v], kids + [c]);
    assert ParentForest(g, p') && Count(p', NoVertex) <= Count(p0, NoVertex);
  }

  /** The walk from vertex has reached the blossom base bb: the next vertex
      it would visit (vertex itself, or the parent of the last walked
      vertex's partner) has base bb. */
  predicate Ended(m: seq<int>, b: seq<int>, p: seq<int>, bb: nat, vertex: nat, walk: seq<nat>)
    requires |m| == |b| == |p| && Entries(m, |m|) && vertex < |m|
    requires forall k :: 0 <= k < |walk| ==> walk[k] < |m|
  {
    var stop := if walk == [] then vertex
                else if m[walk[|walk| - 1]] == NoVertex then NoVertex
                else p[m[walk[|walk| - 1]]];
    0 <= stop < |b| && b[stop] == bb
  }

  /** The state of a blossom path walk: whether it may go on, the vertices
      rewired so far with the children they got, the parent links and the
      marks. */
  datatype MarkRun = MarkRun(ok: bool, walk: seq<nat>, kids: seq<nat>, parent: seq<int>, marks: seq<bool>)

  /** The blossom path walk (blossom_algorithm.py:22-26) from vertex v with
      child c, continuing run, for at most fuel more rounds: while the base
      of v is not bb, mark the bases of v and of its partner, point v at c,
      and move on to the parent of v's partner with that partner as child.
      The walk stops with ok false when it runs out of rounds or would
      follow a NoVertex link. */
  function MarkWalk(m: seq<int>, b: seq<int>, bb: nat, v: nat, c: nat, run: MarkRun, fuel: nat): MarkRun
    requires |m| == |b| == |run.parent| == |run.marks| && Entries(m, |m|) && Bases(b, |m|)
    requires Entries(run.parent, |m|) && v < |m| && c < |m|
    decreases fuel
  {
    if b[v] == bb then run
    else if fuel == 0 || m[v] == NoVertex then run.(ok := false)
    else
      var p := run.parent[v := c];
      var next := p[m[v]];
      var run' := MarkRun(true, run.walk + [v], run.kids + [c], p, run.marks[b[v] := true][b[m[v]] := true]);
      if next == NoVertex then run'.(ok := false)
      else MarkWalk(m, b, bb, next, m[v], run', fuel - 1)
  }

  /** Whatever the walk does from a state reached by walking, with result
      r, keeps the record of MarkedSoFar, and a walk that ends well ends at
      the blossom base. */
  lemma {:induction false} MarkWalkFacts(g: Graph, m: seq<int>, b: seq<int>, p0: seq<int>, mk0: seq<bool>,
                                         p: seq<int>, mk: seq<bool>, bb: nat, vertex: nat, child: nat,
                                         walk: seq<nat>, kids: seq<nat>, v: nat, c: nat, fuel: nat, r: MarkRun)
    requires Frame(g, m, b) && MarkedSoFar(g, m, b, p0, mk0, p, mk, bb, vertex, child, walk, kids)
    requires WalkAt(g, m, p, vertex, child, walk, v, c)
    requires r == MarkWalk(m, b, bb, v, c, MarkRun(true, walk, kids, p, mk), fuel)
    ensures MarkedSoFar(g, m, b, p0, mk0, r.parent, r.marks, bb, vertex, child, r.walk, r.kids)
    ensures r.ok ==> Ended(m, b, r.parent, bb, vertex, r.walk)
    decreases fuel, 1
  {
    if b[v] != bb && fuel != 0 && m[v] != NoVertex {
      MarkWalkRound(g, m, b, p0, mk0, p, mk, bb, vertex, child, walk, kids, v, c, fuel, r);
    }
  }

  /** One round of MarkWalk from a vertex outside the blossom base. */
  lemma MarkWalkUnfold(m: seq<int>, b: seq<int>, bb: nat, v: nat, c: nat, run: MarkRun, fuel: nat)
    requires |m| == |b| == |run.parent| == |run.marks| && Entries(m, |m|) && Bases(b, |m|)
    requires Entries(run.parent, |m|) && v < |m| && c < |m|
    requires b[v] != bb && fuel != 0 && m[v] != NoVertex
    ensures var p := run.parent[v := c];
            var run' := MarkRun(true, run.walk + [v], run.kids + [c], p, run.marks[b[v] := true][b[m[v]] := true]);
            MarkWalk(m, b, bb, v, c, run, fuel)
            == if p[m[v]] == NoVertex then run'.(ok := false) else MarkWalk(m, b, bb, p[m[v]], m[v], run', fuel - 1)
  {
  }

  /** The case of MarkWalkFacts where the walk takes one more round. */
  lemma {:induction false} MarkWalkRound(g: Graph, m: seq<int>, b: seq<int>, p0: seq<int>, mk0: seq<bool>,
                                         p: seq<int>, mk: seq<bool>, bb: nat, vertex: nat, child: nat,
                                         walk: seq<nat>, kids: seq<nat>, v: nat, c: nat, fuel: nat, r: MarkRun)
    requires Frame(g, m, b) && MarkedSoFar(g, m, b, p0, mk0, p, mk, bb, vertex, child, walk, kids)
    requires WalkAt(g, m, p, vertex, child, walk, v, c)
    requires b[v] != bb && fuel != 0 && m[v] != NoVertex
    requires r == MarkWalk(m, b, bb, v, c, MarkRun(true, walk, kids, p, mk), fuel)
    ensures MarkedSoFar(g, m, b, p0, mk0, r.parent, r.marks, bb, vertex, child, r.walk, r.kids)
    ensures r.ok ==> Ended(m, b, r.parent, bb, vertex, r.walk)
    decreases fuel, 0
  {
    var p', mk' := p[v := c], mk[b[v] := true][b[m[v]] := true];
    MarkStep(g, m, b, p0, mk0, p, mk, bb, vertex, child, walk, kids, v, c);
    var next := p'[m[v]];
    var run' := MarkRun(true, walk + [v], kids + [c], p', mk');
    MarkWalkUnfold(m, b, bb, v, c, MarkRun(true, walk, kids, p, mk), fuel);
    if next == NoVertex {
      assert r == run'.(ok := false);
    } else {
      assert r == MarkWalk(m, b, bb, next, m[v], run', fuel - 1);
      MarkWalkFacts(g, m, b, p0, mk0, p', mk', bb, vertex, child, walk + [v], kids + [c], next, m[v], fuel - 1, r);
    }
  }

  /** A whole walk from vertex with child child, from parent links p0 and
      marks mk0, that ended with ok, walk, kids, parent links p and marks
      mk, did what MarkedSoFar records and, when it ends well, ends at the
      blossom base bb. */
  lemma MarkWalkSound(g: Graph, m: seq<int>, b: seq<int>, p0: seq<int>, mk0: seq<bool>,
                      bb: nat, vertex: nat, child: nat,
                      ok: bool, walk: seq<nat>, kids: seq<nat>, p: seq<int>, mk: seq<bool>)
    requires |g| == |m| == |b| == |mk0| && Entries(m, |m|) && Bases(b, |m|) && ParentForest(g, p0)
    requires vertex < |g| && child < |g| && vertex != child && Edge(g, vertex, child)
    requires MarkWalk(m, b, bb, vertex, child, MarkRun(true, [], [], p0, mk0), |g|) == MarkRun(ok, walk, kids, p, mk)
    ensures MarkedSoFar(g, m, b, p0, mk0, p, mk, bb, vertex, child, walk, kids)
    ensures ok ==> Ended(m, b, p, bb, vertex, walk)
  {
    MarkStart(g, m, b, p0, mk0, bb, vertex, child);
    MarkWalkFacts(g, m, b, p0, mk0, p0, mk0, bb, vertex, child, [], [], vertex, child, |g|,
                  MarkRun(ok, walk, kids, p, mk));
  }

  /** Walk from vertex up to the blossom base (blossom_algorithm.py:20-26):
      mark the base of each walked vertex and of its partner, point the
      vertex's parent at the current child, and move on to the parent of the
      partner. Only parent and marked change, exactly as MarkWalk says. walk
      lists the rewired vertices and kids the children they were pointed
      at. */
  method MarkBlossomPath(ghost g: Graph, mate: array<int>, base: array<int>, marked: array<bool>,
                         parent: array<int>, vertex: nat, blossomBase: nat, child: nat)
    returns (ok: bool, ghost walk: seq<nat>, ghost kids: seq<nat>)
    requires mate.Length == base.Length == marked.Length == parent.Length == |g|
    requires parent != mate && parent != base
    requires Entries(mate[..], |g|) && Bases(base[..], |g|) && ParentForest(g, parent[..])
    requires vertex < |g| && child < |g| && blossomBase < |g|
    requires vertex != child && Edge(g, vertex, child)
    modifies parent, marked
    ensures MarkWalk(mate[..], base[..], blossomBase, vertex, child,
                     MarkRun(true, [], [], old(parent[..]), old(marked[..])), |g|)
            == MarkRun(ok, walk, kids, parent[..], marked[..])
  {
    var n := mate.Length;
    ghost var m, b, p0, mk0 := mate[..], base[..], parent[..], marked[..];
    ghost var final := MarkWalk(m, b, blossomBase, vertex, child, MarkRun(true, [], [], p0, mk0), n);
    ghost var p, mk := p0, mk0;
    var v: nat := vertex;
    var c: nat := child;
    var steps := 0;
    ok, walk, kids := true, [], [];
    while base[v] != blossomBase
      invariant 0 <= steps <= n && v < n && c < n
      invariant mate[..] == m && base[..] == b && parent[..] == p && marked[..] == mk
      invariant |p| == |mk| == n && Entries(p, n)
      invariant MarkWalk(m, b, blossomBase, v, c, MarkRun(true, walk, kids, p, mk), n - steps) == final
      decreases n - steps
    {
      var mv := mate[v];
      if steps == n || mv == NoVertex {
        ok := false;
        break;
      }
      marked[base[v]] := true;
      marked[base[mv]] := true;
      parent[v] := c;
      walk, kids, p, mk := walk + [v], kids + [c], p[v := c], mk[b[v] := true][b[mv] := true];
      assert parent[..] == p && marked[..] == mk;
      c := mv;
      var next := parent[mv];
      if next == NoVertex {
        ok := false;
        break;
      }
      v := next;
      steps := steps + 1;
    }
  }

  /** The vertices i < k that a contraction queues: not yet used, with a
      marked base, in index order. */
  function Joining(u: seq<bool>, mk: seq<bool>, b: seq<int>, k: nat): seq<nat>
    requires k <= |u| && Bases(b, |u|) && |mk| == |u|
  {
    if k == 0 then []
    else Joining(u, mk, b, k - 1) + (if !u[k - 1] && mk[b[k - 1]] then [k - 1] else [])
  }

  /** The bases after a contraction into curBase: every vertex whose base
      is marked takes curBase, the others keep theirs. */
  function Relabel(b: seq<int>, mk: seq<bool>, curBase: nat): (b': seq<int>)
    requires Bases(b, |mk|)
    ensures |b'| == |b|
  {
    seq(|b|, i requires 0 <= i < |b| => if mk[b[i]] then curBase else b[i])
  }

  /** The base of one vertex after a contraction. */
  lemma RelabelAt(b: seq<int>, mk: seq<bool>, curBase: nat, v: nat)
    requires Bases(b, |mk|) && v < |b|
    ensures Relabel(b, mk, curBase)[v] == if mk[b[v]] then curBase else b[v]
  {
  }

  /** The used flags after a contraction: a vertex is used when it was, or
      when its base is marked. */
  function Absorb(u: seq<bool>, mk: seq<bool>, b: seq<int>): (u': seq<bool>)
    requires |u| == |mk| && Bases(b, |mk|)
    ensures |u'| == |u|
  {
    seq(|u|, i requires 0 <= i < |u| => u[i] || mk[b[i]])
  }

  /** The relabelling loop has handled vertices 0 .. i - 1: from bases b0
      and used flags u0 it reached b and u, and queued Joining behind queue. */
  predicate ContractedUpTo(mk: seq<bool>, b0: seq<int>, u0: seq<bool>, b: seq<int>, u: seq<bool>,
                           curBase: nat, i: nat, queue: seq<nat>, q: seq<nat>)
  {
    && |u0| == |b| == |u| == |mk| && i <= |u0| && Bases(b0, |u0|) && curBase < |u0|
    && (forall j :: 0 <= j < i ==>
          b[j] == (if mk[b0[j]] then curBase else b0[j]) && u[j] == (u0[j] || mk[b0[j]]))
    && (forall j :: i <= j < |b| ==> b[j] == b0[j] && u[j] == u0[j])
    && q == queue + Joining(u0, mk, b0, i)
    && Count(u, false) + |q| == Count(u0, false) + |queue|
  }

  /** One round of the relabelling loop. */
  lemma ContractStep(mk: seq<bool>, b0: seq<int>, u0: seq<bool>, b: seq<int>, u: seq<bool>,
                     curBase: nat, i: nat, queue: seq<nat>, q: seq<nat>)
    requires ContractedUpTo(mk, b0, u0, b, u, curBase, i, queue, q) && i < |b|
    ensures mk[b[i]] && !u[i] ==>
              ContractedUpTo(mk, b0, u0, b[i := curBase], u[i := true], curBase, i + 1, queue, q + [i])
    ensures mk[b[i]] && u[i] ==>
              ContractedUpTo(mk, b0, u0, b[i := curBase], u, curBase, i + 1, queue, q)
    ensures !mk[b[i]] ==> ContractedUpTo(mk, b0, u0, b, u, curBase, i + 1, queue, q)
  {
    CountUpdate(u, i, true, false);
  }

  /** The relabelling loop of a blossom contraction
      (blossom_algorithm.py:79-84): every vertex whose base is marked moves
      into the blossom of curBase, and the ones not yet used are marked used
      and queued in index order. */
  method ContractBlossom(marked: array<bool>, base: array<int>, used: array<bool>, curBase: nat,
                         queue: seq<nat>)
    returns (queue': seq<nat>)
    requires marked.Length == base.Length == used.Length && curBase < base.Length
    requires marked != used && Bases(base[..], base.Length)
    requires forall k :: 0 <= k < |queue| ==> queue[k] < base.Length
    modifies base, used
    ensures Bases(base[..], base.Length)
    ensures base[..] == Relabel(old(base[..]), marked[..], curBase)
    ensures used[..] == Absorb(old(used[..]), marked[..], old(base[..]))
    ensures queue' == queue + Joining(old(used[..]), marked[..], old(base[..]), base.Length)
    ensures forall k :: 0 <= k < |queue'| ==> queue'[k] < base.Length
    ensures Count(used[..], false) + |queue'| == Count(old(used[..]), false) + |queue|
  {
    var n := base.Length;
    ghost var mk, b0, u0 := marked[..], base[..], used[..];
    ghost var b, u := b0, u0;
    queue' := queue;
    for i := 0 to n
      invariant base[..] == b && used[..] == u && marked[..] == mk
      invariant ContractedUpTo(mk, b0, u0, b, u, curBase, i, queue, queue')
    {
      ContractStep(mk, b0, u0, b, u, curBase, i, queue, queue');
      if marked[base[i]] {
        base[i] := curBase;
        b := b[i := curBase];
        if !used[i] {
          used[i] := true;
          u := u[i := true];
          queue' := queue' + [i];
        }
        assert base[..] == b && used[..] == u;
      }
    }
    ContractDone(mk, b0, u0, b, u, curBase, queue, queue');
  }

  /** After the last round the bases are relabelled, the used flags
      absorbed, and everything queued is a vertex. */
  lemma ContractDone(mk: seq<bool>, b0: seq<int>, u0: seq<bool>, b: seq<int>, u: seq<bool>,
                     curBase: nat, queue: seq<nat>, q: seq<nat>)
    requires ContractedUpTo(mk, b0, u0, b, u, curBase, |b|, queue, q)
    requires forall k :: 0 <= k < |queue| ==> queue[k] < |b|
    ensures Bases(b, |b|) && b == Relabel(b0, mk, curBase) && u == Absorb(u0, mk, b0)
    ensures forall k :: 0 <= k < |q| ==> q[k] < |b|
  {
    JoiningBelow(u0, mk, b0, |b|);
    forall k | |queue| <= k < |q| ensures q[k] < |b| {
      assert q[k] in Joining(u0, mk, b0, |b|);
    }
  }

  /** The start of a search from root (blossom_algorithm.py:31-36): every
      parent link unset, every vertex its own base, only root used and
      queued. */
  method StartSearch(parent: array<int>, root: nat) returns (base: array<int>, used: array<bool>, queue: seq<nat>)
    requires root < parent.Length
    modifies parent
    ensures fresh(base) && fresh(used) && base.Length == used.Length == parent.Length
    ensures forall x :: 0 <= x < parent.Length ==>
              parent[x] == NoVertex && base[x] == x && used[x] == (x == root)
    ensures queue == [root]
  {
    var n := parent.Length;
    used := new bool[n](_ => false);
    forall x | 0 <= x < n {
      parent[x] := NoVertex;
    }
    base := new int[n](x => x);
    used[root] := true;
    queue := [root];
  }

  /** Every vertex a contraction queues is below k. */
  lemma {:induction false} JoiningBelow(u: seq<bool>, mk: seq<bool>, b: seq<int>, k: nat)
    requires k <= |u| && Bases(b, |u|) && |mk| == |u|
    ensures forall x :: x in Joining(u, mk, b, k) ==> x < k
  {
    if k > 0 {
      JoiningBelow(u, mk, b, k - 1);
    }
  }

  /** What the blossom branch did on the edge u-w, recorded for the proof:
      the two walks of the lowest common ancestor, the first marking walk
      with the parent links and marks it left, the second marking walk, and
      the final marks. */
  datatype BlossomTrace = BlossomTrace(
    curBase: nat, pathA: seq<nat>, pathB: seq<nat>,
    walk1: seq<nat>, kids1: seq<nat>, parent1: seq<int>, marks1: seq<bool>,
    walk2: seq<nat>, kids2: seq<nat>, marks: seq<bool>)

  /** t is a run of the blossom branch on the edge u-w, from partners m,
      bases b and parent links p0 to parent links p: curBase is the first
      base on w's way up that u's way up passes; then the walk from u with
      child w and the walk from w with child u, over all-false marks, both
      end at the blossom base, leaving the marks t.marks. */
  predicate Traced(g: Graph, m: seq<int>, b: seq<int>, p0: seq<int>, p: seq<int>, u: nat, w: nat,
                   t: BlossomTrace)
    requires |g| == |m| == |b| == |p0| == |p| && Entries(m, |m|) && Entries(p0, |m|) && Bases(b, |m|)
    requires u < |m| && w < |m|
  {
    && t.curBase < |m|
    && LcaFound(m, b, p0, u, w, t.pathA, t.pathB, t.curBase)
    && MarkedSoFar(g, m, b, p0, seq(|m|, _ => false), t.parent1, t.marks1, t.curBase, u, w, t.walk1, t.kids1)
    && Ended(m, b, t.parent1, t.curBase, u, t.walk1)
    && MarkedSoFar(g, m, b, t.parent1, t.marks1, p, t.marks, t.curBase, w, u, t.walk2, t.kids2)
    && Ended(m, b, p, t.curBase, w, t.walk2)
  }

  /** c is the lowest common ancestor of u and w as FindLowestCommonAncestor
      finds it: u's ascent ends at an unmatched base, and c is the first
      base of w's ascent that u's ascent passes. */
  predicate LcaFound(m: seq<int>, b: seq<int>, p: seq<int>, u: nat, w: nat,
                     pathA: seq<nat>, pathB: seq<nat>, c: nat)
    requires |m| == |b| == |p| && Entries(m, |m|) && Entries(p, |m|) && Bases(b, |m|)
    requires u < |m| && w < |m|
  {
    && IsAscent(m, b, p, u, pathA) && m[pathA[|pathA| - 1]] == NoVertex
    && IsAscent(m, b, p, w, pathB) && pathB[|pathB| - 1] == c
    && c in pathA && (forall k :: 0 <= k < |pathB| - 1 ==> pathB[k] !in pathA)
  }

  /** The search for the lowest common ancestor of u and w got stuck: u's
      ascent stopped at a matched base after |V| rounds or at an unset
      parent link, or it ended well and w's ascent, meeting none of its
      bases, stopped after |V| rounds, at an unmatched base or at an unset
      parent link. */
  predicate LcaStuck(m: seq<int>, b: seq<int>, p: seq<int>, u: nat, w: nat, pathA: seq<nat>, pathB: seq<nat>)
    requires |m| == |b| == |p| && Entries(m, |m|) && Entries(p, |m|) && Bases(b, |m|)
    requires u < |m| && w < |m|
  {
    && IsAscent(m, b, p, u, pathA)
    && (m[pathA[|pathA| - 1]] != NoVertex ==>
          |pathA| == |m| || p[m[pathA[|pathA| - 1]]] == NoVertex)
    && (m[pathA[|pathA| - 1]] == NoVertex ==>
          && IsAscent(m, b, p, w, pathB)
          && (forall k :: 0 <= k < |pathB| ==> pathB[k] !in pathA)
          && (|pathB| == |m| || m[pathB[|pathB| - 1]] == NoVertex
              || p[m[pathB[|pathB| - 1]]] == NoVertex))
  }

  /** Why the blossom branch on the edge u-w gave up, by stage: 0, the
      lowest common ancestor search got stuck; 1, it found t.curBase but
      the marking walk from u with child w did not reach it; 2, that walk
      did, leaving t.parent1 and t.marks1, and the walk from w with child u
      did not. */
  predicate GaveUp(m: seq<int>, b: seq<int>, p0: seq<int>, u: nat, w: nat, t: BlossomTrace, stage: nat)
    requires |m| == |b| == |p0| && Entries(m, |m|) && Entries(p0, |m|) && Bases(b, |m|)
    requires u < |m| && w < |m|
  {
    if stage == 0 then LcaStuck(m, b, p0, u, w, t.pathA, t.pathB)
    else
      && t.curBase < |m| && LcaFound(m, b, p0, u, w, t.pathA, t.pathB, t.curBase)
      && var run1 := MarkWalk(m, b, t.curBase, u, w, MarkRun(true, [], [], p0, seq(|m|, _ => false)), |m|);
         if stage == 1 then !run1.ok
         else
           && stage == 2 && run1 == MarkRun(true, t.walk1, t.kids1, t.parent1, t.marks1)
           && |t.parent1| == |t.marks1| == |m| && Entries(t.parent1, |m|)
           && !MarkWalk(m, b, t.curBase, w, u, MarkRun(true, [], [], t.parent1, t.marks1), |m|).ok
  }

  /** The pieces of a blossom branch run make a trace of it. */
  lemma TracedIntro(g: Graph, m: seq<int>, b: seq<int>, p0: seq<int>, p1: seq<int>, p: seq<int>,
                    mk1: seq<bool>, mk: seq<bool>, u: nat, w: nat, curBase: nat,
                    pathA: seq<nat>, pathB: seq<nat>,
                    walk1: seq<nat>, kids1: seq<nat>, walk2: seq<nat>, kids2: seq<nat>)
    requires |g| == |m| == |b| == |p0| == |p| && Entries(m, |m|) && Entries(p0, |m|) && Bases(b, |m|)
    requires u < |m| && w < |m| && curBase < |m|
    requires LcaFound(m, b, p0, u, w, pathA, pathB, curBase)
    requires MarkedSoFar(g, m, b, p0, seq(|m|, _ => false), p1, mk1, curBase, u, w, walk1, kids1)
    requires Ended(m, b, p1, curBase, u, walk1)
    requires MarkedSoFar(g, m, b, p1, mk1, p, mk, curBase, w, u, walk2, kids2)
    requires Ended(m, b, p, curBase, w, walk2)
    ensures Traced(g, m, b, p0, p, u, w, BlossomTrace(curBase, pathA, pathB, walk1, kids1, p1, mk1, walk2, kids2, mk))
  {
  }

  /** Every walked vertex's base and its partner's base are touched. */
  lemma {:induction false} TouchedWalked(m: seq<int>, b: seq<int>, walk: seq<nat>)
    requires |m| == |b| && Entries(m, |m|) && Bases(b, |m|)
    requires forall k :: 0 <= k < |walk| ==> walk[k] < |m|
    ensures forall k :: 0 <= k < |walk| ==>
              b[walk[k]] in Touched(m, b, walk)
              && (m[walk[k]] != NoVertex ==> b[m[walk[k]]] in Touched(m, b, walk))
  {
    if walk != [] {
      var init := walk[..|walk| - 1];
      TouchedWalked(m, b, init);
      forall k | 0 <= k < |walk| - 1 ensures walk[k] == init[k] { }
    }
  }

  /** The blossom's marks are exactly the bases touched by the two marking
      walks, and the endpoints' bases are marked or are the blossom base. */
  lemma TracedMarks(g: Graph, m: seq<int>, b: seq<int>, p0: seq<int>, p: seq<int>, u: nat, w: nat,
                    t: BlossomTrace)
    requires |g| == |m| == |b| == |p0| == |p| && Entries(m, |m|) && Entries(p0, |m|) && Bases(b, |m|)
    requires u < |m| && w < |m|
    requires Traced(g, m, b, p0, p, u, w, t)
    ensures |t.marks| == |m|
    ensures forall x :: 0 <= x < |m| ==>
              (t.marks[x] <==> x in Touched(m, b, t.walk1) || x in Touched(m, b, t.walk2))
    ensures (t.marks[b[u]] || b[u] == t.curBase) && (t.marks[b[w]] || b[w] == t.curBase)
  {
    MarkTouched(seq(|m|, _ => false), m, b, t.walk1);
    MarkTouched(t.marks1, m, b, t.walk2);
    TouchedWalked(m, b, t.walk1);
    TouchedWalked(m, b, t.walk2);
  }

  /** The marking half of the blossom branch (blossom_algorithm.py:57-76):
      with curBase the lowest common ancestor of u and w, mark the bases
      from u up to curBase and then from w up to curBase, rewiring parent
      links on the way. Changes only parent. */
  method MarkSides(ghost g: Graph, mate: array<int>, parent: array<int>, base: array<int>, u: nat, w: nat,
                   curBase: nat, ghost pathA: seq<nat>, ghost pathB: seq<nat>)
    returns (ok: bool, marked: array<bool>, ghost t: BlossomTrace, ghost stage: nat)
    requires mate.Length == parent.Length == base.Length == |g|
    requires parent != mate && parent != base
    requires Entries(mate[..], |g|) && Bases(base[..], |g|) && ParentForest(g, parent[..])
    requires u < |g| && w < |g| && u != w && Edge(g, u, w) && curBase < |g|
    requires LcaFound(mate[..], base[..], parent[..], u, w, pathA, pathB, curBase)
    modifies parent
    ensures fresh(marked) && marked.Length == |g|
    ensures ParentForest(g, parent[..]) && Count(parent[..], NoVertex) <= old(Count(parent[..], NoVertex))
    ensures ok ==> && Traced(g, mate[..], base[..], old(parent[..]), parent[..], u, w, t)
                   && curBase == t.curBase && marked[..] == t.marks
    ensures ok ==> && (t.marks[base[u]] || base[u] == curBase)
                   && (t.marks[base[w]] || base[w] == curBase)
    ensures !ok ==> GaveUp(mate[..], base[..], old(parent[..]), u, w, t, stage)
  {
    var n := mate.Length;
    ghost var m, b, p0 := mate[..], base[..], parent[..];
    marked := new bool[n](_ => false);
    ghost var mk0 := marked[..];
    assert mk0 == seq(n, _ => false);
    t := BlossomTrace(curBase, pathA, pathB, [], [], [], [], [], [], []);
    var ok1, walk1, kids1 := MarkBlossomPath(g, mate, base, marked, parent, u, curBase, w);
    ghost var p1, mk1 := parent[..], marked[..];
    MarkWalkSound(g, m, b, p0, mk0, curBase, u, w, ok1, walk1, kids1, p1, mk1);
    if !ok1 {
      assert mate[..] == m && base[..] == b;
      return false, marked, t, 1;
    }
    t := t.(walk1 := walk1, kids1 := kids1, parent1 := p1, marks1 := mk1);
    var ok2, walk2, kids2 := MarkBlossomPath(g, mate, base, marked, parent, w, curBase, u);
    ghost var p2, mk2 := parent[..], marked[..];
    MarkWalkSound(g, m, b, p1, mk1, curBase, w, u, ok2, walk2, kids2, p2, mk2);
    if !ok2 {
      assert mate[..] == m && base[..] == b;
      return false, marked, t, 2;
    }
    TracedIntro(g, m, b, p0, p1, p2, mk1, mk2, u, w, curBase, pathA, pathB, walk1, kids1, walk2, kids2);
    t := BlossomTrace(curBase, pathA, pathB, walk1, kids1, p1, mk1, walk2, kids2, mk2);
    TracedMarks(g, m, b, p0, p2, u, w, t);
    assert mate[..] == m && base[..] == b && parent[..] == p2;
    ok, stage := true, 0;
  }

  /** The first half of the blossom branch (blossom_algorithm.py:54-76):
      the edge u-w closes an odd cycle; find its base curBase and rewire and
      mark the bases on both sides. Changes only parent. */
  method MarkBlossom(ghost g: Graph, mate: array<int>, parent: array<int>, base: array<int>, u: nat, w: nat)
    returns (ok: bool, curBase: nat, marked: array<bool>, ghost t: BlossomTrace, ghost stage: nat)
    requires mate.Length == parent.Length == base.Length == |g|
    requires parent != mate && parent != base
    requires Entries(mate[..], |g|) && Bases(base[..], |g|) && ParentForest(g, parent[..])
    requires u < |g| && w < |g| && u != w && Edge(g, u, w)
    modifies parent
    ensures fresh(marked) && marked.Length == |g| && curBase < |g|
    ensures ParentForest(g, parent[..]) && Count(parent[..], NoVertex) <= old(Count(parent[..], NoVertex))
    ensures ok ==> && Traced(g, mate[..], base[..], old(parent[..]), parent[..], u, w, t)
                   && curBase == t.curBase && marked[..] == t.marks
    ensures ok ==> && (t.marks[base[u]] || base[u] == curBase)
                   && (t.marks[base[w]] || base[w] == curBase)
    ensures !ok ==> GaveUp(mate[..], base[..], old(parent[..]), u, w, t, stage)
  {
    ghost var m, b, p0 := mate[..], base[..], parent[..];
    var lca, pathA, pathB := FindLowestCommonAncestor(mate, base, parent, u, w);
    assert mate[..] == m && base[..] == b && parent[..] == p0;
    if lca.Stuck? {
      marked := new bool[mate.Length](_ => false);
      t := BlossomTrace(0, pathA, pathB, [], [], [], [], [], [], []);
      return false, 0, marked, t, 0;
    }
    curBase := lca.value;
    ok, marked, t, stage := MarkSides(g, mate, parent, base, u, w, curBase, pathA, pathB);
  }

  /** The blossom branch of the search (blossom_algorithm.py:48-84): mark
      the blossom on the edge u-w, then contract it. On success every vertex
      whose base was marked moves to the blossom base, becomes used and, if
      it was not used before, is queued; u and w end up in the blossom
      base. If a walk got stuck, base, used and the queue are unchanged. */
  method ContractAt(ghost g: Graph, mate: array<int>, parent: array<int>, base: array<int>,
                    used: array<bool>, u: nat, w: nat, queue: seq<nat>)
    returns (ok: bool, queue': seq<nat>, ghost t: BlossomTrace, ghost stage: nat)
    requires mate.Length == parent.Length == base.Length == used.Length == |g|
    requires parent != mate && parent != base
    requires Entries(mate[..], |g|) && Bases(base[..], |g|) && ParentForest(g, parent[..])
    requires u < |g| && w < |g| && u != w && Edge(g, u, w)
    requires forall k :: 0 <= k < |queue| ==> queue[k] < |g|
    modifies parent, base, used
    ensures Bases(base[..], |g|) && ParentForest(g, parent[..])
    ensures Count(parent[..], NoVertex) <= old(Count(parent[..], NoVertex))
    ensures Count(used[..], false) + |queue'| == old(Count(used[..], false)) + |queue|
    ensures forall k :: 0 <= k < |queue'| ==> queue'[k] < |g|
    ensures !ok ==> base[..] == old(base[..]) && used[..] == old(used[..]) && queue' == queue
    ensures ok ==> Traced(g, mate[..], old(base[..]), old(parent[..]), parent[..], u, w, t)
    ensures ok ==> |t.marks| == |g| && base[..] == Relabel(old(base[..]), t.marks, t.curBase)
                   && used[..] == Absorb(old(used[..]), t.marks, old(base[..]))
    ensures ok ==> queue' == queue + Joining(old(used[..]), t.marks, old(base[..]), |g|)
    ensures ok ==> base[u] == t.curBase && base[w] == t.curBase
    ensures !ok ==> GaveUp(mate[..], base[..], old(parent[..]), u, w, t, stage)
  {
    ghost var m, b0, p0, u0 := mate[..], base[..], parent[..], used[..];
    var curBase, marked;
    ok, curBase, marked, t, stage := MarkBlossom(g, mate, parent, base, u, w);
    if !ok {
      return false, queue, t, stage;
    }
    ghost var p1 := parent[..];
    assert base[..] == b0;
    queue' := ContractBlossom(marked, base, used, curBase, queue);
    assert parent[..] == p1 && mate[..] == m && marked[..] == t.marks;
    RelabelAt(b0, t.marks, curBase, u);
    RelabelAt(b0, t.marks, curBase, w);
  }

  /** The tree-growing branch of the search (blossom_algorithm.py:85-91):
      the unparented neighbour w of u gets u as its parent; if w is unmatched
      the search has found the end of an augmenting path, and otherwise w's
      partner becomes used and joins the queue. */
  method GrowTree(ghost g: Graph, mate: array<int>, parent: array<int>, used: array<bool>,
                  u: nat, w: nat, queue: seq<nat>) returns (found: bool, queue': seq<nat>)
    requires mate.Length == parent.Length == used.Length == |g| && mate != parent
    requires Entries(mate[..], |g|) && ParentForest(g, parent[..])
    requires u < |g| && w < |g| && u != w && w in g[u] && parent[w] == NoVertex
    requires forall k :: 0 <= k < |queue| ==> queue[k] < |g|
    modifies parent, used
    ensures parent[..] == old(parent[..])[w := u] && ParentForest(g, parent[..])
    ensures Count(parent[..], NoVertex) == old(Count(parent[..], NoVertex)) - 1
    ensures found <==> mate[w] == NoVertex
    ensures found ==> used[..] == old(used[..]) && queue' == queue
    ensures !found ==> used[..] == old(used[..])[mate[w] := true] && queue' == queue + [mate[w]]
    ensures Count(used[..], false) + |queue'| <= old(Count(used[..], false)) + |queue| + 1
    ensures forall k :: 0 <= k < |queue'| ==> queue'[k] < |g|
  {
    SetParent(g, parent[..], w, u);
    parent[w] := u;
    if mate[w] == NoVertex {
      return true, queue;
    }
    var x: nat := mate[w];
    CountUpdate(used[..], x, true, false);
    used[x] := true;
    return false, queue + [x];
  }

  /** One search from root (blossom_algorithm.py:29-92): a breadth-first
      search over the alternating forest that contracts blossoms as it meets
      them. It reads mate and rewrites only parent. A vertex it reports is an
      unmatched neighbour of its parent, other than root. */
  method FindAugmentingPath(g: Graph, mate: array<int>, parent: array<int>, root: nat)
    returns (r: SearchResult)
    requires ValidGraph(g) && mate.Length == parent.Length == |g| && root < |g|
    requires mate != parent && Entries(mate[..], |g|)
    modifies parent
    ensures ParentForest(g, parent[..])
    ensures r.Found? ==> && r.endpoint < |g| && r.endpoint != root
                         && mate[r.endpoint] == NoVertex && parent[r.endpoint] != NoVertex
                         && r.endpoint in g[parent[r.endpoint]]
  {
    var n := mate.Length;
    var base: array<int>, used: array<bool>, queue: seq<nat> := StartSearch(parent, root);
    while queue != []
      invariant base.Length == used.Length == n && fresh(base) && fresh(used)
      invariant Bases(base[..], n) && ParentForest(g, parent[..])
      invariant forall k :: 0 <= k < |queue| ==> queue[k] < n
      decreases Count(parent[..], NoVertex) + Count(used[..], false) + |queue|
    {
      ghost var measure := Count(parent[..], NoVertex) + Count(used[..], false) + |queue|;
      var u: nat := queue[0];
      queue := queue[1..];
      for j := 0 to |g[u]|
        invariant Bases(base[..], n) && ParentForest(g, parent[..])
        invariant forall k :: 0 <= k < |queue| ==> queue[k] < n
        invariant Count(parent[..], NoVertex) + Count(used[..], false) + |queue| < measure
      {
        var w := g[u][j];
        if base[u] == base[w] || mate[u] == w {
          continue;
        }
        if w == root || (mate[w] != NoVertex && parent[mate[w]] != NoVertex) {
          var ok;
          ghost var trace, stage;
          ok, queue, trace, stage := ContractAt(g, mate, parent, base, used, u, w, queue);
          if !ok {
            return Blocked;
          }
        } else if parent[w] == NoVertex {
          var found;
          found, queue := GrowTree(g, mate, parent, used, u, w, queue);
          if found {
            return Found(w);
          }
        }
      }
    }
    return Exhausted;
  }

  /** Before the first flip, a matching with x unmatched is a matching
      except at x. */
  lemma StartFlip(g: Graph, m: seq<int>, x: nat)
    requires IsMatching(g, m) && x < |m| && m[x] == NoVertex
    ensures MatchingExcept(g, m, x)
  {
  }

  /** One flip along the parent chain (blossom_algorithm.py:104-108): x
      takes its parent p as partner and p takes x; p's former partner is
      the vertex left dangling next. Matched vertices stay matched, and the
      number of unmatched vertices drops by one for x and one for p's old
      partner slot when they were unmatched. */
  lemma FlipStep(g: Graph, m: seq<int>, x: nat, p: nat)
    requires MatchingExcept(g, m, x) && x < |m| && p < |m| && p != x && Edge(g, x, p)
    ensures MatchingExcept(g, m[x := p][p := x], m[p])
    ensures m[p] != NoVertex ==> m[p] != x && m[x := p][p := x][m[p]] == p
    ensures Count(m[x := p][p := x], NoVertex)
         == Count(m, NoVertex) - (if m[x] == NoVertex then 1 else 0) - (if m[p] == NoVertex then 1 else 0)
  {
    var m' := m[x := p][p := x];
    var q := m[p];
    forall v | 0 <= v < |m'| && v != q && m'[v] != NoVertex
      ensures m'[v] != v && m'[v] != q && m'[m'[v]] == v && Edge(g, v, m'[v])
    {
      if v == x {
        assert m'[v] == p;
      } else if v == p {
        assert m'[v] == x;
      } else {
        assert m'[v] == m[v] && m[v] != p;
        if q != NoVertex {
          assert m[q] == p;
        }
      }
    }
    CountUpdate(m, x, p, NoVertex);
    CountUpdate(m[x := p], p, x, NoVertex);
  }

  /** Where the flip loop stands: starting from the matching m0 with w
      unmatched, it reached m, which is a matching except at x; before the
      first round nothing has changed, afterwards w is matched; while x is a
      vertex one or two more vertices are unmatched than at the end, which
      has two fewer than m0; and no vertex matched in m0 has lost its
      partner. */
  predicate Flipping(g: Graph, m0: seq<int>, par: seq<int>, w: nat, m: seq<int>, x: int, started: bool) {
    && |m0| == |m| == |par| == |g| && w < |g| && -1 <= x < |g|
    && FlipPairs(m0, m, par)
    && MatchingExcept(g, m, x)
    && (!started ==> x == w && m == m0)
    && (started ==> m[w] != NoVertex)
    && (x != NoVertex ==> Count(m, NoVertex) == Count(m0, NoVertex) - 1 + (if m[x] == NoVertex then 1 else 0))
    && (x == NoVertex ==> Count(m, NoVertex) == Count(m0, NoVertex) - 2)
    && (forall v :: 0 <= v < |m| && m0[v] != NoVertex ==> m[v] != NoVertex)
  }

  /** Every partner that changed from m0 to m is a parent link: the
      vertex's own parent, or a vertex whose parent it is. */
  predicate FlipPairs(m0: seq<int>, m: seq<int>, par: seq<int>)
    requires |m0| == |m| == |par|
  {
    forall v :: 0 <= v < |m| && m[v] != m0[v] ==> 0 <= m[v] < |par| && (m[v] == par[v] || par[m[v]] == v)
  }

  /** One round of the flip loop: pair x with its parent p and move on to
      p's former partner. */
  lemma FlipRound(g: Graph, m0: seq<int>, par: seq<int>, w: nat, m: seq<int>, x: nat, p: nat, started: bool)
    requires Flipping(g, m0, par, w, m, x, started) && x < |m| && p == par[x] && p < |m| && p != x && Edge(g, x, p)
    ensures Flipping(g, m0, par, w, m[x := p][p := x], m[p], true)
  {
    FlipStep(g, m, x, p);
  }

  /** Where a run of the flip loop ended: the partners it left, the vertex
      it stopped at (NoVertex when it completed) and the rounds it took. */
  datatype FlipEnd = FlipEnd(mate: seq<int>, stop: int, rounds: nat)

  /** The flip loop from vertex x over partners m and parent links par,
      after done rounds, for at most fuel more: pair x with its parent and
      move on to the parent's former partner, until that is NoVertex. The
      run stops early at x when no round is left or x's parent link is
      unset. */
  function FlipRun(m: seq<int>, par: seq<int>, x: int, fuel: nat, done: nat): FlipEnd
    requires |par| == |m| && Entries(m, |m|) && Entries(par, |m|) && -1 <= x < |m|
    decreases fuel
  {
    if x == NoVertex then FlipEnd(m, NoVertex, done)
    else if fuel == 0 || par[x] == NoVertex then FlipEnd(m, x, done)
    else
      var p := par[x];
      FlipRun(m[x := p][p := x], par, m[p], fuel - 1, done + 1)
  }

  /** A flip run that does not complete stops at a vertex, either after
      all its rounds or at an unset parent link. */
  lemma {:induction false} FlipRunStop(m: seq<int>, par: seq<int>, x: int, fuel: nat, done: nat)
    requires |par| == |m| && Entries(m, |m|) && Entries(par, |m|) && -1 <= x < |m|
    ensures var r := FlipRun(m, par, x, fuel, done);
            && done <= r.rounds <= done + fuel && |r.mate| == |m|
            && (r.stop != NoVertex ==> 0 <= r.stop < |m| && (r.rounds == done + fuel || par[r.stop] == NoVertex))
    decreases fuel
  {
    if x != NoVertex && fuel != 0 && par[x] != NoVertex {
      var p := par[x];
      FlipRunStop(m[x := p][p := x], par, m[p], fuel - 1, done + 1);
    }
  }

  /** The flip loop starts at the unmatched endpoint w with m0 unchanged. */
  lemma FlipStart(g: Graph, m0: seq<int>, par: seq<int>, w: nat)
    requires IsMatching(g, m0) && |par| == |g| && w < |g| && m0[w] == NoVertex
    ensures Flipping(g, m0, par, w, m0, w, false)
  {
    StartFlip(g, m0, w);
  }

  /** A run that takes a round continues from the parent's former partner. */
  lemma FlipRunNext(m: seq<int>, par: seq<int>, x: nat, fuel: nat, done: nat)
    requires |par| == |m| && Entries(m, |m|) && Entries(par, |m|) && x < |m|
    requires fuel != 0 && par[x] != NoVertex
    ensures FlipRun(m, par, x, fuel, done) == FlipRun(m[x := par[x]][par[x] := x], par, m[par[x]], fuel - 1, done + 1)
  {
  }

  /** A run with nowhere to go ends where it is. */
  lemma FlipRunStops(m: seq<int>, par: seq<int>, x: int, fuel: nat, done: nat)
    requires |par| == |m| && Entries(m, |m|) && Entries(par, |m|) && -1 <= x < |m|
    requires x == NoVertex || fuel == 0 || par[x] == NoVertex
    ensures FlipRun(m, par, x, fuel, done) == FlipEnd(m, x, done)
  {
  }

  /** A flip run r from a state the flip loop can reach, that has started
      or is about to take its first round, ends in a state the flip loop
      reaches after its first round: a matching except at the stop vertex,
      with the counts and partners that `Flipping` records. */
  lemma {:induction false} FlipRunFacts(g: Graph, m0: seq<int>, par: seq<int>, w: nat, m: seq<int>, x: int,
                                        fuel: nat, done: nat, r: FlipEnd, started: bool)
    requires ParentForest(g, par) && Flipping(g, m0, par, w, m, x, started)
    requires started || (x != NoVertex && fuel != 0 && par[x] != NoVertex)
    requires r == FlipRun(m, par, x, fuel, done)
    ensures Flipping(g, m0, par, w, r.mate, r.stop, true)
    decreases fuel
  {
    if x != NoVertex && fuel != 0 && par[x] != NoVertex {
      var p := par[x];
      FlipRound(g, m0, par, w, m, x, p, started);
      FlipRunFacts(g, m0, par, w, m[x := p][p := x], m[p], fuel - 1, done + 1, r, true);
    }
  }

  /** What a state r the flip loop can reach says once the loop stops
      there: every entry is a vertex or NoVertex, no vertex of m0 lost its
      partner, only parent links were written, and when the stop vertex is
      NoVertex the partners form a matching with w matched and two fewer
      unmatched vertices. */
  lemma FlipEndFacts(g: Graph, m0: seq<int>, par: seq<int>, w: nat, r: FlipEnd, started: bool)
    requires Flipping(g, m0, par, w, r.mate, r.stop, started)
    ensures && |r.mate| == |g| && Entries(r.mate, |g|)
            && (forall v :: 0 <= v < |g| && m0[v] != NoVertex ==> r.mate[v] != NoVertex)
            && FlipPairs(m0, r.mate, par)
            && (r.stop == NoVertex ==>
                  IsMatching(g, r.mate) && r.mate[w] != NoVertex &&
                  Count(r.mate, NoVertex) == Count(m0, NoVertex) - 2)
  {
  }

  /** What the flip loop does from the unmatched endpoint w of a matching
      m0 along parent links par, for |V| rounds: it keeps every entry a
      vertex or NoVertex, unmatches no vertex, writes only parent links as
      partners; when it completes it leaves a matching with w matched and
      two fewer unmatched vertices, and otherwise it stopped after |V|
      rounds or at an unset parent link. */
  lemma FlipRunSound(g: Graph, m0: seq<int>, par: seq<int>, w: nat)
    requires IsMatching(g, m0) && ParentForest(g, par) && w < |g| && m0[w] == NoVertex
    ensures var r := FlipRun(m0, par, w, |g|, 0);
            && |r.mate| == |g| && Entries(r.mate, |g|)
            && (forall v :: 0 <= v < |g| && m0[v] != NoVertex ==> r.mate[v] != NoVertex)
            && FlipPairs(m0, r.mate, par)
            && (r.stop == NoVertex ==>
                  IsMatching(g, r.mate) && r.mate[w] != NoVertex &&
                  Count(r.mate, NoVertex) == Count(m0, NoVertex) - 2)
            && (r.stop != NoVertex ==> 0 <= r.stop < |g| && (r.rounds == |g| || par[r.stop] == NoVertex))
  {
    var r := FlipRun(m0, par, w, |g|, 0);
    FlipRunStop(m0, par, w, |g|, 0);
    if par[w] == NoVertex {
      FlipStart(g, m0, par, w);
      FlipRunStops(m0, par, w, |g|, 0);
      FlipEndFacts(g, m0, par, w, FlipEnd(m0, w, 0), false);
    } else {
      FlipStart(g, m0, par, w);
      FlipRunFacts(g, m0, par, w, m0, w, |g|, 0, r, false);
      FlipEndFacts(g, m0, par, w, r, true);
    }
  }

  /** The flip loop of the driver (blossom_algorithm.py:103-108): from the
      unmatched endpoint w, pair each vertex with its parent and move on to
      the parent's former partner until that is NoVertex. What it does is
      exactly the run `FlipRun`; when that run completes the result is a
      matching again with exactly two fewer unmatched vertices, w among the
      newly matched, and no vertex loses its partner in any case. */
  method Augment(g: Graph, mate: array<int>, parent: array<int>, w: nat)
    returns (ok: bool, ghost stop: int, ghost rounds: nat)
    requires mate.Length == parent.Length == |g| && mate != parent
    requires IsMatching(g, mate[..]) && ParentForest(g, parent[..])
    requires w < |g| && mate[w] == NoVertex
    modifies mate
    ensures Entries(mate[..], |g|)
    ensures forall v :: 0 <= v < |g| && old(mate[v]) != NoVertex ==> mate[v] != NoVertex
    ensures FlipEnd(mate[..], stop, rounds) == FlipRun(old(mate[..]), parent[..], w, |g|, 0)
    ensures ok <==> stop == NoVertex
    ensures FlipPairs(old(mate[..]), mate[..], parent[..])
    ensures ok ==> && IsMatching(g, mate[..]) && mate[w] != NoVertex
                   && Count(mate[..], NoVertex) == Count(old(mate[..]), NoVertex) - 2
    ensures !ok ==> 0 <= stop < |g| && (rounds == |g| || parent[stop] == NoVertex)
  {
    var n := mate.Length;
    ghost var m0 := mate[..];
    ghost var par := parent[..];
    ghost var total := FlipRun(m0, par, w, n, 0);
    ghost var cur := m0;
    var x: int := w;
    var steps := 0;
    while x != NoVertex
      invariant 0 <= steps <= n && parent[..] == par && -1 <= x < n
      invariant mate[..] == cur && Entries(cur, n)
      invariant FlipRun(cur, par, x, n - steps, steps) == total
      decreases n - steps
    {
      if steps == n || parent[x] == NoVertex {
        break;
      }
      var p := parent[x];
      var q := mate[p];
      FlipRunNext(cur, par, x, n - steps, steps);
      mate[x] := p;
      mate[p] := x;
      cur := cur[x := p][p := x];
      assert mate[..] == cur;
      x := q;
      steps := steps + 1;
    }
    FlipRunStops(cur, par, x, n - steps, steps);
    FlipRunSound(g, m0, par, w);
    ok, stop, rounds := x == NoVertex, x, steps;
  }

  /** The driver (blossom_algorithm.py:95-109): one search from every vertex
      still unmatched when its turn comes, in index order, in a single pass,
      each found path flipped once. The result is a matching of g along its
      edges, with every augmentation matching two more vertices. */
  method MaxMatching(g: Graph) returns (r: Outcome<seq<int>>, ghost augmentations: nat)
    requires ValidGraph(g)
    ensures r.Done? ==> IsMatching(g, r.value) && Count(r.value, NoVertex) == |g| - 2 * augmentations
  {
    var n := |g|;
    var mate := new int[n](_ => NoVertex);
    var parent := new int[n](_ => 0);
    CountAll(mate[..], NoVertex);
    augmentations := 0;
    for v := 0 to n
      invariant IsMatching(g, mate[..]) && Count(mate[..], NoVertex) == n - 2 * augmentations
    {
      if mate[v] == NoVertex {
        var found := FindAugmentingPath(g, mate, parent, v);
        if found.Blocked? {
          return Stuck, augmentations;
        }
        if found.Found? {
          var ok, _, _ := Augment(g, mate, parent, found.endpoint);
          if !ok {
            return Stuck, augmentations;
          }
          augmentations := augmentations + 1;
        }
      }
    }
    return Done(mate[..]), augmentations;
  }
}
