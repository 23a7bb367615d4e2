/** Reachability along the edges of a graph of names. */
module Trails {

  type Edges = (string, string) -> bool

  /** path leads from one of the starts to x. */
  ghost predicate IsTrail(edge: Edges, starts: set<string>, path: seq<string>, x: string) {
    && path != [] && path[0] in starts && path[|path| - 1] == x
    && forall i | 0 <= i < |path| - 1 :: edge(path[i], path[i + 1])
  }

  ghost predicate Reachable(edge: Edges, starts: set<string>, x: string) {
    exists path :: IsTrail(edge, starts, path, x)
  }

  lemma ReachStart(edge: Edges, starts: set<string>, x: string)
    requires x in starts
    ensures Reachable(edge, starts, x)
  {
    assert IsTrail(edge, starts, [x], x);
  }

  lemma ReachNext(edge: Edges, starts: set<string>, x: string, y: string)
    requires Reachable(edge, starts, x) && edge(x, y)
    ensures Reachable(edge, starts, y)
  {
    var path :| IsTrail(edge, starts, path, x);
    assert IsTrail(edge, starts, path + [y], y);
  }

  /** A set that holds the starts and is closed under the edges holds everything reachable. */
  lemma ClosedHoldsAll(edge: Edges, starts: set<string>, s: set<string>, x: string)
    requires Reachable(edge, starts, x) && starts <= s
    requires forall y, z | y in s && edge(y, z) :: z in s
    ensures x in s
  {
    var path :| IsTrail(edge, starts, path, x);
    TrailStays(edge, starts, s, path, |path| - 1);
  }

  lemma {:induction false} TrailStays(edge: Edges, starts: set<string>, s: set<string>, path: seq<string>, k: nat)
    requires k < |path| && IsTrail(edge, starts, path, path[|path| - 1]) && starts <= s
    requires forall y, z | y in s && edge(y, z) :: z in s
    ensures path[k] in s
  {
    if k == 0 {
    } else {
      TrailStays(edge, starts, s, path, k - 1);
      assert edge(path[k - 1], path[k - 1 + 1]);
    }
  }
}
