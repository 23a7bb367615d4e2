/** What a compose start order is (internal/compose/graph.go), the greedy order that
    always takes the least ready service, and why it is the least of all start orders. */
module StartOrder {
  import opened Options
  import opened StringOrder
  import opened StringSeqs

  /** Service name to its depends_on list. */
  type Services = map<string, seq<string>>

  /** Every service exactly once, each after everything it depends on. */
  ghost predicate IsStartOrder(services: Services, order: seq<string>) {
    && Elems(order) == services.Keys && |order| == |services|
    && forall i | 0 <= i < |order| :: order[i] in services && DependsWithin(services, order[i], Elems(order[..i]))
  }

  predicate DependsWithin(services: Services, x: string, done: set<string>)
    requires x in services
  {
    forall i | 0 <= i < |services[x]| :: services[x][i] in done
  }

  ghost function Ready(services: Services, done: set<string>): set<string> {
    set x | x in services && x !in done && DependsWithin(services, x, done)
  }

  /** Each service is the least of those ready when it is taken. */
  ghost predicate IsGreedy(services: Services, order: seq<string>) {
    forall i | 0 <= i < |order| :: IsLeast(order[i], Ready(services, Elems(order[..i])))
  }

  ghost predicate IsStuck(services: Services, order: seq<string>) {
    IsGreedy(services, order) && Ready(services, Elems(order)) == {}
  }

  // ----- Cycles

  /** A closed walk along depends_on edges. */
  ghost predicate IsCycle(services: Services, c: seq<string>) {
    && |c| >= 2 && c[0] == c[|c| - 1]
    && forall i | 0 <= i < |c| - 1 :: c[i] in services && c[i + 1] in services[c[i]]
  }

  ghost predicate HasCycle(services: Services) { exists c :: IsCycle(services, c) }

  /** Every dependency is itself a service (validate in parser.go refuses anything else). */
  ghost predicate AllKnown(services: Services) {
    forall x, i | x in services && 0 <= i < |services[x]| :: services[x][i] in services
  }

  // ----- A stuck greedy order

  lemma GreedyTakesServices(services: Services, order: seq<string>)
    requires IsGreedy(services, order)
    ensures Distinct(order) && Elems(order) <= services.Keys && |order| <= |services|
    ensures |order| == |services| <==> Elems(order) == services.Keys
  {
    assert Elems(order) <= services.Keys by {
      forall x | x in order ensures x in services {
        var i :| 0 <= i < |order| && order[i] == x;
        assert IsLeast(order[i], Ready(services, Elems(order[..i])));
      }
    }
    forall i, j | 0 <= i < j < |order| ensures order[i] != order[j] {
      assert IsLeast(order[j], Ready(services, Elems(order[..j])));
      assert order[..j][i] in Elems(order[..j]);
    }
    DistinctCount(order);
    Smaller(Elems(order), services.Keys);
    if |order| == |services| {
      assert services.Keys == Elems(order) + (services.Keys - Elems(order));
    }
  }

  lemma CompleteGreedyStarts(services: Services, order: seq<string>)
    requires IsGreedy(services, order) && |order| == |services|
    ensures IsStartOrder(services, order)
  {
    GreedyTakesServices(services, order);
    forall i | 0 <= i < |order| ensures order[i] in services && DependsWithin(services, order[i], Elems(order[..i])) {
      assert IsLeast(order[i], Ready(services, Elems(order[..i])));
    }
  }

  // ----- Least among start orders

  ghost predicate LexLeq(a: seq<string>, b: seq<string>) {
    || a == []
    || (b != [] && (Less(a[0], b[0]) || (a[0] == b[0] && LexLeq(a[1..], b[1..]))))
  }

  lemma NextIsReady(services: Services, p: seq<string>, i: nat)
    requires IsStartOrder(services, p) && i < |p|
    ensures p[i] in Ready(services, Elems(p[..i]))
  {
    CountDistinct(p);
    assert p[i] !in Elems(p[..i]);
  }

  lemma {:induction false} GreedyIsLeastFrom(services: Services, order: seq<string>, p: seq<string>, i: nat)
    requires IsGreedy(services, order) && |order| == |services| && IsStartOrder(services, p)
    requires i <= |order| == |p| && order[..i] == p[..i]
    ensures LexLeq(order[i..], p[i..])
    decreases |order| - i
  {
    hide IsStartOrder, Ready, Less, Elems;
    if i == |order| {
    } else {
      NextIsReady(services, p, i);
      assert IsLeast(order[i], Ready(services, Elems(order[..i])));
      LessTotal(order[i], p[i]);
      if order[i] == p[i] {
        assert order[..i + 1] == order[..i] + [order[i]] == p[..i + 1];
        GreedyIsLeastFrom(services, order, p, i + 1);
        assert order[i..][1..] == order[i + 1..] && p[i..][1..] == p[i + 1..];
      }
    }
  }

  /** The complete greedy order comes first among all start orders. */
  lemma GreedyIsLeast(services: Services, order: seq<string>, p: seq<string>)
    requires IsGreedy(services, order) && |order| == |services| && IsStartOrder(services, p)
    ensures LexLeq(order, p)
  {
    GreedyIsLeastFrom(services, order, p, 0);
    assert order[0..] == order && p[0..] == p;
  }

  lemma {:induction false} LexAntisymmetric(a: seq<string>, b: seq<string>)
    requires LexLeq(a, b) && LexLeq(b, a)
    ensures a == b
  {
    if a == [] || b == [] {
    } else {
      if Less(a[0], b[0]) && Less(b[0], a[0]) { LessTransitive(a[0], b[0], a[0]); }
      LessIrreflexive(a[0]);
      LexAntisymmetric(a[1..], b[1..]);
      assert a == [a[0]] + a[1..] && b == [b[0]] + b[1..];
    }
  }

  // ----- Cycles and start orders exclude each other

  lemma Later(services: Services, order: seq<string>, x: string, y: string, i: nat)
    returns (j: nat)
    requires IsStartOrder(services, order)
    requires x in services && y in services[x] && i < |order| && order[i] == x
    ensures j < i && order[j] == y
  {
    var k :| 0 <= k < |services[x]| && services[x][k] == y;
    assert services[x][k] in Elems(order[..i]);
    j :| 0 <= j < i && order[..i][j] == y;
  }

  /** Along a walk of n edges the positions drop by at least n. */
  lemma {:induction false} Descends(services: Services, order: seq<string>, c: seq<string>, n: nat, i: nat)
    returns (j: nat)
    requires IsStartOrder(services, order) && n < |c|
    requires forall k | 0 <= k < |c| - 1 :: c[k] in services && c[k + 1] in services[c[k]]
    requires i < |order| && order[i] == c[0]
    ensures j + n <= i && order[j] == c[n]
  {
    if n == 0 {
      j := i;
    } else {
      var m := Descends(services, order, c, n - 1, i);
      j := Later(services, order, c[n - 1], c[n], m);
    }
  }

  lemma CycleMeansNone(services: Services, c: seq<string>, order: seq<string>)
    requires IsStartOrder(services, order)
    ensures !IsCycle(services, c)
  {
    if IsCycle(services, c) {
      assert c[0] in services;
      var i :| 0 <= i < |order| && order[i] == c[0];
      var j := Descends(services, order, c, |c| - 1, i);
      CountDistinct(order);
    }
  }

  lemma StartsOnlyIfAcyclic(services: Services, order: seq<string>)
    ensures IsStartOrder(services, order) ==> AllKnown(services) && !HasCycle(services)
  {
    if IsStartOrder(services, order) {
      forall x, k | x in services && 0 <= k < |services[x]| ensures services[x][k] in services {
        var i :| 0 <= i < |order| && order[i] == x;
        var j := Later(services, order, x, services[x][k], i);
      }
      forall c ensures !IsCycle(services, c) { CycleMeansNone(services, c, order); }
    }
  }

  /** From x, n steps along dependencies that stay outside done. */
  lemma {:induction false} WalkBack(services: Services, done: set<string>, x: string, n: nat) returns (w: seq<string>)
    requires AllKnown(services) && Ready(services, done) == {} && x in services && x !in done
    ensures |w| == n + 1 && w[0] == x && Elems(w) <= services.Keys - done
    ensures forall i | 0 <= i < n :: w[i] in services && w[i + 1] in services[w[i]]
    decreases n
  {
    if n == 0 {
      w := [x];
    } else {
      assert x !in Ready(services, done);
      var k :| 0 <= k < |services[x]| && services[x][k] !in done;
      var v := WalkBack(services, done, services[x][k], n - 1);
      w := [x] + v;
      forall i | 0 <= i < n ensures w[i] in services && w[i + 1] in services[w[i]] {
        if i > 0 { assert w[i] == v[i - 1] && w[i + 1] == v[i]; }
      }
    }
  }

  /** A greedy order that stops early leaves a cycle behind. */
  lemma StuckHasCycle(services: Services, order: seq<string>)
    requires AllKnown(services) && IsStuck(services, order) && |order| < |services|
    ensures HasCycle(services)
  {
    hide IsGreedy, Ready, Elems, AllKnown, HasCycle, Distinct;
    GreedyTakesServices(services, order);
    assert exists x :: x in services && x !in Elems(order);
    var x :| x in services && x !in Elems(order);
    CycleOutside(services, Elems(order), x);
  }

  lemma CycleOutside(services: Services, done: set<string>, x: string)
    requires AllKnown(services) && Ready(services, done) == {} && x in services && x !in done
    ensures HasCycle(services)
  {
    var left := services.Keys - done;
    var w := WalkBack(services, done, x, |left|);
    Pigeonhole(w, left);
    var i, j :| 0 <= i < j < |w| && w[i] == w[j];
    var c := w[i..j + 1];
    forall k | 0 <= k < |c| - 1 ensures c[k] in services && c[k + 1] in services[c[k]] {
      assert c[k] == w[i + k] && c[k + 1] == w[i + k + 1];
    }
    assert IsCycle(services, c);
  }

  // ----- What TopologicalSort answers

  ghost predicate IsAnswer(services: Services, r: Option<seq<string>>) {
    && (r.Some? <==> AllKnown(services) && !HasCycle(services))
    && (r.Some? <==> exists p :: IsStartOrder(services, p))
    && (r.Some? ==> IsStartOrder(services, r.value))
    && (r.Some? ==> forall p | IsStartOrder(services, p) :: LexLeq(r.value, p))
  }

  lemma StuckIsAnswer(services: Services, order: seq<string>)
    requires IsStuck(services, order)
    ensures IsAnswer(services, if |order| == |services| then Some(order) else None)
  {
    GreedyTakesServices(services, order);
    if |order| == |services| {
      CompleteGreedyStarts(services, order);
      StartsOnlyIfAcyclic(services, order);
      forall p | IsStartOrder(services, p) ensures LexLeq(order, p) { GreedyIsLeast(services, order, p); }
    } else {
      if AllKnown(services) { StuckHasCycle(services, order); }
      forall p ensures !IsStartOrder(services, p) { StartsOnlyIfAcyclic(services, p); }
    }
  }

  ghost predicate SameDependencies(s: Services, t: Services) {
    s.Keys == t.Keys && forall x | x in s :: Elems(s[x]) == Elems(t[x])
  }

  lemma SameStartOrders(s: Services, t: Services, order: seq<string>)
    requires SameDependencies(s, t) && IsStartOrder(s, order)
    ensures IsStartOrder(t, order)
  {
    assert |s| == |s.Keys| && |t| == |t.Keys|;
    forall i | 0 <= i < |order| ensures DependsWithin(t, order[i], Elems(order[..i])) {
      assert DependsWithin(s, order[i], Elems(order[..i]));
      forall k | 0 <= k < |t[order[i]]| ensures t[order[i]][k] in Elems(order[..i]) {
        assert t[order[i]][k] in Elems(t[order[i]]);
      }
    }
  }

  /** The answer depends only on the set of dependencies of each service: repeating or
      reordering depends_on entries, or iterating maps in another order, changes nothing. */
  lemma AnswerIsUnique(s: Services, t: Services, q: Option<seq<string>>, r: Option<seq<string>>)
    requires SameDependencies(s, t) && IsAnswer(s, q) && IsAnswer(t, r)
    ensures q == r
  {
    forall p ensures IsStartOrder(s, p) <==> IsStartOrder(t, p) {
      if IsStartOrder(s, p) { SameStartOrders(s, t, p); }
      if IsStartOrder(t, p) { SameStartOrders(t, s, p); }
    }
    if q.Some? { LexAntisymmetric(q.value, r.value); }
  }
}
