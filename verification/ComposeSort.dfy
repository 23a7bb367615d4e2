/** TopologicalSort of internal/compose/graph.go: in-degree counters, dependents lists
    and a queue that is sorted again after every step. */
module ComposeSort {
  import opened Options
  import opened StringOrder
  import opened StringSeqs
  import opened StartOrder

  /** How many entries of deps are not in done; repeated entries count each time. */
  function CountOutside(deps: seq<string>, done: set<string>): nat {
    if deps == [] then 0
    else (if deps[0] in done then 0 else 1) + CountOutside(deps[1..], done)
  }

  lemma {:induction false} NoneOutside(deps: seq<string>, done: set<string>)
    ensures CountOutside(deps, done) == 0 <==> forall i | 0 <= i < |deps| :: deps[i] in done
    ensures done == {} ==> CountOutside(deps, done) == |deps|
  {
    if deps == [] {
    } else {
      NoneOutside(deps[1..], done);
      assert forall i | 0 < i < |deps| :: deps[i] == deps[1..][i - 1];
    }
  }

  lemma {:induction false} OneMoreDone(deps: seq<string>, done: set<string>, n: string)
    requires n !in done
    ensures CountOutside(deps, done + {n}) == CountOutside(deps, done) - multiset(deps)[n]
  {
    if deps == [] {
    } else {
      OneMoreDone(deps[1..], done, n);
      assert deps == [deps[0]] + deps[1..];
      assert multiset(deps)[n] == (if deps[0] == n then 1 else 0) + multiset(deps[1..])[n];
    }
  }

  function Of(dependents: map<string, seq<string>>, d: string): seq<string> {
    if d in dependents then dependents[d] else []
  }

  /** How often d's dependents list names n, and how often n names d. */
  function Occurrences(dependents: map<string, seq<string>>, d: string, n: string): nat {
    multiset(Of(dependents, d))[n]
  }

  function Mentions(services: Services, d: string, n: string): nat {
    if n in services then multiset(services[n])[d] else 0
  }

  /** Every service outside todo is listed once per mention, and no other. */
  ghost predicate Listed(services: Services, dependents: map<string, seq<string>>, todo: set<string>) {
    forall d, n :: Occurrences(dependents, d, n) == if n in todo then 0 else Mentions(services, d, n)
  }

  method BuildGraph(services: Services) returns (inDegree: map<string, int>, dependents: map<string, seq<string>>)
    ensures inDegree.Keys == services.Keys && forall x | x in services :: inDegree[x] == |services[x]|
    ensures Listed(services, dependents, {})
  {
    inDegree := map x | x in services :: 0;
    dependents := map[];
    var todo := services.Keys;
    while todo != {}
      invariant todo <= services.Keys && inDegree.Keys == services.Keys
      invariant forall x | x in services :: inDegree[x] == if x in todo then 0 else |services[x]|
      invariant Listed(services, dependents, todo)
    {
      hide Listed;
      var name :| name in todo;
      inDegree, dependents := AddService(services, name, todo, inDegree, dependents);
      todo := todo - {name};
    }
  }

  method AddService(services: Services, name: string, ghost todo: set<string>,
                    inDegree0: map<string, int>, dependents0: map<string, seq<string>>)
    returns (inDegree: map<string, int>, dependents: map<string, seq<string>>)
    requires name in services && name in todo && inDegree0.Keys == services.Keys && inDegree0[name] == 0
    requires Listed(services, dependents0, todo)
    ensures inDegree == inDegree0[name := |services[name]|]
    ensures Listed(services, dependents, todo - {name})
  {
    inDegree, dependents := inDegree0, dependents0;
    var deps := services[name];
    for i := 0 to |deps|
      invariant inDegree == inDegree0[name := i]
      invariant PartlyListed(services, dependents, todo, name, deps[..i])
    {
      hide PartlyListed;
      var dep := deps[i];
      assert deps[..i + 1] == deps[..i] + [dep];
      ListOne(services, dependents, todo, name, deps[..i], dep);
      dependents := dependents[dep := Of(dependents, dep) + [name]];
      inDegree := inDegree[name := inDegree[name] + 1];
    }
    assert deps[..|deps|] == deps;
  }

  /** As Listed, with name listed for the entries seen so far. */
  ghost predicate PartlyListed(services: Services, dependents: map<string, seq<string>>, todo: set<string>,
                               name: string, seen: seq<string>) {
    forall d, n :: Occurrences(dependents, d, n)
                == if n == name then multiset(seen)[d] else if n in todo then 0 else Mentions(services, d, n)
  }

  lemma ListOne(services: Services, dependents: map<string, seq<string>>, todo: set<string>,
                name: string, seen: seq<string>, dep: string)
    requires PartlyListed(services, dependents, todo, name, seen)
    ensures PartlyListed(services, dependents[dep := Of(dependents, dep) + [name]], todo, name, seen + [dep])
  {
    hide Mentions;
    var after := dependents[dep := Of(dependents, dep) + [name]];
    forall d, n ensures Occurrences(after, d, n)
                     == Occurrences(dependents, d, n) + (if d == dep && n == name then 1 else 0)
    {
    }
    hide Occurrences;
  }

  ghost predicate Counts(services: Services, inDegree: map<string, int>, done: set<string>) {
    inDegree.Keys == services.Keys && forall x | x in services :: inDegree[x] == CountOutside(services[x], done)
  }

  lemma CountsAreReady(services: Services, inDegree: map<string, int>, done: set<string>)
    requires Counts(services, inDegree, done)
    ensures Ready(services, done) == set x | x in services && x !in done && inDegree[x] == 0
  {
    forall x | x in services ensures inDegree[x] == 0 <==> DependsWithin(services, x, done) {
      NoneOutside(services[x], done);
    }
  }

  /** Part of n's dependents have been told: counters are down, and whoever reached zero waits
      in the queue. */
  ghost predicate Told(services: Services, n: string, done: set<string>, inDegree0: map<string, int>,
                       seen: seq<string>, inDegree: map<string, int>, queue: seq<string>) {
    && inDegree0.Keys == inDegree.Keys == services.Keys
    && (forall x | x in services :: inDegree[x] == inDegree0[x] - multiset(seen)[x])
    && Distinct(queue)
    && Elems(queue) == set x | x in services && x !in done && x != n && inDegree[x] == 0
  }

  lemma TellOne(services: Services, n: string, done: set<string>, inDegree0: map<string, int>,
                seen: seq<string>, inDegree: map<string, int>, queue: seq<string>, dep: string)
    requires Told(services, n, done, inDegree0, seen, inDegree, queue)
    requires dep in services && dep !in done && dep != n && inDegree0[dep] > multiset(seen)[dep]
    ensures Told(services, n, done, inDegree0, seen + [dep], inDegree[dep := inDegree[dep] - 1],
                 if inDegree[dep] == 1 then queue + [dep] else queue)
  {
    assert dep !in Elems(queue);
    assert Elems(queue + [dep]) == Elems(queue) + {dep};
  }

  lemma ToldNothing(services: Services, n: string, done: set<string>, inDegree: map<string, int>, queue: seq<string>)
    requires Counts(services, inDegree, done) && n in Ready(services, done)
    requires Distinct(queue) && Elems(queue) == Ready(services, done) - {n}
    ensures Told(services, n, done, inDegree, [], inDegree, queue)
  {
    CountsAreReady(services, inDegree, done);
    hide Ready, CountOutside;
  }

  lemma ToldAll(services: Services, n: string, done: set<string>, inDegree0: map<string, int>, deps: seq<string>,
                inDegree: map<string, int>, queue: seq<string>)
    requires Told(services, n, done, inDegree0, deps, inDegree, queue)
    requires Counts(services, inDegree0, done) && n !in done
    requires forall x :: multiset(deps)[x] == Mentions(services, n, x)
    ensures Counts(services, inDegree, done + {n}) && Elems(queue) == Ready(services, done + {n})
  {
    forall x | x in services ensures CountOutside(services[x], done + {n}) == inDegree0[x] - multiset(deps)[x] {
      OneMoreDone(services[x], done, n);
    }
    CountsAreReady(services, inDegree, done + {n});
    hide Ready, CountOutside;
  }

  /** The inner loop: n has just been taken, and its dependents are told. */
  method Tell(services: Services, n: string, deps: seq<string>, inDegree0: map<string, int>, queue0: seq<string>,
              ghost done: set<string>)
    returns (inDegree: map<string, int>, queue: seq<string>)
    requires Counts(services, inDegree0, done) && n in Ready(services, done)
    requires forall x | x in done :: x in services && inDegree0[x] == 0
    requires forall x :: multiset(deps)[x] == Mentions(services, n, x)
    requires Distinct(queue0) && Elems(queue0) == Ready(services, done) - {n}
    ensures Counts(services, inDegree, done + {n})
    ensures Distinct(queue) && Elems(queue) == Ready(services, done + {n})
  {
    ToldNothing(services, n, done, inDegree0, queue0);
    assert n !in done && deps[..0] == [];
    hide Ready, Counts, Told;
    inDegree, queue := inDegree0, queue0;
    for i := 0 to |deps|
      invariant Told(services, n, done, inDegree0, deps[..i], inDegree, queue)
    {
      var dep := deps[i];
      DependentIsKnown(services, n, deps, inDegree0, done, i);
      assert deps[..i + 1] == deps[..i] + [dep];
      TellOne(services, n, done, inDegree0, deps[..i], inDegree, queue, dep);
      assert dep in inDegree by { ToldKeys(services, n, done, inDegree0, deps[..i], inDegree, queue); }
      inDegree := inDegree[dep := inDegree[dep] - 1];
      if inDegree[dep] == 0 {
        queue := queue + [dep];
      }
    }
    assert deps[..|deps|] == deps;
    ToldAll(services, n, done, inDegree0, deps, inDegree, queue);
    ToldKeys(services, n, done, inDegree0, deps, inDegree, queue);
  }

  lemma ToldKeys(services: Services, n: string, done: set<string>, inDegree0: map<string, int>,
                 seen: seq<string>, inDegree: map<string, int>, queue: seq<string>)
    requires Told(services, n, done, inDegree0, seen, inDegree, queue)
    ensures inDegree.Keys == services.Keys && Distinct(queue)
  {
  }

  /** A dependent of n still counts n among those it waits for. */
  lemma DependentIsKnown(services: Services, n: string, deps: seq<string>, inDegree0: map<string, int>,
                         done: set<string>, i: nat)
    requires Counts(services, inDegree0, done) && n in Ready(services, done) && i < |deps|
    requires forall x | x in done :: x in services && inDegree0[x] == 0
    requires forall x :: multiset(deps)[x] == Mentions(services, n, x)
    ensures var dep := deps[i];
      dep in services && dep !in done && dep != n && inDegree0[dep] > multiset(deps[..i])[dep]
  {
    var dep := deps[i];
    assert deps == deps[..i] + [dep] + deps[i + 1..];
    CountsAreReady(services, inDegree0, done);
    hide Ready;
    assert multiset(deps)[dep] == Mentions(services, n, dep);
    if dep in services {
      OneMoreDone(services[dep], done, n);
      hide CountOutside;
    }
  }

  /** Succeeds exactly when all dependencies are services and there is no cycle, and then
      returns the least of all start orders. */
  method TopologicalSort(services: Services) returns (r: Option<seq<string>>)
    ensures IsAnswer(services, r)
  {
    var inDegree, dependents := BuildGraph(services);
    var queue := Roots(services, inDegree);
    var order: seq<string> := [];
    assert Elems(order) == {};
    while queue != []
      invariant Counts(services, inDegree, Elems(order))
      invariant Listed(services, dependents, {})
      invariant IsGreedy(services, order)
      invariant Distinct(queue) && Elems(queue) == Ready(services, Elems(order))
      invariant queue != [] ==> IsLeast(queue[0], Elems(queue))
      decreases |services| - |order|
    {
      var n := queue[0];
      TakeNext(services, order, n);
      QueueTail(queue);
      GreedyIsClosed(services, order, inDegree);
      var deps := Sort(Of(dependents, n));
      assert forall x :: multiset(deps)[x] == Occurrences(dependents, n, x) == Mentions(services, n, x);
      hide Ready, IsGreedy, Counts, IsLeast, Listed, Sort, Elems, Distinct;
      var rest;
      inDegree, rest := Tell(services, n, deps, inDegree, queue[1..], Elems(order));
      order := order + [n];
      SortedQueue(rest);
      queue := Sort(rest);
    }
    StuckIsAnswer(services, order);
    r := if |order| != |services| then None else Some(order);
  }

  lemma QueueTail(queue: seq<string>)
    requires queue != [] && Distinct(queue)
    ensures Distinct(queue[1..]) && Elems(queue[1..]) == Elems(queue) - {queue[0]}
    ensures queue[0] in Elems(queue)
  {
    assert queue == [queue[0]] + queue[1..];
  }

  lemma TakeNext(services: Services, order: seq<string>, n: string)
    requires IsGreedy(services, order) && IsLeast(n, Ready(services, Elems(order)))
    ensures IsGreedy(services, order + [n]) && |order| < |services|
    ensures Elems(order + [n]) == Elems(order) + {n}
  {
    var longer := order + [n];
    hide Ready, IsLeast;
    forall i | 0 <= i < |longer| ensures IsLeast(longer[i], Ready(services, Elems(longer[..i]))) {
      if i < |order| {
        assert longer[..i] == order[..i];
      } else {
        assert longer[..i] == order;
      }
    }
    GreedyTakesServices(services, longer);
  }

  /** What has been taken no longer waits for anything. */
  lemma GreedyIsClosed(services: Services, order: seq<string>, inDegree: map<string, int>)
    requires IsGreedy(services, order) && Counts(services, inDegree, Elems(order))
    ensures forall x | x in Elems(order) :: x in services && inDegree[x] == 0
  {
    forall x | x in Elems(order) ensures x in services && inDegree[x] == 0 {
      var i :| 0 <= i < |order| && order[i] == x;
      assert IsLeast(order[i], Ready(services, Elems(order[..i])));
      assert Elems(order[..i]) <= Elems(order);
      NoneOutside(services[x], Elems(order));
    }
  }

  /** The services that wait for nothing, sorted. */
  method Roots(services: Services, inDegree: map<string, int>) returns (queue: seq<string>)
    requires inDegree.Keys == services.Keys && forall x | x in services :: inDegree[x] == |services[x]|
    ensures Counts(services, inDegree, {})
    ensures Distinct(queue) && Elems(queue) == Ready(services, {})
    ensures queue != [] ==> IsLeast(queue[0], Elems(queue))
  {
    queue := [];
    var todo := inDegree.Keys;
    while todo != {}
      invariant todo <= services.Keys
      invariant Distinct(queue) && Elems(queue) == set x | x in services && x !in todo && inDegree[x] == 0
    {
      var name :| name in todo;
      if inDegree[name] == 0 {
        assert Elems(queue + [name]) == Elems(queue) + {name};
        queue := queue + [name];
      }
      todo := todo - {name};
    }
    forall x | x in services ensures inDegree[x] == CountOutside(services[x], {}) { NoneOutside(services[x], {}); }
    CountsAreReady(services, inDegree, {});
    SortedQueue(queue);
    queue := Sort(queue);
  }
}
