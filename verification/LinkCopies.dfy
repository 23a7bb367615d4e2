/** materializeLinks of internal/package/ops_store.go: recorded symbolic links become file
    copies, pass after pass, until a pass makes no progress. */
module LinkCopies {
  import GuestPaths

  /** A mode is the set of its permission bits. */
  datatype Entry = Regular(data: string, mode: set<nat>) | Directory
  type Tree = map<string, Entry>
  datatype Link = Link(path: string, resolved: string)

  /** Bit 7 of a mode, 0o200. */
  const OWNER_WRITE := 7

  /** A new copy has the contents and permission bits of the file, and is made writable. */
  function CopyOf(e: Entry): Entry {
    if e.Regular? then e.(mode := e.mode + {OWNER_WRITE}) else e
  }

  predicate IsFile(tree: Tree, p: string) { p in tree && tree[p].Regular? }

  predicate Above(p: string, q: string) { p + "/" <= q }

  /** One path is above another when its names are the first of the other's. */
  lemma AboveIsPrefix(p: seq<string>, q: seq<string>)
    requires GuestPaths.AllNames(p) && GuestPaths.AllNames(q) && p != []
    ensures Above(GuestPaths.Rooted(p), GuestPaths.Rooted(q)) <==> p < q
  {
    hide GuestPaths.Split;
    var a, b := GuestPaths.Join(p), GuestPaths.Join(q);
    if p < q {
      GuestPaths.JoinTwo(p, q[|p|..]);
      assert p + q[|p|..] == q;
    } else if Above("/" + a, "/" + b) {
      var rest := b[|a| + 1..];
      assert b == a + "/" + rest by {
        assert ("/" + a + "/")[1..] == a + "/" && ("/" + b)[1..] == b;
        assert a + "/" <= b;
      }
      GuestPaths.SplitAfter(p, rest);
      if q == [] {
        assert false;
      } else {
        GuestPaths.SplitJoin(q);
      }
    }
  }

  /** A directory is one that is recorded, or above something that is. */
  predicate IsDir(tree: Tree, p: string) {
    (p in tree && tree[p].Directory?) || exists q | q in tree :: Above(p, q)
  }

  /** MkdirAll and then OpenFile can put a file at p: nothing above it is a file, and p is no
      directory. */
  predicate Fits(tree: Tree, p: string) {
    !IsDir(tree, p) && forall q | q in tree && tree[q].Regular? :: !Above(q, p)
  }

  /** A copy to p succeeds if it fits into the tree and nothing else goes wrong. */
  predicate Can(tree: Tree, ok: string -> bool, p: string) { ok(p) && Fits(tree, p) }

  ghost predicate DistinctPaths(links: seq<Link>) {
    forall i, j | 0 <= i < j < |links| :: links[i].path != links[j].path
  }

  /** The links start out as names of no file, each its own. */
  ghost predicate Pending(tree: Tree, links: seq<Link>) {
    DistinctPaths(links) && forall i | 0 <= i < |links| :: !IsFile(tree, links[i].path)
  }

  // ----- The passes

  /** What copyFileContents leaves at the path of a link: a file that is there keeps its mode, and
      is emptied before the target is read. */
  function Written(now: Tree, l: Link): Entry
    requires IsFile(now, l.resolved)
  {
    if !IsFile(now, l.path) then CopyOf(now[l.resolved])
    else now[l.path].(data := if l.path == l.resolved then "" else now[l.resolved].data)
  }

  /** A link waits until its target is a file, and is then copied if it can be. */
  function Handled(now: Tree, l: Link, ok: string -> bool): Tree {
    if IsFile(now, l.resolved) && Can(now, ok, l.path) then now[l.path := Written(now, l)] else now
  }

  /** The tree after one pass. */
  function Sweep(links: seq<Link>, now: Tree, ok: string -> bool): Tree {
    if links == [] then now else Sweep(links[1..], Handled(now, links[0], ok), ok)
  }

  /** The links left for the next pass. */
  function Waiting(links: seq<Link>, now: Tree, ok: string -> bool): (next: seq<Link>)
    ensures |next| <= |links| && forall l | l in next :: l in links
  {
    if links == [] then []
    else
      var rest := Waiting(links[1..], Handled(now, links[0], ok), ok);
      if IsFile(now, links[0].resolved) then rest else [links[0]] + rest
  }

  /** Pass after pass, until one deals with no link. */
  function Final(links: seq<Link>, now: Tree, ok: string -> bool): Tree
    decreases |links|
  {
    var next := Waiting(links, now, ok);
    if |next| == |links| then now else Final(next, Sweep(links, now, ok), ok)
  }

  method Pass(remaining: seq<Link>, before: Tree, ok: string -> bool)
    returns (next: seq<Link>, after: Tree, progressed: bool)
    ensures next == Waiting(remaining, before, ok) && after == Sweep(remaining, before, ok)
    ensures progressed <==> |next| < |remaining|
  {
    hide Sweep, Waiting, Can, Written;
    next, after, progressed := [], before, false;
    assert remaining[0..] == remaining;
    for i := 0 to |remaining|
      invariant Sweep(remaining, before, ok) == Sweep(remaining[i..], after, ok)
      invariant Waiting(remaining, before, ok) == next + Waiting(remaining[i..], after, ok)
      invariant |next| <= i && (progressed <==> |next| < i)
    {
      var l := remaining[i];
      PassStep(remaining, i, after, ok);
      if !IsFile(after, l.resolved) {
        next := next + [l];
        continue;
      }
      if Can(after, ok, l.path) {
        after := after[l.path := Written(after, l)];
      }
      progressed := true;
    }
    PassStep(remaining, |remaining|, after, ok);
  }

  lemma PassStep(links: seq<Link>, i: nat, now: Tree, ok: string -> bool)
    requires i <= |links|
    ensures i == |links| ==> Sweep(links[i..], now, ok) == now && Waiting(links[i..], now, ok) == []
    ensures i < |links| ==>
      var t, rest := Handled(now, links[i], ok), links[i + 1..];
      && Sweep(links[i..], now, ok) == Sweep(rest, t, ok)
      && Waiting(links[i..], now, ok)
         == (if IsFile(now, links[i].resolved) then [] else [links[i]]) + Waiting(rest, t, ok)
  {
    hide Handled, IsFile;
    if i < |links| {
      assert links[i..][1..] == links[i + 1..];
      assert [] + Waiting(links[i + 1..], Handled(now, links[i], ok), ok)
          == Waiting(links[i + 1..], Handled(now, links[i], ok), ok);
    }
  }

  lemma {:induction false} NothingDone(links: seq<Link>, now: Tree, ok: string -> bool)
    requires |Waiting(links, now, ok)| == |links|
    ensures Sweep(links, now, ok) == now && forall l | l in links :: !IsFile(now, l.resolved)
    decreases |links|
  {
    if links == [] {
    } else {
      NothingDone(links[1..], now, ok);
      assert links == [links[0]] + links[1..];
    }
  }

  // ----- What a link stands for

  /** c leads from c[0] over links that could be copied into the tree to a file in it. */
  ghost predicate IsChain(tree: Tree, links: seq<Link>, ok: string -> bool, c: seq<string>) {
    && c != [] && IsFile(tree, c[|c| - 1])
    && forall i | 0 <= i < |c| - 1 :: Link(c[i], c[i + 1]) in links && Can(tree, ok, c[i])
  }

  /** A chain of links none of which lies above another, so that all can be there together. */
  ghost predicate Clean(tree: Tree, links: seq<Link>, ok: string -> bool, c: seq<string>) {
    && IsChain(tree, links, ok, c) && |c| > 1
    && forall i, j | 0 <= i < |c| - 1 && 0 <= j < |c| - 1 :: !Above(c[i], c[j])
  }

  /** Two names that each could become a file, one above the other. */
  ghost predicate Conflict(tree: Tree, links: seq<Link>, ok: string -> bool) {
    exists c, d :: Clean(tree, links, ok, c) && Clean(tree, links, ok, d) && Above(c[0], d[0])
  }

  /** The same contents and permission bits, and writable for the owner. */
  ghost predicate IsCopy(e: Entry, f: Entry)
    requires f.Regular?
  {
    e == Regular(f.data, f.mode + {7})
  }

  ghost predicate LeadsTo(tree: Tree, links: seq<Link>, ok: string -> bool, p: string, e: Entry) {
    exists c :: Clean(tree, links, ok, c) && c[0] == p && IsCopy(e, tree[c[|c| - 1]])
  }

  /** The outcome: nothing that was there changes, and a name that was not there is a file
      exactly when a clean chain leads from it to one, with that file's contents. */
  ghost predicate IsOutcome(tree: Tree, links: seq<Link>, ok: string -> bool, after: Tree) {
    && (forall p | p in tree :: p in after && after[p] == tree[p])
    && (forall p | p in after && p !in tree :: LeadsTo(tree, links, ok, p, after[p]))
    && (forall c | Clean(tree, links, ok, c) :: IsFile(after, c[0]))
  }

  lemma ChainFrom(tree: Tree, links: seq<Link>, ok: string -> bool, c: seq<string>, k: nat)
    requires IsChain(tree, links, ok, c) && k < |c|
    ensures IsChain(tree, links, ok, c[k..])
    ensures Clean(tree, links, ok, c) && k < |c| - 1 ==> Clean(tree, links, ok, c[k..])
  {
    hide Can, Above;
    var d := c[k..];
    forall i | 0 <= i < |d| - 1 ensures Link(d[i], d[i + 1]) in links && Can(tree, ok, d[i]) {
      assert Link(c[k + i], c[k + i + 1]) in links && Can(tree, ok, c[k + i]);
    }
  }

  /** From a name that is no file only one chain leads anywhere. */
  lemma {:induction false} ChainsAgree(tree: Tree, links: seq<Link>, ok: string -> bool,
                                       c: seq<string>, d: seq<string>)
    requires Pending(tree, links)
    requires IsChain(tree, links, ok, c) && IsChain(tree, links, ok, d) && c[0] == d[0]
    ensures c == d
    decreases |c|
  {
    hide Can;
    assert |c| > 1 ==> Link(c[0], c[1]) in links;
    assert |d| > 1 ==> Link(d[0], d[1]) in links;
    if |c| <= 1 {
    } else {
      var l, k := Link(c[0], c[1]), Link(d[0], d[1]);
      assert l in links && k in links && l.path == k.path;
      ChainFrom(tree, links, ok, c, 1);
      ChainFrom(tree, links, ok, d, 1);
      ChainsAgree(tree, links, ok, c[1..], d[1..]);
      assert c == [c[0]] + c[1..] && d == [d[0]] + d[1..];
    }
  }

  ghost predicate SameLinks(links: seq<Link>, others: seq<Link>) {
    forall l :: l in links <==> l in others
  }

  lemma SameClean(tree: Tree, links: seq<Link>, others: seq<Link>, ok: string -> bool)
    requires SameLinks(links, others)
    ensures forall c :: Clean(tree, links, ok, c) <==> Clean(tree, others, ok, c)
  {
    hide Can, Above;
    forall c ensures Clean(tree, links, ok, c) <==> Clean(tree, others, ok, c) {
    }
  }

  lemma OutcomeIsUnique(tree: Tree, links: seq<Link>, others: seq<Link>, ok: string -> bool, a: Tree, b: Tree)
    requires Pending(tree, links) && SameLinks(links, others)
    requires IsOutcome(tree, links, ok, a) && IsOutcome(tree, others, ok, b)
    ensures a == b
  {
    hide Pending, IsCopy, Above, Can;
    SameClean(tree, links, others, ok);
    assert a.Keys == b.Keys by {
      forall p ensures p in a <==> p in b {
        if p in a && p !in tree { assert LeadsTo(tree, links, ok, p, a[p]); }
        if p in b && p !in tree { assert LeadsTo(tree, others, ok, p, b[p]); }
      }
    }
    forall p | p in a ensures a[p] == b[p] {
      if p !in tree {
        var c :| Clean(tree, links, ok, c) && c[0] == p && IsCopy(a[p], tree[c[|c| - 1]]);
        var d :| Clean(tree, others, ok, d) && d[0] == p && IsCopy(b[p], tree[d[|d| - 1]]);
        ChainsAgree(tree, links, ok, c, d);
        CopiesAgree(a[p], b[p], tree[c[|c| - 1]]);
      }
    }
  }

  /** There is one copy of a file, and copying it again changes nothing. */
  lemma CopiesAgree(a: Entry, b: Entry, f: Entry)
    requires f.Regular? && IsCopy(a, f)
    ensures IsCopy(b, f) <==> a == b
    ensures CopyOf(f) == a == CopyOf(a)
  {
    assert f.mode + {7} + {7} == f.mode + {7};
  }

  // ----- What holds in every order

  /** c explains the file at p: it is clean, all its names are files by now, and p has the
      contents of the last. */
  ghost predicate Explains(tree: Tree, links: seq<Link>, ok: string -> bool, now: Tree, p: string, c: seq<string>) {
    && Clean(tree, links, ok, c) && c[0] == p && (forall x | x in c :: IsFile(now, x))
    && IsFile(now, p) && IsCopy(now[p], tree[c[|c| - 1]])
  }

  ghost predicate Explained(tree: Tree, links: seq<Link>, ok: string -> bool, now: Tree, p: string) {
    exists c :: Explains(tree, links, ok, now, p, c)
  }

  /** Old entries are untouched, new ones are explained, and no new one lies above another. */
  ghost predicate Sound(tree: Tree, links: seq<Link>, ok: string -> bool, now: Tree) {
    && (forall p | p in tree :: p in now && now[p] == tree[p])
    && (forall p | p in now && p !in tree :: now[p].Regular? && Explained(tree, links, ok, now, p))
    && (forall p, q | p in now && p !in tree && q in now && q !in tree :: !Above(p, q))
  }

  /** Larger trees leave less room. */
  lemma CanBefore(tree: Tree, now: Tree, ok: string -> bool, p: string)
    requires (forall q | q in tree :: q in now && now[q] == tree[q]) && Can(now, ok, p)
    ensures Can(tree, ok, p)
  {
    hide Above;
  }

  lemma HandledIsSound(tree: Tree, links: seq<Link>, ok: string -> bool, now: Tree, l: Link)
    requires Pending(tree, links) && Sound(tree, links, ok, now) && l in links
    ensures Sound(tree, links, ok, Handled(now, l, ok))
  {
    hide Explained, Above;
    var after := Handled(now, l, ok);
    if IsFile(now, l.path) {
      WrittenAgain(tree, links, ok, now, l);
    } else if after != now {
      forall p | p in tree ensures after[p] == tree[p] {
      }
      assert Explained(tree, links, ok, after, l.path) by { CopyIsExplained(tree, links, ok, now, l); }
      forall p | p in after && p !in tree && p != l.path ensures Explained(tree, links, ok, after, p) {
        StillExplained(tree, links, ok, now, l, p);
      }
      assert !Above(l.path, l.path) by { NotAboveItself(l.path); }
    }
  }

  /** What has been copied once is not changed by copying it again. */
  lemma WrittenAgain(tree: Tree, links: seq<Link>, ok: string -> bool, now: Tree, l: Link)
    requires Pending(tree, links) && Sound(tree, links, ok, now) && l in links && IsFile(now, l.path)
    ensures Handled(now, l, ok) == now
  {
    hide Above;
    assert Explained(tree, links, ok, now, l.path);
    var c :| Explains(tree, links, ok, now, l.path, c);
    hide Can;
    assert Link(c[0], c[1]) in links && c[1] == l.resolved;
    ChainFrom(tree, links, ok, c, 1);
    if l.path == l.resolved { ChainsAgree(tree, links, ok, c, c[1..]); }
    if IsFile(now, l.resolved) {
      var d := TargetChain(tree, links, ok, now, l.resolved);
      ChainsAgree(tree, links, ok, c[1..], d);
      assert CopyOf(now[l.resolved]).data == now[l.path].data;
    }
  }

  lemma NotAboveItself(p: string)
    ensures !Above(p, p)
  {
  }

  lemma StillExplained(tree: Tree, links: seq<Link>, ok: string -> bool, now: Tree, l: Link, p: string)
    requires Explained(tree, links, ok, now, p) && p != l.path
    ensures Explained(tree, links, ok, Handled(now, l, ok), p)
  {
    hide IsChain, Can, Above;
    var c :| Explains(tree, links, ok, now, p, c);
    assert Explains(tree, links, ok, Handled(now, l, ok), p, c);
  }

  /** The link is put before the chain of its target. */
  lemma CopyIsExplained(tree: Tree, links: seq<Link>, ok: string -> bool, now: Tree, l: Link)
    requires Pending(tree, links) && Sound(tree, links, ok, now) && l in links
    requires IsFile(now, l.resolved) && !IsFile(now, l.path) && Can(now, ok, l.path)
    ensures Explained(tree, links, ok, Handled(now, l, ok), l.path)
  {
    var c := TargetChain(tree, links, ok, now, l.resolved);
    var d := [l.path] + c;
    LongerChain(tree, links, ok, now, l, c);
    hide Clean, Can, Sound, Pending;
    assert Explains(tree, links, ok, Handled(now, l, ok), l.path, d);
  }

  lemma TargetChain(tree: Tree, links: seq<Link>, ok: string -> bool, now: Tree, p: string) returns (c: seq<string>)
    requires Sound(tree, links, ok, now) && IsFile(now, p)
    ensures IsChain(tree, links, ok, c) && c[0] == p && (forall x | x in c :: IsFile(now, x))
    ensures |c| > 1 ==> Clean(tree, links, ok, c)
    ensures CopyOf(now[p]) == CopyOf(tree[c[|c| - 1]])
  {
    hide Can, Above, CopyOf, IsCopy;
    if p in tree {
      c := [p];
    } else {
      c :| Explains(tree, links, ok, now, p, c);
      CopiesAgree(now[p], now[p], tree[c[|c| - 1]]);
    }
  }

  lemma LongerChain(tree: Tree, links: seq<Link>, ok: string -> bool, now: Tree, l: Link, c: seq<string>)
    requires (forall q | q in tree :: q in now && now[q] == tree[q]) && l in links && Can(now, ok, l.path)
    requires IsChain(tree, links, ok, c) && c[0] == l.resolved && (|c| > 1 ==> Clean(tree, links, ok, c))
    requires forall x | x in c :: IsFile(now, x)
    ensures Clean(tree, links, ok, [l.path] + c)
  {
    CanBefore(tree, now, ok, l.path);
    assert forall x | x in c :: !Above(x, l.path) && !Above(l.path, x);
    NotAboveItself(l.path);
    hide Can, Above;
    var d := [l.path] + c;
    assert forall i | 1 <= i < |d| :: d[i] == c[i - 1];
  }

  lemma {:induction false} SweepIsSound(tree: Tree, links: seq<Link>, ok: string -> bool, now: Tree, todo: seq<Link>)
    requires Pending(tree, links) && Sound(tree, links, ok, now) && forall l | l in todo :: l in links
    ensures Sound(tree, links, ok, Sweep(todo, now, ok))
    decreases |todo|
  {
    hide Sound, Pending, Handled;
    if todo == [] {
    } else {
      HandledIsSound(tree, links, ok, now, todo[0]);
      SweepIsSound(tree, links, ok, Handled(now, todo[0], ok), todo[1..]);
    }
  }

  lemma {:induction false} FinalIsSound(tree: Tree, links: seq<Link>, ok: string -> bool, now: Tree, todo: seq<Link>)
    requires Pending(tree, links) && Sound(tree, links, ok, now) && forall l | l in todo :: l in links
    ensures Sound(tree, links, ok, Final(todo, now, ok))
    decreases |todo|
  {
    hide Sound, Pending, Sweep, Waiting;
    var next := Waiting(todo, now, ok);
    if |next| == |todo| {
    } else {
      SweepIsSound(tree, links, ok, now, todo);
      FinalIsSound(tree, links, ok, Sweep(todo, now, ok), next);
    }
  }

  /** Whatever the order, old entries stay, new files are explained and none lies above another. */
  lemma EveryOrderIsSound(tree: Tree, links: seq<Link>, others: seq<Link>, ok: string -> bool)
    requires Pending(tree, links) && SameLinks(links, others)
    ensures Sound(tree, links, ok, Final(others, tree, ok))
  {
    assert Sound(tree, links, ok, tree);
    hide Sound, Pending, Final;
    FinalIsSound(tree, links, ok, tree, others);
  }

  // ----- Without a conflict

  /** What is not waiting has become a file, if a clean chain leads from it. */
  ghost predicate Dealt(tree: Tree, links: seq<Link>, ok: string -> bool, now: Tree, waiting: seq<Link>) {
    forall c | Clean(tree, links, ok, c) :: Link(c[0], c[1]) in waiting || IsFile(now, c[0])
  }

  /** No copy made so far is in the way of another. */
  lemma StillFits(tree: Tree, links: seq<Link>, ok: string -> bool, now: Tree, c: seq<string>)
    requires Sound(tree, links, ok, now) && !Conflict(tree, links, ok) && Clean(tree, links, ok, c)
    ensures Can(now, ok, c[0])
  {
    var p := c[0];
    assert Can(tree, ok, p);
    hide Above;
    forall q | q in now && q !in tree ensures !Above(p, q) && !Above(q, p) && now[q].Regular? {
      var d :| Explains(tree, links, ok, now, q, d);
      assert Clean(tree, links, ok, d) && d[0] == q && IsFile(now, q);
    }
  }

  lemma {:induction false} SweepKeepsFile(links: seq<Link>, now: Tree, ok: string -> bool, p: string)
    requires IsFile(now, p)
    ensures IsFile(Sweep(links, now, ok), p)
    decreases |links|
  {
    hide Can;
    if links == [] {
    } else {
      SweepKeepsFile(links[1..], Handled(now, links[0], ok), ok, p);
    }
  }

  lemma {:induction false} SweepDeals(tree: Tree, links: seq<Link>, ok: string -> bool, now: Tree, todo: seq<Link>,
                                      c: seq<string>)
    requires Pending(tree, links) && Sound(tree, links, ok, now) && forall l | l in todo :: l in links
    requires !Conflict(tree, links, ok) && Clean(tree, links, ok, c) && Link(c[0], c[1]) in todo
    ensures Link(c[0], c[1]) in Waiting(todo, now, ok) || IsFile(Sweep(todo, now, ok), c[0])
    decreases |todo|
  {
    hide Sound, Pending, Conflict, Can, IsChain, Above;
    var l := Link(c[0], c[1]);
    var after := Handled(now, todo[0], ok);
    if todo[0] == l {
      if IsFile(now, c[1]) {
        StillFits(tree, links, ok, now, c);
        SweepKeepsFile(todo[1..], after, ok, c[0]);
      }
    } else {
      assert todo == [todo[0]] + todo[1..];
      HandledIsSound(tree, links, ok, now, todo[0]);
      SweepDeals(tree, links, ok, after, todo[1..], c);
    }
  }

  /** When no link can be dealt with, every clean chain starts at a file. */
  lemma {:induction false} AllReached(tree: Tree, links: seq<Link>, ok: string -> bool, now: Tree,
                                      waiting: seq<Link>, c: seq<string>)
    requires Sound(tree, links, ok, now) && Dealt(tree, links, ok, now, waiting)
    requires forall l | l in waiting :: !IsFile(now, l.resolved)
    requires Clean(tree, links, ok, c)
    ensures IsFile(now, c[0])
    decreases |c|
  {
    hide Can, Above, Explained;
    ChainFrom(tree, links, ok, c, 1);
    if |c| == 2 {
      assert IsFile(now, c[1]);
    } else {
      AllReached(tree, links, ok, now, waiting, c[1..]);
    }
    assert Link(c[0], c[1]) !in waiting;
  }

  lemma {:induction false} PassesDeal(tree: Tree, links: seq<Link>, ok: string -> bool, now: Tree, todo: seq<Link>)
    requires Pending(tree, links) && Sound(tree, links, ok, now) && forall l | l in todo :: l in links
    requires !Conflict(tree, links, ok) && Dealt(tree, links, ok, now, todo)
    ensures forall c | Clean(tree, links, ok, c) :: IsFile(Final(todo, now, ok), c[0])
    decreases |todo|
  {
    hide Sound, Pending, Sweep, Waiting, Conflict, IsChain, Above;
    var next, after := Waiting(todo, now, ok), Sweep(todo, now, ok);
    if |next| == |todo| {
      NothingDone(todo, now, ok);
      forall c | Clean(tree, links, ok, c) ensures IsFile(now, c[0]) {
        AllReached(tree, links, ok, now, todo, c);
      }
    } else {
      SweepIsSound(tree, links, ok, now, todo);
      assert Dealt(tree, links, ok, after, next) by {
        PassDeals(tree, links, ok, now, todo);
      }
      PassesDeal(tree, links, ok, after, next);
    }
  }

  lemma PassDeals(tree: Tree, links: seq<Link>, ok: string -> bool, now: Tree, todo: seq<Link>)
    requires Pending(tree, links) && Sound(tree, links, ok, now) && forall l | l in todo :: l in links
    requires !Conflict(tree, links, ok) && Dealt(tree, links, ok, now, todo)
    ensures Dealt(tree, links, ok, Sweep(todo, now, ok), Waiting(todo, now, ok))
  {
    hide Sound, Pending, Sweep, Waiting, Conflict, IsFile, IsChain, Above;
    forall c | Clean(tree, links, ok, c)
      ensures Link(c[0], c[1]) in Waiting(todo, now, ok) || IsFile(Sweep(todo, now, ok), c[0])
    {
      if Link(c[0], c[1]) in todo {
        SweepDeals(tree, links, ok, now, todo, c);
      } else {
        SweepKeepsFile(todo, now, ok, c[0]);
      }
    }
  }

  /** Without a conflict the passes leave the outcome. */
  lemma FinalIsOutcome(tree: Tree, links: seq<Link>, ok: string -> bool)
    requires Pending(tree, links) && !Conflict(tree, links, ok)
    ensures IsOutcome(tree, links, ok, Final(links, tree, ok))
  {
    hide Pending, Conflict, Can, Above, Final;
    var after := Final(links, tree, ok);
    PassesDeal(tree, links, ok, tree, links);
    EveryOrderIsSound(tree, links, links, ok);
    forall p | p in after && p !in tree ensures LeadsTo(tree, links, ok, p, after[p]) {
      var c :| Explains(tree, links, ok, after, p, c);
      assert Clean(tree, links, ok, c) && c[0] == p;
    }
  }

  /** Ends on every input; on distinct links that name no file it leaves the one outcome unless
      two of them conflict. */
  method MaterializeLinks(tree: Tree, links: seq<Link>, ok: string -> bool) returns (after: Tree)
    ensures after == Final(links, tree, ok)
    ensures Pending(tree, links) ==> Sound(tree, links, ok, after)
    ensures Pending(tree, links) && !Conflict(tree, links, ok) ==> IsOutcome(tree, links, ok, after)
  {
    hide Sound, Pending, Conflict, IsOutcome, Sweep, Waiting;
    if Pending(tree, links) {
      EveryOrderIsSound(tree, links, links, ok);
      if !Conflict(tree, links, ok) { FinalIsOutcome(tree, links, ok); }
    }
    after := tree;
    var remaining := links;
    while |remaining| > 0
      invariant Final(links, tree, ok) == Final(remaining, after, ok)
      decreases |remaining|
    {
      var next, now, progressed := Pass(remaining, after, ok);
      if !progressed {
        NothingDone(remaining, after, ok);
        after := now;
        return;
      }
      after, remaining := now, next;
    }
  }

  // ----- With a conflict

  /** The names of links on a chain. */
  ghost function Heads(c: seq<string>): seq<string>
    requires c != []
  {
    c[..|c| - 1]
  }

  /** The links of a chain, the last one first. */
  ghost function LinksOf(c: seq<string>): (r: seq<Link>)
    requires c != []
    ensures |r| == |c| - 1 && forall i | 0 <= i < |r| :: r[i] == Link(c[|c| - 2 - i], c[|c| - 1 - i])
  {
    if |c| == 1 then [] else LinksOf(c[1..]) + [Link(c[0], c[1])]
  }

  lemma LinksOfChain(tree: Tree, links: seq<Link>, ok: string -> bool, c: seq<string>)
    requires Pending(tree, links) && IsChain(tree, links, ok, c)
    ensures DistinctPaths(LinksOf(c)) && forall l | l in LinksOf(c) :: l in links
  {
    hide Can, Pending;
    var r := LinksOf(c);
    forall i, j | 0 <= i < j < |r| ensures r[i].path != r[j].path {
      var a, b := |c| - 2 - i, |c| - 2 - j;
      ChainFrom(tree, links, ok, c, a);
      ChainFrom(tree, links, ok, c, b);
      if c[a] == c[b] { ChainsAgree(tree, links, ok, c[a..], c[b..]); }
    }
  }

  lemma {:induction false} SweepAppend(a: seq<Link>, b: seq<Link>, now: Tree, ok: string -> bool)
    ensures Sweep(a + b, now, ok) == Sweep(b, Sweep(a, now, ok), ok)
    decreases |a|
  {
    hide Handled;
    if a == [] {
      assert a + b == b;
    } else {
      assert (a + b)[1..] == a[1..] + b;
      SweepAppend(a[1..], b, Handled(now, a[0], ok), ok);
    }
  }

  /** Handled in that order, the links of a clean chain are all copied, and nothing else is. */
  lemma {:induction false} ChainIsCopied(tree: Tree, links: seq<Link>, ok: string -> bool, c: seq<string>)
    requires Pending(tree, links) && IsChain(tree, links, ok, c) && (|c| > 1 ==> Clean(tree, links, ok, c))
    ensures var t := Sweep(LinksOf(c), tree, ok);
      Sound(tree, links, ok, t) && IsFile(t, c[0]) && forall p | p in t && p !in tree :: p in Heads(c)
    decreases |c|
  {
    hide Pending, Can, Above, Explained;
    if |c| <= 1 {
    } else {
      var d, l := c[1..], Link(c[0], c[1]);
      ChainFrom(tree, links, ok, c, 1);
      ChainIsCopied(tree, links, ok, d);
      var t := Sweep(LinksOf(d), tree, ok);
      SweepAppend(LinksOf(d), [l], tree, ok);
      assert Sweep([l], t, ok) == Handled(t, l, ok) by { assert [l][1..] == []; }
      HandledIsSound(tree, links, ok, t, l);
      FitsAfter(tree, links, ok, c, t);
    }
  }

  lemma FitsAfter(tree: Tree, links: seq<Link>, ok: string -> bool, c: seq<string>, t: Tree)
    requires Clean(tree, links, ok, c) && Sound(tree, links, ok, t)
    requires forall p | p in t && p !in tree :: p in Heads(c[1..])
    ensures Can(t, ok, c[0]) && forall p | p in Heads(c[1..]) :: p in Heads(c)
  {
    hide Above, Explained;
    assert Can(tree, ok, c[0]);
    assert Heads(c) == [c[0]] + Heads(c[1..]);
    forall q | q in t && q !in tree ensures !Above(c[0], q) && !Above(q, c[0]) && t[q].Regular? {
      var k :| 0 <= k < |Heads(c[1..])| && Heads(c[1..])[k] == q;
      assert c[k + 1] == q;
    }
  }

  /** What is left of the links without those in front. */
  lemma {:induction false} Others(links: seq<Link>, front: seq<Link>) returns (rest: seq<Link>)
    requires DistinctPaths(links)
    ensures DistinctPaths(rest) && forall l :: l in rest <==> l in links && l !in front
    decreases |links|
  {
    hide DistinctPaths;
    if links == [] {
      rest := [];
      assert DistinctPaths([]) by { FirstApart(Link("", ""), []); }
    } else {
      assert links == [links[0]] + links[1..];
      FirstApart(links[0], links[1..]);
      rest := Others(links[1..], front);
      FirstApart(links[0], rest);
      if links[0] !in front { rest := [links[0]] + rest; }
    }
  }

  lemma FirstApart(l: Link, rest: seq<Link>)
    ensures DistinctPaths([l] + rest) <==> DistinctPaths(rest) && forall k | k in rest :: k.path != l.path
    ensures rest == [] ==> DistinctPaths(rest)
  {
    var all := [l] + rest;
    assert all[0] == l && forall i | 0 <= i < |rest| :: all[i + 1] == rest[i];
  }

  /** Every name with a clean chain becomes a file in some order. */
  lemma SomeOrderCopies(tree: Tree, links: seq<Link>, ok: string -> bool, c: seq<string>)
    returns (others: seq<Link>)
    requires Pending(tree, links) && Clean(tree, links, ok, c)
    ensures DistinctPaths(others) && SameLinks(links, others) && IsFile(Final(others, tree, ok), c[0])
  {
    var front := LinksOf(c);
    LinksOfChain(tree, links, ok, c);
    var rest := Others(links, front);
    others := front + rest;
    ChainIsCopied(tree, links, ok, c);
    hide Clean, Sound, Sweep, Can, LinksOf;
    SweepAppend(front, rest, tree, ok);
    SweepKeepsFile(rest, Sweep(front, tree, ok), ok, c[0]);
    FinalKeepsFile(others, tree, ok, c[0]);
    InFront(links, front, rest);
  }

  lemma InFront(links: seq<Link>, front: seq<Link>, rest: seq<Link>)
    requires DistinctPaths(links) && DistinctPaths(front) && DistinctPaths(rest)
    requires (forall l | l in front :: l in links) && forall l :: l in rest <==> l in links && l !in front
    ensures DistinctPaths(front + rest) && SameLinks(links, front + rest)
  {
    var all := front + rest;
    forall i, j | 0 <= i < j < |all| ensures all[i].path != all[j].path {
      if i < |front| <= j {
        assert all[i] in front && all[j] in rest && all[i] in links && all[j] in links && all[i] != all[j];
      }
    }
  }

  lemma {:induction false} FinalKeepsFile(links: seq<Link>, now: Tree, ok: string -> bool, p: string)
    requires IsFile(Sweep(links, now, ok), p)
    ensures IsFile(Final(links, now, ok), p)
    decreases |links|
  {
    hide Sweep, Waiting, IsFile;
    var next, after := Waiting(links, now, ok), Sweep(links, now, ok);
    if |next| == |links| {
      NothingDone(links, now, ok);
    } else {
      SweepKeepsFile(next, after, ok, p);
      FinalKeepsFile(next, after, ok, p);
    }
  }

  // ----- When the order does not matter

  /** Every order of the links gives the same tree. */
  ghost predicate OrderFree(tree: Tree, links: seq<Link>, ok: string -> bool) {
    forall others | DistinctPaths(others) && SameLinks(links, others) ::
      Final(others, tree, ok) == Final(links, tree, ok)
  }

  /** The order of the links is immaterial exactly when no two names with a clean chain lie one
      above the other. */
  lemma OrderFreeExactly(tree: Tree, links: seq<Link>, ok: string -> bool)
    requires Pending(tree, links)
    ensures OrderFree(tree, links, ok) <==> !Conflict(tree, links, ok)
  {
    if Conflict(tree, links, ok) {
      ConflictShows(tree, links, ok);
    } else {
      hide Pending, Conflict, Final, IsOutcome, SameLinks;
      FinalIsOutcome(tree, links, ok);
      forall others | DistinctPaths(others) && SameLinks(links, others)
        ensures Final(others, tree, ok) == Final(links, tree, ok)
      {
        SamePending(tree, links, others, ok);
        FinalIsOutcome(tree, others, ok);
        OutcomeIsUnique(tree, links, others, ok, Final(links, tree, ok), Final(others, tree, ok));
      }
    }
  }

  lemma SamePending(tree: Tree, links: seq<Link>, others: seq<Link>, ok: string -> bool)
    requires Pending(tree, links) && DistinctPaths(others) && SameLinks(links, others)
    ensures Pending(tree, others) && (Conflict(tree, links, ok) <==> Conflict(tree, others, ok))
  {
    SameClean(tree, links, others, ok);
    hide Clean;
    forall i | 0 <= i < |others| ensures !IsFile(tree, others[i].path) {
      assert others[i] in links;
    }
  }

  /** Whichever of two conflicting names is copied, the other one then is not. */
  lemma ConflictShows(tree: Tree, links: seq<Link>, ok: string -> bool)
    requires Pending(tree, links) && Conflict(tree, links, ok)
    ensures !OrderFree(tree, links, ok)
  {
    var c, d :| Clean(tree, links, ok, c) && Clean(tree, links, ok, d) && Above(c[0], d[0]);
    var before := SomeOrderCopies(tree, links, ok, c);
    var after := SomeOrderCopies(tree, links, ok, d);
    assert Link(c[0], c[1]) in links && Link(d[0], d[1]) in links;
    EveryOrderIsSound(tree, links, before, ok);
    hide Clean, Final, Above, Explained;
    assert Final(before, tree, ok) != Final(after, tree, ok);
  }

  /** A link that names a file already there overwrites its contents and keeps its mode; one that
      leads to itself empties it. */
  lemma FileIsOverwritten(tree: Tree, p: string, q: string, ok: string -> bool)
    requires IsFile(tree, p) && IsFile(tree, q) && Can(tree, ok, p)
    ensures Final([Link(p, q)], tree, ok)
         == tree[p := Regular(if p == q then "" else tree[q].data, tree[p].mode)]
  {
    hide Can;
    var l := Link(p, q);
    assert [l][1..] == [];
    assert Waiting([l], tree, ok) == [] && Sweep([l], tree, ok) == Handled(tree, l, ok);
  }

  /** A link above another, both to the same file: whichever comes first is copied. */
  lemma OrderMatters(e: Entry, ok: string -> bool)
    requires e.Regular? && ok("a") && ok("a/b")
    ensures var tree, k, l := map["f" := e], Link("a", "f"), Link("a/b", "f");
      && Final([k, l], tree, ok) == tree["a" := CopyOf(e)]
      && Final([l, k], tree, ok) == tree["a/b" := CopyOf(e)]
  {
    var tree, k, l := map["f" := e], Link("a", "f"), Link("a/b", "f");
    assert "a" + "/" == "a/" && "a/b"[..2] == "a/" && Above("a", "a/b");
    assert !Above("f", "a") && !Above("f", "a/b") && !Above("a", "f") && !Above("a/b", "f") && !Above("a/b", "a") by {
      assert ("f" + "/")[0] == 'f' && "a"[0] == 'a' && "a/b"[0] == 'a';
      assert |"a" + "/"| == 2 && |"a/b" + "/"| == 4 && |"f"| == 1 && |"a"| == 1;
    }
    hide Above;
    var first, second := tree["a" := CopyOf(e)], tree["a/b" := CopyOf(e)];
    assert !Fits(first, "a/b") by { assert "a" in first; }
    assert !Fits(second, "a") by { assert "a/b" in second; }
    TwoLinks(tree, first, k, l, ok);
    TwoLinks(tree, second, l, k, ok);
  }

  lemma TwoLinks(tree: Tree, mid: Tree, k: Link, l: Link, ok: string -> bool)
    requires IsFile(tree, k.resolved) && Handled(tree, k, ok) == mid
    requires IsFile(mid, l.resolved) && Handled(mid, l, ok) == mid
    ensures Final([k, l], tree, ok) == mid
  {
    hide Handled, IsFile;
    assert [k, l][1..] == [l] && [l][1..] == [];
    assert Waiting([l], mid, ok) == [] && Sweep([l], mid, ok) == mid;
    assert Waiting([k, l], tree, ok) == [] && Sweep([k, l], tree, ok) == mid;
  }
}
