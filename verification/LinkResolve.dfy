/** containerFS.resolve of internal/package/fromdocker.go: following links component by
    component against an index of the exported filesystem. */
module LinkResolve {
  import opened GuestPaths

  const MAX_HOPS := 40

  datatype Kind = Regular | Link(target: string) | Other

  /** Clean absolute path to entry. */
  type Index = map<string, Kind>

  datatype Outcome =
    | Found(path: string)
    | NotFound(path: string)
    | TooManyHops
    | NotADirectory(path: string)
    | NotAFile(path: string)

  function Finish(index: Index, out: seq<string>): Outcome {
    var final := Rooted(out);
    if final !in index then NotFound(final) else if index[final] != Regular then NotAFile(final) else Found(final)
  }

  /** The components a link restarts the walk from. */
  function LinkBase(out: seq<string>, target: string): seq<string> {
    if "/" <= target then SplitAbs(target) else out + SplitAbs(target)
  }

  /** The walk with `rest` still to come, `out` resolved, and `hops` links followed. */
  function Walk(index: Index, rest: seq<string>, out: seq<string>, hops: nat): Outcome
    requires hops <= MAX_HOPS
    decreases MAX_HOPS - hops, |rest|
  {
    if rest == [] then Finish(index, out)
    else
      var part := rest[0];
      if part == "" || part == "." then Walk(index, rest[1..], out, hops)
      else if part == ".." then Walk(index, rest[1..], if out == [] then [] else out[..|out| - 1], hops)
      else
        var cur := Rooted(out + [part]);
        if cur !in index then
          if |rest| == 1 then NotFound(cur) else Walk(index, rest[1..], out + [part], hops)
        else
          match index[cur]
          case Link(target) =>
            if hops == MAX_HOPS then TooManyHops
            else Walk(index, LinkBase(out, target) + rest[1..], [], hops + 1)
          case Regular =>
            if |rest| != 1 then NotADirectory(cur) else Finish(index, out + [part])
          case Other => Walk(index, rest[1..], out + [part], hops)
  }

  function Resolved(index: Index, p: string): Outcome { Walk(index, SplitAbs(p), [], 0) }

  /** The loop: work and i move forward, and a link rewrites work and starts over. */
  method Resolve(index: Index, p: string) returns (r: Outcome)
    ensures r == Resolved(index, p)
  {
    var work := SplitAbs(p);
    var out: seq<string> := [];
    var hops := 0;
    var i := 0;
    assert work[0..] == work;
    while i < |work|
      invariant 0 <= i <= |work| && hops <= MAX_HOPS
      invariant Walk(index, work[i..], out, hops) == Resolved(index, p)
      decreases MAX_HOPS - hops, |work| - i
    {
      var part := work[i];
      assert work[i..][1..] == work[i + 1..];
      if part == "" || part == "." {
      } else if part == ".." {
        if |out| > 0 { out := out[..|out| - 1]; }
      } else {
        var cur := Rooted(out + [part]);
        if cur !in index {
          if i == |work| - 1 { return NotFound(cur); }
          out := out + [part];
        } else {
          match index[cur]
          case Link(target) =>
            if hops + 1 > MAX_HOPS { return TooManyHops; }
            hops := hops + 1;
            work := LinkBase(out, target) + work[i + 1..];
            out := [];
            i := -1;
            assert work[0..] == work;
          case Regular =>
            if i != |work| - 1 { return NotADirectory(cur); }
            out := out + [part];
          case Other =>
            out := out + [part];
        }
      }
      i := i + 1;
    }
    assert work[i..] == [];
    r := Finish(index, out);
  }

  // ----- What the result is

  /** c[..k], for 1 <= k <= |c|, passes for a directory. */
  ghost predicate Solid(index: Index, c: seq<string>) {
    && AllNames(c)
    && forall k | 1 <= k <= |c| :: Rooted(c[..k]) in index ==> index[Rooted(c[..k])].Other?
  }

  /** c names a regular file and no proper prefix of it is a link or a file. */
  ghost predicate IsReal(index: Index, c: seq<string>) {
    && AllNames(c) && Rooted(c) in index && index[Rooted(c)] == Regular
    && forall k | 1 <= k < |c| :: Rooted(c[..k]) in index ==> index[Rooted(c[..k])].Other?
  }

  lemma SolidPop(index: Index, c: seq<string>)
    requires Solid(index, c) && c != []
    ensures Solid(index, c[..|c| - 1])
  {
    var d := c[..|c| - 1];
    forall k | 1 <= k <= |d| ensures Rooted(d[..k]) in index ==> index[Rooted(d[..k])].Other? {
      assert d[..k] == c[..k];
    }
  }

  lemma SolidPush(index: Index, c: seq<string>, part: string)
    requires Solid(index, c) && IsName(part)
    ensures (Rooted(c + [part]) in index ==> index[Rooted(c + [part])].Other?) ==> Solid(index, c + [part])
    ensures Rooted(c + [part]) in index && index[Rooted(c + [part])] == Regular ==> IsReal(index, c + [part])
  {
    var d := c + [part];
    forall k | 1 <= k < |d| ensures Rooted(d[..k]) in index ==> index[Rooted(d[..k])].Other? {
      assert d[..k] == c[..k];
    }
    assert d[..|d|] == d;
  }

  /** A walk that succeeds ends at a real file. */
  lemma {:induction false} WalkEndsReal(index: Index, rest: seq<string>, out: seq<string>, hops: nat)
    returns (c: seq<string>)
    requires hops <= MAX_HOPS && AllNoSlash(rest) && Solid(index, out)
    ensures Walk(index, rest, out, hops).Found? ==> IsReal(index, c) && Walk(index, rest, out, hops) == Found(Rooted(c))
    decreases MAX_HOPS - hops, |rest|
  {
    c := out;
    if rest == [] {
      assert out[..|out|] == out;
    } else {
      var part := rest[0];
      hide Rooted, Solid, IsReal, SplitAbs;
      if part == "" || part == "." {
        c := WalkEndsReal(index, rest[1..], out, hops);
      } else if part == ".." {
        if out != [] { SolidPop(index, out); }
        c := WalkEndsReal(index, rest[1..], if out == [] then [] else out[..|out| - 1], hops);
      } else {
        c := WalkEndsRealAt(index, rest, out, hops);
      }
    }
  }

  lemma {:induction false} WalkEndsRealAt(index: Index, rest: seq<string>, out: seq<string>, hops: nat)
    returns (c: seq<string>)
    requires hops <= MAX_HOPS && AllNoSlash(rest) && Solid(index, out)
    requires rest != [] && rest[0] != "" && rest[0] != "." && rest[0] != ".."
    ensures Walk(index, rest, out, hops).Found? ==> IsReal(index, c) && Walk(index, rest, out, hops) == Found(Rooted(c))
    decreases MAX_HOPS - hops, |rest|, 0
  {
    assert Solid(index, []) && AllNoSlash(out);
    hide Rooted, Solid, IsReal, SplitAbs;
    var part := rest[0];
    var cur := Rooted(out + [part]);
    SolidPush(index, out, part);
    c := out + [part];
    if cur in index && index[cur].Link? {
      if hops < MAX_HOPS {
        var base := LinkBase(out, index[cur].target);
        SplitAbsNames(index[cur].target);
        c := WalkEndsReal(index, base + rest[1..], [], hops + 1);
      }
    } else if cur !in index || index[cur].Other? {
      c := WalkEndsReal(index, rest[1..], out + [part], hops);
    }
  }

  /** On success the result is a regular file, and no prefix of it is a link. */
  lemma ResolveEndsReal(index: Index, p: string) returns (c: seq<string>)
    ensures Resolved(index, p).Found? ==> IsReal(index, c) && Resolved(index, p) == Found(Rooted(c))
  {
    SplitAbsNames(p);
    c := WalkEndsReal(index, SplitAbs(p), [], 0);
  }

  /** Walking along a real file goes straight to it. */
  lemma {:induction false} WalkReal(index: Index, c: seq<string>, k: nat, hops: nat)
    requires IsReal(index, c) && k <= |c| && hops <= MAX_HOPS
    ensures Walk(index, c[k..], c[..k], hops) == Found(Rooted(c))
    decreases |c| - k
  {
    if k == |c| {
      assert c[k..] == [] && c[..k] == c;
    } else {
      assert IsName(c[k]) && c[k..][0] == c[k];
      assert c[..k] + [c[k]] == c[..k + 1] && c[k..][1..] == c[k + 1..];
      if k + 1 == |c| {
        assert c[..k + 1] == c;
      } else {
        WalkReal(index, c, k + 1, hops);
      }
    }
  }

  /** Resolving a real file returns it. */
  lemma RealResolves(index: Index, c: seq<string>)
    requires IsReal(index, c)
    ensures Resolved(index, Rooted(c)) == Found(Rooted(c))
  {
    SplitRooted(c);
    WalkReal(index, c, 0, 0);
    assert c[0..] == c && c[..0] == [];
  }

  /** So resolving again returns the same path, and the resolvable results are exactly the
      real files. */
  lemma ResolveIsIdempotent(index: Index, p: string)
    requires Resolved(index, p).Found?
    ensures Resolved(index, Resolved(index, p).path) == Resolved(index, p)
  {
    var c := ResolveEndsReal(index, p);
    RealResolves(index, c);
  }

  // ----- Links that lead round in a circle

  /** c names a link, and no proper prefix of it is a link or a file. */
  ghost predicate IsLinkAt(index: Index, c: seq<string>) {
    && c != [] && AllNames(c) && Rooted(c) in index && index[Rooted(c)].Link?
    && forall k | 1 <= k < |c| :: Rooted(c[..k]) in index ==> index[Rooted(c[..k])].Other?
  }

  /** Where the link at c leads. */
  ghost function LeadsTo(index: Index, c: seq<string>): seq<string>
    requires IsLinkAt(index, c)
  {
    LinkBase(c[..|c| - 1], index[Rooted(c)].target)
  }

  /** Each link leads to one of the set, or to something below one. */
  ghost predicate Circular(index: Index, links: set<seq<string>>) {
    forall c | c in links :: IsLinkAt(index, c) && LeadsInto(index, c, links)
  }

  ghost predicate LeadsInto(index: Index, c: seq<string>, links: set<seq<string>>)
    requires IsLinkAt(index, c)
  {
    exists d :: d in links && d <= LeadsTo(index, c)
  }

  lemma {:induction false} WalkToLink(index: Index, c: seq<string>, rest: seq<string>, k: nat, hops: nat)
    requires IsLinkAt(index, c) && k < |c| && hops <= MAX_HOPS
    ensures Walk(index, c[k..] + rest, c[..k], hops)
         == if hops == MAX_HOPS then TooManyHops else Walk(index, LeadsTo(index, c) + rest, [], hops + 1)
    decreases |c| - k
  {
    hide Rooted, SplitAbs;
    var work := c[k..] + rest;
    assert IsName(c[k]) && work[0] == c[k] && work[1..] == c[k + 1..] + rest;
    assert c[..k] + [c[k]] == c[..k + 1];
    if k + 1 == |c| {
      assert c[..k + 1] == c && work[1..] == rest;
    } else {
      WalkToLink(index, c, rest, k + 1, hops);
    }
  }

  lemma FollowLink(index: Index, c: seq<string>, rest: seq<string>, hops: nat)
    requires IsLinkAt(index, c) && hops <= MAX_HOPS
    ensures Walk(index, c + rest, [], hops)
         == if hops == MAX_HOPS then TooManyHops else Walk(index, LeadsTo(index, c) + rest, [], hops + 1)
  {
    hide Walk, LeadsTo;
    assert c[0..] == c && c[..0] == [];
    WalkToLink(index, c, rest, 0, hops);
  }

  lemma {:induction false} CircleIsEndless(index: Index, links: set<seq<string>>, c: seq<string>,
                                           rest: seq<string>, hops: nat)
    requires Circular(index, links) && c in links && hops <= MAX_HOPS
    ensures Walk(index, c + rest, [], hops) == TooManyHops
    decreases MAX_HOPS - hops
  {
    hide Walk, LeadsTo, IsLinkAt;
    assert IsLinkAt(index, c) && LeadsInto(index, c, links);
    FollowLink(index, c, rest, hops);
    if hops == MAX_HOPS {
    } else {
      var next := LeadsTo(index, c);
      var d :| d in links && d <= next;
      assert next + rest == d + (next[|d|..] + rest);
      CircleIsEndless(index, links, d, next[|d|..] + rest, hops + 1);
    }
  }

  /** Any path through a link of a circle, of whatever length and spelling, is refused. */
  lemma LoopIsRefused(index: Index, links: set<seq<string>>, c: seq<string>, p: string)
    requires Circular(index, links) && c in links && c <= SplitAbs(p)
    ensures Resolved(index, p) == TooManyHops
  {
    hide Walk, SplitAbs;
    var rest := SplitAbs(p)[|c|..];
    assert SplitAbs(p) == c + rest;
    CircleIsEndless(index, links, c, rest, 0);
  }

  /** The bound only ever turns an answer into TooManyHops: with more hops to spare the walk
      gives the same answer. */
  lemma {:induction false} BoundOnlyRefuses(index: Index, rest: seq<string>, out: seq<string>, hops: nat, fewer: nat)
    requires fewer <= hops <= MAX_HOPS && !Walk(index, rest, out, hops).TooManyHops?
    ensures Walk(index, rest, out, fewer) == Walk(index, rest, out, hops)
    decreases MAX_HOPS - hops, |rest|
  {
    if rest == [] {
    } else {
      var part := rest[0];
      if part == "" || part == "." {
        BoundOnlyRefuses(index, rest[1..], out, hops, fewer);
      } else if part == ".." {
        BoundOnlyRefuses(index, rest[1..], if out == [] then [] else out[..|out| - 1], hops, fewer);
      } else {
        var cur := Rooted(out + [part]);
        if cur in index && index[cur].Link? {
          BoundOnlyRefuses(index, LinkBase(out, index[cur].target) + rest[1..], [], hops + 1, fewer + 1);
        } else if (cur !in index && |rest| > 1) || (cur in index && index[cur].Other?) {
          BoundOnlyRefuses(index, rest[1..], out + [part], hops, fewer);
        }
      }
    }
  }

  // ----- Where a link leads

  /** A link is followed to its target: in the directory of the link if the target is relative, and
      from the root if it is absolute. */
  lemma LinkLeads(index: Index, c: seq<string>, t: seq<string>, rest: seq<string>)
    requires IsLinkAt(index, c) && AllNames(t)
    ensures index[Rooted(c)].target == Join(t) && IsReal(index, c[..|c| - 1] + t + rest) ==>
      Resolved(index, Rooted(c + rest)) == Found(Rooted(c[..|c| - 1] + t + rest))
    ensures index[Rooted(c)].target == Rooted(t) && IsReal(index, t + rest) ==>
      Resolved(index, Rooted(c + rest)) == Found(Rooted(t + rest))
  {
    var target, dir := index[Rooted(c)].target, c[..|c| - 1];
    SplitJoined(t);
    SplitRooted(t);
    hide Rooted, Join, SplitAbs, IsReal;
    if target == Join(t) && IsReal(index, dir + t + rest) {
      OneHop(index, c, dir + t, rest);
    }
    assert "/" <= Rooted(t) by { StartsAtRoot(t); }
    if target == Rooted(t) && IsReal(index, t + rest) {
      OneHop(index, c, t, rest);
    }
  }

  lemma StartsAtRoot(t: seq<string>)
    ensures "/" <= Rooted(t)
  {
  }

  lemma OneHop(index: Index, c: seq<string>, base: seq<string>, rest: seq<string>)
    requires IsLinkAt(index, c) && LeadsTo(index, c) == base && IsReal(index, base + rest)
    ensures Resolved(index, Rooted(c + rest)) == Found(Rooted(base + rest))
  {
    var d := base + rest;
    assert AllNames(c + rest) by {
      forall i | 0 <= i < |rest| ensures IsName(rest[i]) { assert d[|base| + i] == rest[i]; }
    }
    SplitRooted(c + rest);
    hide Rooted, LeadsTo;
    FollowLink(index, c, rest, 0);
    WalkReal(index, d, 0, 1);
    assert d[0..] == d && d[..0] == [];
  }

  /** Each link of the chain leads to the next, and the last to d. */
  ghost predicate IsLinkChain(index: Index, chain: seq<seq<string>>, d: seq<string>) {
    chain != [] ==>
      && IsLinkAt(index, chain[0]) && IsLinkChain(index, chain[1..], d)
      && LeadsTo(index, chain[0]) == if |chain| == 1 then d else chain[1]
  }

  lemma {:induction false} WalkChain(index: Index, chain: seq<seq<string>>, d: seq<string>, hops: nat)
    requires IsLinkChain(index, chain, d) && chain != [] && IsReal(index, d) && hops <= MAX_HOPS
    ensures Walk(index, chain[0], [], hops)
         == if hops + |chain| <= MAX_HOPS then Found(Rooted(d)) else TooManyHops
    decreases |chain|
  {
    hide Walk, IsReal, LeadsTo, IsLinkAt, Rooted;
    var c, next := chain[0], if |chain| == 1 then d else chain[1];
    assert c + [] == c && next + [] == next;
    FollowLink(index, c, [], hops);
    if hops == MAX_HOPS {
    } else if |chain| == 1 {
      WalkReal(index, d, 0, hops + 1);
      assert d[0..] == d && d[..0] == [];
    } else {
      WalkChain(index, chain[1..], d, hops + 1);
    }
  }

  /** A chain of links to a file is followed exactly up to 40 of them. */
  lemma ChainResolves(index: Index, chain: seq<seq<string>>, d: seq<string>)
    requires IsLinkChain(index, chain, d) && chain != [] && IsReal(index, d)
    ensures Resolved(index, Rooted(chain[0])) == if |chain| <= 40 then Found(Rooted(d)) else TooManyHops
  {
    assert IsLinkAt(index, chain[0]);
    SplitRooted(chain[0]);
    hide Walk, IsReal, LeadsTo, SplitAbs, Rooted;
    WalkChain(index, chain, d, 0);
  }

  /** path.Join of a directory and a target, as the kernel reads a link. */
  ghost function Joined(dir: seq<string>, target: string): seq<string> {
    if "/" <= target then SplitAbs(target) else Cleaned(Split(target), dir)
  }

  /** How often the components, taken by themselves, go up from where they started. */
  function Climb(parts: seq<string>, depth: nat): nat {
    if parts == [] then 0
    else if parts[0] == "" || parts[0] == "." then Climb(parts[1..], depth)
    else if parts[0] != ".." then Climb(parts[1..], depth + 1)
    else if depth > 0 then Climb(parts[1..], depth - 1)
    else 1 + Climb(parts[1..], 0)
  }

  function Up(dir: seq<string>, n: nat): seq<string> { if n >= |dir| then [] else dir[..|dir| - n] }

  lemma {:induction false} CleanedBelow(parts: seq<string>, dir: seq<string>, done: seq<string>)
    ensures Cleaned(parts, dir + done) == Up(dir, Climb(parts, |done|)) + Cleaned(parts, done)
    decreases |parts|
  {
    if parts == [] {
    } else if parts[0] == "" || parts[0] == "." {
      CleanedBelow(parts[1..], dir, done);
    } else if parts[0] != ".." {
      assert dir + done + [parts[0]] == dir + (done + [parts[0]]);
      CleanedBelow(parts[1..], dir, done + [parts[0]]);
    } else if done != [] {
      assert (dir + done)[..|dir + done| - 1] == dir + done[..|done| - 1];
      CleanedBelow(parts[1..], dir, done[..|done| - 1]);
    } else {
      var up := Up(dir, 1);
      assert dir + done == dir && up + [] == up;
      CleanedBelow(parts[1..], up, []);
      assert Up(up, Climb(parts[1..], 0)) == Up(dir, Climb(parts, 0));
    }
  }

  /** The walk goes on where the kernel would exactly unless a relative target climbs out of the
      directory of its link: the upward steps are lost. */
  lemma TargetExactly(dir: seq<string>, target: string)
    ensures LinkBase(dir, target) == Joined(dir, target)
       <==> "/" <= target || dir == [] || Climb(Split(target), 0) == 0
    ensures !("/" <= target) ==> Joined(dir, target) == Up(dir, Climb(Split(target), 0)) + SplitAbs(target)
  {
    hide Split, Cleaned, Climb;
    CleanedBelow(Split(target), dir, []);
    assert dir + [] == dir;
    var up := Up(dir, Climb(Split(target), 0));
    if up != dir {
      assert |up + SplitAbs(target)| < |dir + SplitAbs(target)|;
    }
  }

  /** So a link at c to ../t is followed to t beside the link, and not beside its directory. */
  lemma ClimbIsLost(index: Index, c: seq<string>, t: seq<string>)
    requires IsLinkAt(index, c) && AllNames(t) && index[Rooted(c)].target == Join([".."] + t)
    requires IsReal(index, c[..|c| - 1] + t)
    ensures Resolved(index, Rooted(c)) == Found(Rooted(c[..|c| - 1] + t))
  {
    SplitJoined(t);
    hide Rooted, Join, SplitAbs, IsReal;
    assert c + [] == c && c[..|c| - 1] + t + [] == c[..|c| - 1] + t;
    OneHop(index, c, c[..|c| - 1] + t, []);
  }

  // ----- Paths that do not resolve

  lemma {:induction false} WalkSolid(index: Index, c: seq<string>, k: nat, rest: seq<string>, hops: nat)
    requires Solid(index, c) && k <= |c| && rest != [] && hops <= MAX_HOPS
    ensures Walk(index, c[k..] + rest, c[..k], hops) == Walk(index, rest, c, hops)
    decreases |c| - k
  {
    var work := c[k..] + rest;
    if k == |c| {
      assert work == rest && c[..k] == c;
    } else {
      assert IsName(c[k]) && work[0] == c[k] && work[1..] == c[k + 1..] + rest;
      assert c[..k] + [c[k]] == c[..k + 1];
      hide Rooted;
      assert Rooted(c[..k + 1]) in index ==> index[Rooted(c[..k + 1])].Other?;
      WalkSolid(index, c, k + 1, rest, hops);
    }
  }

  /** Without a link on the way: a missing file is not found, a directory is no file, and nothing lies
      below a file. */
  lemma RefusedExactly(index: Index, c: seq<string>, name: string, rest: seq<string>)
    requires Solid(index, c) && IsName(name) && AllNames(rest)
    ensures var p := Rooted(c + [name]);
      && (p !in index ==> Resolved(index, p) == NotFound(p))
      && (p in index && index[p].Other? ==> Resolved(index, p) == NotAFile(p))
      && (p in index && index[p].Regular? && rest != [] ==>
            Resolved(index, Rooted(c + [name] + rest)) == NotADirectory(p))
  {
    var d := c + [name];
    SplitRooted(d);
    SplitRooted(d + rest);
    hide Rooted, SplitAbs;
    assert c[0..] == c && c[..0] == [];
    WalkSolid(index, c, 0, [name], 0);
    assert d + rest == c + ([name] + rest) && [name][1..] == [] && ([name] + rest)[1..] == rest;
    WalkSolid(index, c, 0, [name] + rest, 0);
  }
}
