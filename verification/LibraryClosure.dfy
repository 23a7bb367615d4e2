/** elfClosure of internal/package/fromdocker.go: the runtime closure of a program inside an
    exported filesystem, breadth first. ELF contents are a function of the resolved path. */
module LibraryClosure {
  import opened Options
  import opened StringSeqs
  import opened Trails
  import opened GuestPaths
  import opened LinkResolve

  /** PT_INTERP, DT_NEEDED and DT_RUNPATH or DT_RPATH, as the dynamic linking chapter of the
      System V gABI defines them. */
  datatype ElfInfo = ElfInfo(interp: string, needed: seq<string>, runpath: seq<string>)

  /** None for a file that cannot be read or is not an ELF file. */
  type ElfReader = string -> Option<ElfInfo>

  const DEFAULT_LIB_DIRS: seq<string> := [
    "/lib/x86_64-linux-gnu", "/usr/lib/x86_64-linux-gnu", "/lib64", "/usr/lib64", "/lib", "/usr/lib",
    "/lib/aarch64-linux-gnu", "/usr/lib/aarch64-linux-gnu", "/usr/local/lib"
  ]

  // ----- Where a library is looked for

  function ReplaceAll(s: string, what: string, value: string): string
    requires what != ""
    decreases |s|
  {
    if s == "" then ""
    else if what <= s then value + ReplaceAll(s[|what|..], what, value)
    else [s[0]] + ReplaceAll(s[1..], what, value)
  }

  function DirOf(p: string): string {
    var parts := SplitAbs(p);
    Rooted(if parts == [] then [] else parts[..|parts| - 1])
  }

  function ExpandOrigin(dir: string, origin: string): string {
    AbsClean(ReplaceAll(ReplaceAll(dir, "${ORIGIN}", origin), "$ORIGIN", origin))
  }

  function ExpandAll(dirs: seq<string>, origin: string): seq<string> {
    seq(|dirs|, i requires 0 <= i < |dirs| => ExpandOrigin(dirs[i], origin))
  }

  function SearchDirs(info: ElfInfo, cur: string): seq<string> {
    ExpandAll(info.runpath, DirOf(cur)) + DEFAULT_LIB_DIRS
  }

  /** path.Join of an absolute directory and a name. */
  function InDir(dir: string, name: string): string { AbsClean(dir + "/" + name) }

  /** The first directory in which the name resolves decides. */
  function FirstIn(index: Index, dirs: seq<string>, name: string): Option<string> {
    if dirs == [] then None
    else if Resolved(index, InDir(dirs[0], name)).Found? then Some(InDir(dirs[0], name))
    else FirstIn(index, dirs[1..], name)
  }

  function Candidate(index: Index, info: ElfInfo, cur: string, soname: string): Option<string> {
    if '/' in soname then Some(soname) else FirstIn(index, SearchDirs(info, cur), soname)
  }

  /** The directories of the run path come first, in order, and then the default ones. */
  lemma SearchesInOrder(info: ElfInfo, cur: seq<string>)
    requires AllNames(cur) && cur != []
    ensures var dirs, own := SearchDirs(info, Rooted(cur)), |info.runpath|;
      && |dirs| == own + 9
      && (forall i | 0 <= i < own :: dirs[i] == ExpandOrigin(info.runpath[i], Rooted(cur[..|cur| - 1])))
      && dirs[own..own + 3] == ["/lib/x86_64-linux-gnu", "/usr/lib/x86_64-linux-gnu", "/lib64"]
      && dirs[own + 3..own + 6] == ["/usr/lib64", "/lib", "/usr/lib"]
      && dirs[own + 6..] == ["/lib/aarch64-linux-gnu", "/usr/lib/aarch64-linux-gnu", "/usr/local/lib"]
  {
    SplitRooted(cur);
    hide ExpandOrigin, SplitAbs, Rooted;
    var own := ExpandAll(info.runpath, Rooted(cur[..|cur| - 1]));
    assert (own + DEFAULT_LIB_DIRS)[|own|..] == DEFAULT_LIB_DIRS;
  }

  /** In each it is the name below the directory that is tried. */
  lemma TriedIn(dir: seq<string>, name: string)
    requires AllNames(dir) && IsName(name)
    ensures InDir(Rooted(dir), name) == Rooted(dir + [name])
  {
    SplitRooted(dir);
    SplitAbsStep(Rooted(dir), name);
  }

  /** $ORIGIN, with or without braces, stands for the directory of the file; other directories are
      taken as they are. */
  lemma OriginExpands(origin: string, rest: string)
    requires '$' !in origin && '$' !in rest
    ensures ExpandOrigin("$ORIGIN" + rest, origin) == AbsClean(origin + rest)
    ensures ExpandOrigin("${ORIGIN}" + rest, origin) == AbsClean(origin + rest)
    ensures ExpandOrigin(rest, origin) == AbsClean(rest)
  {
    hide AbsClean;
    NothingReplaced(rest, "$ORIGIN", origin);
    NothingReplaced(rest, "${ORIGIN}", origin);
    NothingReplaced(origin + rest, "$ORIGIN", origin);
    assert ("${ORIGIN}" + rest)[9..] == rest && ("$ORIGIN" + rest)[7..] == rest;
    BareOrigin(rest, origin);
  }

  lemma {:induction false} NothingReplaced(s: string, what: string, value: string)
    requires '$' !in s && what != "" && what[0] == '$'
    ensures ReplaceAll(s, what, value) == s
  {
    if s == "" {
    } else {
      NothingReplaced(s[1..], what, value);
      assert s[0] in s;
    }
  }

  lemma BareOrigin(rest: string, origin: string)
    requires '$' !in rest
    ensures ReplaceAll("$ORIGIN" + rest, "${ORIGIN}", origin) == "$ORIGIN" + rest
  {
    var s := "$ORIGIN" + rest;
    assert s[1] == 'O' && "${ORIGIN}"[1] == '{';
    assert '$' !in s[1..] by { assert s[1..] == "ORIGIN" + rest; }
    NothingReplaced(s[1..], "${ORIGIN}", origin);
    assert s == [s[0]] + s[1..];
  }

  /** The candidate is in the first directory in which the name resolves. */
  lemma {:induction false} FirstInExactly(index: Index, dirs: seq<string>, name: string, p: string)
    ensures FirstIn(index, dirs, name) == Some(p) <==>
      exists i | 0 <= i < |dirs| :: FirstHit(index, dirs, name, i) && p == InDir(dirs[i], name)
    decreases |dirs|
  {
    hide Resolved, InDir;
    if dirs == [] {
    } else {
      FirstInExactly(index, dirs[1..], name, p);
      var hit := Resolved(index, InDir(dirs[0], name)).Found?;
      assert FirstHit(index, dirs, name, 0) <==> hit;
      forall i | 0 <= i < |dirs| - 1
        ensures FirstHit(index, dirs, name, i + 1) <==> !hit && FirstHit(index, dirs[1..], name, i)
      {
        HitBehind(index, dirs, name, i);
      }
      if i :| 0 <= i < |dirs| && FirstHit(index, dirs, name, i) && p == InDir(dirs[i], name) {
        assert i > 0 ==> FirstHit(index, dirs[1..], name, i - 1) && dirs[1..][i - 1] == dirs[i];
      }
      if i :| 0 <= i < |dirs[1..]| && FirstHit(index, dirs[1..], name, i) && p == InDir(dirs[1..][i], name) {
        assert !hit ==> FirstHit(index, dirs, name, i + 1) && dirs[1..][i] == dirs[i + 1];
      }
    }
  }

  /** The name resolves in directory i and in none before it. */
  ghost predicate FirstHit(index: Index, dirs: seq<string>, name: string, i: nat)
    requires i < |dirs|
  {
    && Resolved(index, InDir(dirs[i], name)).Found?
    && forall j | 0 <= j < i :: !Resolved(index, InDir(dirs[j], name)).Found?
  }

  lemma HitBehind(index: Index, dirs: seq<string>, name: string, i: nat)
    requires i + 1 < |dirs|
    ensures FirstHit(index, dirs, name, i + 1) <==>
      !Resolved(index, InDir(dirs[0], name)).Found? && FirstHit(index, dirs[1..], name, i)
  {
    hide Resolved, InDir;
    assert forall j | 0 <= j <= i :: dirs[1..][j] == dirs[j + 1];
    if FirstHit(index, dirs[1..], name, i) && !Resolved(index, InDir(dirs[0], name)).Found? {
      forall j | 0 <= j < i + 1 ensures !Resolved(index, InDir(dirs[j], name)).Found? {
        if j > 0 { assert dirs[1..][j - 1] == dirs[j]; }
      }
    }
    if FirstHit(index, dirs, name, i + 1) {
      forall j | 0 <= j < i ensures !Resolved(index, InDir(dirs[1..][j], name)).Found? {
        assert dirs[1..][j] == dirs[j + 1];
      }
    }
  }

  /** x is what cur needs directly: its interpreter, or a library under the search order. */
  ghost predicate Needs(index: Index, elf: ElfReader, cur: string, x: string) {
    elf(cur).Some? &&
    var info := elf(cur).value;
    || (info.interp != "" && Resolved(index, info.interp) == Found(x))
    || (exists i | 0 <= i < |info.needed| ::
          var candidate := Candidate(index, info, cur, info.needed[i]);
          candidate.Some? && Resolved(index, candidate.value) == Found(x))
  }

  /** A file needs its interpreter, the libraries it names by path, and for the others the file in the
      first directory of the search order that has the name. */
  lemma NeedsExactly(index: Index, elf: ElfReader, cur: string, x: string)
    ensures Needs(index, elf, cur, x) <==>
      elf(cur).Some? &&
      var info := elf(cur).value;
      || (info.interp != "" && Resolved(index, info.interp) == Found(x))
      || (exists i | 0 <= i < |info.needed| ::
            if '/' in info.needed[i] then Resolved(index, info.needed[i]) == Found(x)
            else HitIs(index, SearchDirs(info, cur), info.needed[i], x))
  {
    if elf(cur).Some? {
      var info := elf(cur).value;
      forall i | 0 <= i < |info.needed|
        ensures var candidate := Candidate(index, info, cur, info.needed[i]);
          candidate.Some? && Resolved(index, candidate.value) == Found(x) <==>
            if '/' in info.needed[i] then Resolved(index, info.needed[i]) == Found(x)
            else HitIs(index, SearchDirs(info, cur), info.needed[i], x)
      {
        CandidateIs(index, info, cur, info.needed[i], x);
      }
    }
    hide Candidate, Resolved, HitIs, SearchDirs;
  }

  /** Behind the name in the first directory that has it is x. */
  ghost predicate HitIs(index: Index, dirs: seq<string>, name: string, x: string) {
    exists i | 0 <= i < |dirs| :: FirstHit(index, dirs, name, i) && Resolved(index, InDir(dirs[i], name)) == Found(x)
  }

  lemma CandidateIs(index: Index, info: ElfInfo, cur: string, soname: string, x: string)
    ensures var candidate := Candidate(index, info, cur, soname);
      candidate.Some? && Resolved(index, candidate.value) == Found(x) <==>
        if '/' in soname then Resolved(index, soname) == Found(x) else HitIs(index, SearchDirs(info, cur), soname, x)
  {
    hide Resolved, InDir, SearchDirs, FirstIn, FirstHit;
    var dirs := SearchDirs(info, cur);
    if '/' !in soname {
      var first := FirstIn(index, dirs, soname);
      if first.Some? { FirstInExactly(index, dirs, soname, first.value); }
      if i :| 0 <= i < |dirs| && FirstHit(index, dirs, soname, i)
              && Resolved(index, InDir(dirs[i], soname)) == Found(x) {
        FirstInExactly(index, dirs, soname, InDir(dirs[i], soname));
      }
      if first.Some? && Resolved(index, first.value) == Found(x) {
        var i :| 0 <= i < |dirs| && FirstHit(index, dirs, soname, i) && first.value == InDir(dirs[i], soname);
      }
    }
  }

  ghost function NeedEdges(index: Index, elf: ElfReader): Edges { (x, y) => Needs(index, elf, x, y) }

  /** start leads to x along direct needs. */
  ghost predicate Reached(index: Index, elf: ElfReader, start: string, x: string) {
    Reachable(NeedEdges(index, elf), {start}, x)
  }

  // ----- The search

  /** Everything resolve can return. */
  ghost function Files(index: Index): set<string> { set p | p in index && index[p] == Regular }

  lemma ResolvedIsFile(index: Index, p: string)
    requires Resolved(index, p).Found?
    ensures Resolved(index, p).path in Files(index)
  {
    var c := ResolveEndsReal(index, p);
  }

  /** What the search keeps: found names are distinct, reachable files. */
  ghost predicate Sound(index: Index, elf: ElfReader, start: string, found: seq<string>) {
    && found != [] && found[0] == start && Distinct(found)
    && forall i | 0 <= i < |found| :: found[i] in Files(index) && Reached(index, elf, start, found[i])
  }

  ghost function Unfound(index: Index, found: seq<string>): set<string> {
    set p | p in Files(index) && p !in found
  }

  /** One frontier entry's contribution: a known name changes nothing. */
  function Added(index: Index, candidate: string, found: seq<string>): seq<string> {
    var r := Resolved(index, candidate);
    if !r.Found? || r.path in found then found else found + [r.path]
  }

  /** Some of cur's needs have been followed up. */
  ghost predicate Grown(index: Index, elf: ElfReader, start: string, before: seq<string>, found: seq<string>) {
    && Sound(index, elf, start, found) && before <= found
    && |Unfound(index, found)| + |found| == |Unfound(index, before)| + |before|
  }

  lemma AddKeeps(index: Index, elf: ElfReader, start: string, cur: string, candidate: string,
                 before: seq<string>, found: seq<string>)
    requires Grown(index, elf, start, before, found) && cur in found
    requires Resolved(index, candidate).Found? ==> Needs(index, elf, cur, Resolved(index, candidate).path)
    ensures Grown(index, elf, start, before, Added(index, candidate, found)) && found <= Added(index, candidate, found)
    ensures Resolved(index, candidate).Found? ==> Resolved(index, candidate).path in Added(index, candidate, found)
  {
    hide Needs, Resolved;
    var r := Resolved(index, candidate);
    if r.Found? && r.path !in found {
      ResolvedIsFile(index, candidate);
      assert Unfound(index, found) == Unfound(index, found + [r.path]) + {r.path};
      assert Reached(index, elf, start, cur);
      ReachNext(NeedEdges(index, elf), {start}, cur, r.path);
    }
  }

  /** The closure `add`: result, seen and queue grow together. */
  method Add(index: Index, candidate: string, result0: seq<string>, seen0: set<string>, queue0: seq<string>)
    returns (result: seq<string>, seen: set<string>, queue: seq<string>)
    requires seen0 == (set x | x in result0)
    ensures result == Added(index, candidate, result0) && seen == (set x | x in result)
    ensures result == result0 + result[|result0|..] && queue == queue0 + result[|result0|..]
  {
    hide Resolved;
    result, seen, queue := result0, seen0, queue0;
    var r := Resolve(index, candidate);
    if !r.Found? || r.path in seen { return; }
    seen := seen + {r.path};
    result := result + [r.path];
    queue := queue + [r.path];
  }

  /** The first directory in which soname resolves, probed in order. */
  method Probe(index: Index, dirs: seq<string>, soname: string) returns (candidate: Option<string>)
    ensures candidate == FirstIn(index, dirs, soname)
  {
    hide Resolved, InDir;
    for i := 0 to |dirs|
      invariant FirstIn(index, dirs, soname) == FirstIn(index, dirs[i..], soname)
    {
      assert dirs[i..][1..] == dirs[i + 1..];
      var r := Resolve(index, InDir(dirs[i], soname));
      if r.Found? { return Some(InDir(dirs[i], soname)); }
    }
    candidate := None;
  }

  /** The file behind a candidate, if any, is in found. */
  ghost predicate Followed(index: Index, candidate: Option<string>, found: seq<string>) {
    candidate.Some? && Resolved(index, candidate.value).Found? ==> Resolved(index, candidate.value).path in found
  }

  function InterpCandidate(info: ElfInfo): Option<string> {
    if info.interp != "" then Some(info.interp) else None
  }

  lemma FollowedAll(index: Index, elf: ElfReader, cur: string, found: seq<string>)
    requires elf(cur).Some?
    requires Followed(index, InterpCandidate(elf(cur).value), found)
    requires forall i | 0 <= i < |elf(cur).value.needed| ::
      Followed(index, Candidate(index, elf(cur).value, cur, elf(cur).value.needed[i]), found)
    ensures forall x | Needs(index, elf, cur, x) :: x in found
  {
    hide Resolved, Candidate;
  }

  /** One round of the outer loop: everything cur needs is found afterwards. */
  method Visit(index: Index, elf: ElfReader, ghost start: string, cur: string, result0: seq<string>,
               seen0: set<string>, queue0: seq<string>)
    returns (result: seq<string>, seen: set<string>, queue: seq<string>)
    requires Sound(index, elf, start, result0) && cur in result0 && seen0 == (set x | x in result0)
    ensures Grown(index, elf, start, result0, result) && seen == (set x | x in result)
    ensures queue == queue0 + result[|result0|..]
    ensures forall x | Needs(index, elf, cur, x) :: x in result
  {
    hide Resolved, Candidate, Sound, Unfound, Needs;
    result, seen, queue := result0, seen0, queue0;
    var e := elf(cur);
    if e.None? {
      FollowedIsNeeded(index, elf, cur);
      return;
    }
    var info := e.value;
    if info.interp != "" {
      FollowedIsNeeded(index, elf, cur);
      AddKeeps(index, elf, start, cur, info.interp, result0, result);
      result, seen, queue := Add(index, info.interp, result, seen, queue);
    }
    var dirs := SearchDirs(info, cur);
    for i := 0 to |info.needed|
      invariant Grown(index, elf, start, result0, result) && seen == (set x | x in result)
      invariant queue == queue0 + result[|result0|..]
      invariant Followed(index, InterpCandidate(info), result)
      invariant forall k | 0 <= k < i :: Followed(index, Candidate(index, info, cur, info.needed[k]), result)
    {
      ghost var before := result;
      result, seen, queue := AddNeeded(index, elf, start, cur, dirs, i, result0, result, seen, queue, queue0);
      assert forall candidate | Followed(index, candidate, before) :: Followed(index, candidate, result);
    }
    FollowedAll(index, elf, cur, result);
  }

  method AddNeeded(index: Index, elf: ElfReader, ghost start: string, cur: string, dirs: seq<string>, i: nat,
                   ghost before: seq<string>, result0: seq<string>, seen0: set<string>, queue0: seq<string>,
                   ghost queueBefore: seq<string>)
    returns (result: seq<string>, seen: set<string>, queue: seq<string>)
    requires elf(cur).Some? && i < |elf(cur).value.needed| && dirs == SearchDirs(elf(cur).value, cur)
    requires Grown(index, elf, start, before, result0) && cur in result0 && seen0 == (set x | x in result0)
    requires queue0 == queueBefore + result0[|before|..]
    ensures Grown(index, elf, start, before, result) && result0 <= result && seen == (set x | x in result)
    ensures queue == queueBefore + result[|before|..]
    ensures Followed(index, Candidate(index, elf(cur).value, cur, elf(cur).value.needed[i]), result)
  {
    hide Resolved, Sound, Unfound, Needs, FirstIn, SearchDirs;
    result, seen, queue := result0, seen0, queue0;
    var soname := elf(cur).value.needed[i];
    var candidate := Some(soname);
    if '/' !in soname {
      candidate := Probe(index, dirs, soname);
    }
    if candidate.Some? {
      FollowedIsNeeded(index, elf, cur);
      AddKeeps(index, elf, start, cur, candidate.value, before, result);
      result, seen, queue := Add(index, candidate.value, result, seen, queue);
    }
  }

  lemma FollowedIsNeeded(index: Index, elf: ElfReader, cur: string)
    ensures elf(cur).None? ==> forall x :: !Needs(index, elf, cur, x)
    ensures elf(cur).Some? ==> forall i | 0 <= i < |elf(cur).value.needed| ::
      var candidate := Candidate(index, elf(cur).value, cur, elf(cur).value.needed[i]);
      candidate.Some? && Resolved(index, candidate.value).Found? ==>
        Needs(index, elf, cur, Resolved(index, candidate.value).path)
    ensures elf(cur).Some? && elf(cur).value.interp != "" ==>
      var r := Resolved(index, elf(cur).value.interp); r.Found? ==> Needs(index, elf, cur, r.path)
  {
    hide Resolved, Candidate;
  }

  /** The program first, no path twice, and exactly the files reachable from the program. */
  ghost predicate IsClosure(index: Index, elf: ElfReader, start: string, found: seq<string>) {
    && found != [] && found[0] == start && Distinct(found)
    && forall x :: x in found <==> Reached(index, elf, start, x)
  }

  method ElfClosure(index: Index, elf: ElfReader, binPath: string) returns (r: Option<seq<string>>)
    ensures r.Some? <==> Resolved(index, binPath).Found?
    ensures r.Some? ==> IsClosure(index, elf, Resolved(index, binPath).path, r.value)
  {
    hide Resolved, Needs, Sound, Unfound;
    var first := Resolve(index, binPath);
    if !first.Found? { return None; }
    var start := first.path;
    var result, seen, queue := [start], {start}, [start];
    StartIsSound(index, elf, binPath);
    var n := 0;
    while |queue| > 0
      invariant Sound(index, elf, start, result) && seen == (set x | x in result)
      invariant 0 <= n <= |result| && queue == result[n..]
      invariant forall j, x | 0 <= j < n && Needs(index, elf, result[j], x) :: x in result
      decreases |Unfound(index, result)| + |queue|
    {
      var cur := queue[0];
      assert cur == result[n];
      ghost var before := result;
      result, seen, queue := Visit(index, elf, start, cur, result, seen, queue[1..]);
      assert queue == result[n + 1..];
      forall j, x | 0 <= j < n + 1 && Needs(index, elf, result[j], x) ensures x in result {
        assert result[j] == before[j];
        if j < n { assert x in before; }
      }
      n := n + 1;
    }
    SearchIsClosure(index, elf, start, result);
    r := Some(result);
  }

  lemma StartIsSound(index: Index, elf: ElfReader, p: string)
    requires Resolved(index, p).Found?
    ensures Sound(index, elf, Resolved(index, p).path, [Resolved(index, p).path])
  {
    hide Needs;
    var start := Resolved(index, p).path;
    ResolvedIsFile(index, p);
    hide Resolved;
    ReachStart(NeedEdges(index, elf), {start}, start);
  }

  lemma SearchIsClosure(index: Index, elf: ElfReader, start: string, found: seq<string>)
    requires Sound(index, elf, start, found)
    requires forall j, x | 0 <= j < |found| && Needs(index, elf, found[j], x) :: x in found
    ensures IsClosure(index, elf, start, found)
  {
    hide Needs;
    forall x | Reached(index, elf, start, x) ensures x in found {
      ClosedHoldsAll(NeedEdges(index, elf), {start}, Elems(found), x);
    }
  }
}
