/** The library check of internal/preflight/preflight.go: which DT_NEEDED names, reached from
    the program through the image's own files, the image cannot supply. */
module Preflight {
  import opened Options
  import opened StringSeqs
  import opened Trails
  import opened GuestPaths

  datatype File = File(hostPath: string, guestPath: string, isDir: bool)

  // ----- The guest tree

  datatype GuestTree = GuestTree(byPath: map<string, File>, byBase: map<string, seq<File>>)

  function TrimSlash(s: string): string { if "/" <= s then s[1..] else s }

  /** The slash-separated path under which a file is indexed. */
  function KeyOf(f: File): string {
    TrimSlash(if f.guestPath == "" then Base(f.hostPath) else f.guestPath)
  }

  /** A guest path is indexed the same with and without a leading slash; without one the base name of
      the host path stands in. */
  lemma KeyIs(f: File, parts: seq<string>)
    requires AllNames(parts) && parts != []
    ensures f.guestPath == Join(parts) || f.guestPath == Rooted(parts) ==> KeyOf(f) == Join(parts)
    ensures f.guestPath == "" && f.hostPath == Rooted(parts) ==> KeyOf(f) == parts[|parts| - 1]
  {
    hide Base, Join, SplitAbs, Rooted;
    SplitJoined(parts);
    var front, x := parts[..|parts| - 1], parts[|parts| - 1];
    assert front + [x] == parts;
    BaseIs(front, x);
    TrimIs(parts);
    assert IsName(x) && x[0] in x;
  }

  lemma TrimIs(parts: seq<string>)
    ensures TrimSlash(Rooted(parts)) == Join(parts) && Rooted(parts) != ""
    ensures AllNames(parts) && parts != [] ==> Join(parts) != ""
  {
    assert Rooted(parts)[1..] == Join(parts);
    if AllNames(parts) && parts != [] { assert IsName(parts[0]); }
  }

  /** cleanGuestPath */
  function CleanGuestPath(ref: string): string { Join(SplitAbs(ref)) }

  function Bucket(t: GuestTree, base: string): seq<File> {
    if base in t.byBase then t.byBase[base] else []
  }

  /** The plain files whose path has the given base name, in order. */
  function WithBase(files: seq<File>, base: string): seq<File> {
    if files == [] then []
    else
      var rest := WithBase(files[..|files| - 1], base);
      var f := files[|files| - 1];
      if !f.isDir && Base(KeyOf(f)) == base then rest + [f] else rest
  }

  /** The last plain file with the given path. */
  function WithKey(files: seq<File>, key: string): Option<File> {
    if files == [] then None
    else
      var f := files[|files| - 1];
      if !f.isDir && KeyOf(f) == key then Some(f) else WithKey(files[..|files| - 1], key)
  }

  ghost predicate Indexes(t: GuestTree, files: seq<File>) {
    && (forall key :: (if key in t.byPath then Some(t.byPath[key]) else None) == WithKey(files, key))
    && (forall base :: Bucket(t, base) == WithBase(files, base))
  }

  method NewGuestTree(files: seq<File>) returns (t: GuestTree)
    ensures Indexes(t, files)
  {
    t := GuestTree(map[], map[]);
    for i := 0 to |files|
      invariant Indexes(t, files[..i])
    {
      var f := files[i];
      assert files[..i + 1][..i] == files[..i];
      ghost var before := t;
      if !f.isDir {
        hide KeyOf, Base;
        var gp := KeyOf(f);
        var base := Base(gp);
        t := GuestTree(t.byPath[gp := f], t.byBase[base := Bucket(t, base) + [f]]);
        AddFile(before, files[..i], f, t);
      } else {
        assert (files[..i] + [f])[..i] == files[..i];
      }
      assert files[..i + 1] == files[..i] + [f];
    }
    assert files[..|files|] == files;
  }

  lemma AddFile(before: GuestTree, files: seq<File>, f: File, t: GuestTree)
    requires Indexes(before, files) && !f.isDir
    requires t.byPath == before.byPath[KeyOf(f) := f]
    requires t.byBase == before.byBase[Base(KeyOf(f)) := Bucket(before, Base(KeyOf(f))) + [f]]
    ensures Indexes(t, files + [f])
  {
    hide KeyOf, Base;
    var all := files + [f];
    assert all[..|all| - 1] == files;
    forall base ensures Bucket(t, base) == WithBase(all, base) {
      assert Bucket(before, base) == WithBase(files, base);
    }
  }

  /** lookup: by exact path first, then by base name. */
  function Lookup(t: GuestTree, ref: string): Option<string> {
    var clean := CleanGuestPath(ref);
    if clean in t.byPath then Some(t.byPath[clean].hostPath)
    else
      var fs := Bucket(t, Base(clean));
      if |fs| > 0 then Some(fs[0].hostPath) else None
  }

  predicate Supplies(f: File, clean: string) {
    !f.isDir && (KeyOf(f) == clean || Base(KeyOf(f)) == Base(clean))
  }

  /** The image supplies a name exactly when some plain file has its path or its base name. */
  lemma LookupFinds(t: GuestTree, files: seq<File>, ref: string)
    requires Indexes(t, files)
    ensures Lookup(t, ref).Some? <==> exists i | 0 <= i < |files| :: Supplies(files[i], CleanGuestPath(ref))
  {
    var clean := CleanGuestPath(ref);
    hide KeyOf, Base, CleanGuestPath;
    FindsKey(files, clean);
    FindsBase(files, Base(clean));
    assert Bucket(t, Base(clean)) == WithBase(files, Base(clean));
    assert (if clean in t.byPath then Some(t.byPath[clean]) else None) == WithKey(files, clean);
  }

  /** Of several it is the last file with the path, or else the first with the base name. */
  lemma LookupPicks(t: GuestTree, files: seq<File>, ref: string, i: nat)
    requires Indexes(t, files) && i < |files| && !files[i].isDir
    ensures var clean := Join(SplitAbs(ref));
      && (KeyOf(files[i]) == clean && (forall j | i < j < |files| && !files[j].isDir :: KeyOf(files[j]) != clean) ==>
            Lookup(t, ref) == Some(files[i].hostPath))
      && (Base(KeyOf(files[i])) == Base(clean)
          && (forall j | 0 <= j < |files| && !files[j].isDir :: KeyOf(files[j]) != clean)
          && (forall j | 0 <= j < i && !files[j].isDir :: Base(KeyOf(files[j])) != Base(clean)) ==>
            Lookup(t, ref) == Some(files[i].hostPath))
  {
    var clean := CleanGuestPath(ref);
    hide KeyOf, Base, Join, SplitAbs;
    FindsKey(files, clean);
    LastWithKey(files, clean, i);
    FirstWithBase(files, Base(clean), i);
    assert Bucket(t, Base(clean)) == WithBase(files, Base(clean));
    assert (if clean in t.byPath then Some(t.byPath[clean]) else None) == WithKey(files, clean);
  }

  lemma {:induction false} LastWithKey(files: seq<File>, key: string, i: nat)
    requires i < |files| && !files[i].isDir
    ensures KeyOf(files[i]) == key && (forall j | i < j < |files| && !files[j].isDir :: KeyOf(files[j]) != key) ==>
      WithKey(files, key) == Some(files[i])
    decreases |files|
  {
    hide KeyOf;
    var front := files[..|files| - 1];
    if i == |files| - 1 {
    } else {
      LastWithKey(front, key, i);
      assert forall j | 0 <= j < |front| :: front[j] == files[j];
    }
  }

  lemma {:induction false} FirstWithBase(files: seq<File>, base: string, i: nat)
    requires i < |files| && !files[i].isDir
    ensures Base(KeyOf(files[i])) == base
            && (forall j | 0 <= j < i && !files[j].isDir :: Base(KeyOf(files[j])) != base) ==>
      WithBase(files, base) != [] && WithBase(files, base)[0] == files[i]
    decreases |files|
  {
    hide KeyOf, Base;
    var front := files[..|files| - 1];
    assert forall j | 0 <= j < |front| :: front[j] == files[j];
    if i == |files| - 1 {
      FindsBase(front, base);
    } else {
      FirstWithBase(front, base, i);
    }
  }

  lemma {:induction false} FindsKey(files: seq<File>, key: string)
    ensures WithKey(files, key).Some? <==> exists i | 0 <= i < |files| :: !files[i].isDir && KeyOf(files[i]) == key
    decreases |files|
  {
    hide KeyOf;
    if files == [] {
    } else {
      var front := files[..|files| - 1];
      FindsKey(front, key);
      assert forall i | 0 <= i < |front| :: front[i] == files[i];
    }
  }

  lemma {:induction false} FindsBase(files: seq<File>, base: string)
    ensures WithBase(files, base) != []
       <==> exists i | 0 <= i < |files| :: !files[i].isDir && Base(KeyOf(files[i])) == base
    decreases |files|
  {
    hide KeyOf, Base;
    if files == [] {
    } else {
      var front := files[..|files| - 1];
      FindsBase(front, base);
      assert forall i | 0 <= i < |front| :: front[i] == files[i];
    }
  }

  // ----- The dependency graph

  /** DT_NEEDED of a host file; empty when it cannot be opened or has no dynamic section. */
  type Imports = string -> seq<string>

  /** A program, as far as the check looks at it. */
  datatype Image = Image(tree: GuestTree, imports: Imports, program: string, needed: seq<string>) {

    /** What a supplied library needs in turn. */
    function Next(lib: string): seq<string> {
      var host := Lookup(tree, lib);
      if host.Some? then imports(host.value) else []
    }

    ghost function NeedEdges(): Edges { (x, y) => y in Next(x) }

    /** The program needs lib, directly or through libraries the image supplies. */
    ghost predicate Reaches(lib: string) { Reachable(NeedEdges(), Elems(needed), lib) }

    /** who is the program or a reached library, and it needs lib itself. */
    ghost predicate Requests(who: string, lib: string) {
      (who == program && lib in needed) || (Reaches(who) && lib in Next(who))
    }

    /** Every name the walk can meet. */
    ghost function Hosts(): set<string> {
      (set k | k in tree.byPath :: tree.byPath[k].hostPath)
      + (set b, i | b in tree.byBase && 0 <= i < |tree.byBase[b]| :: tree.byBase[b][i].hostPath)
    }

    ghost function Universe(): set<string> {
      (set x | x in needed) + (set h, x | h in Hosts() && x in imports(h) :: x)
    }

    lemma NextInUniverse(lib: string)
      ensures forall x | x in Next(lib) :: x in Universe()
    {
      var host := Lookup(tree, lib);
      if host.Some? {
        assert host.value in Hosts() by {
          var clean := CleanGuestPath(lib);
          hide Base, CleanGuestPath;
          if clean !in tree.byPath { assert tree.byBase[Base(clean)][0].hostPath in Hosts(); }
        }
      }
    }
  }

  // ----- The walk

  /** visited and missing, shared by all recursive calls of walkNeeded. */
  class Walker {
    var visited: set<string>
    var missing: map<string, string>

    constructor ()
      ensures visited == {} && missing == map[]
    {
      visited, missing := {}, map[];
    }

    /** Everything visited is reached, and missing holds exactly the visited names that the
        image does not supply, each with someone who needs it. */
    ghost predicate Sound(im: Image)
      reads this
    {
      && visited <= im.Universe()
      && (forall x | x in visited :: im.Reaches(x))
      && missing.Keys == (set x | x in visited && Lookup(im.tree, x).None?)
      && (forall x | x in missing :: im.Requests(missing[x], x))
    }

    method WalkNeeded(im: Image, needed: seq<string>, requester: string)
      requires Sound(im)
      requires forall x | x in needed :: x in im.Universe() && im.Reaches(x) && im.Requests(requester, x)
      modifies this
      ensures Sound(im)
      ensures old(visited) <= visited && (forall x | x in needed :: x in visited)
      ensures forall x, y | x in visited && x !in old(visited) && y in im.Next(x) :: y in visited
      ensures forall x | x in old(missing) :: x in missing && missing[x] == old(missing)[x]
      decreases im.Universe() - visited
    {
      hide Image.Universe, Image.Reaches, Image.Requests, Image.Next, Lookup;
      for i := 0 to |needed|
        invariant Sound(im) && old(visited) <= visited
        invariant forall k | 0 <= k < i :: needed[k] in visited
        invariant forall x, y | x in visited && x !in old(visited) && y in im.Next(x) :: y in visited
        invariant forall x | x in old(missing) :: x in missing && missing[x] == old(missing)[x]
      {
        var lib := needed[i];
        if lib in visited { continue; }
        visited := visited + {lib};
        var host := Lookup(im.tree, lib);
        NextFacts(im, lib);
        if host.None? {
          if lib !in missing { missing := missing[lib := requester]; }
          continue;
        }
        WalkNeeded(im, im.imports(host.value), lib);
      }
    }
  }

  lemma NextFacts(im: Image, lib: string)
    requires im.Reaches(lib)
    ensures im.Next(lib) == match Lookup(im.tree, lib) case Some(host) => im.imports(host) case None => []
    ensures forall x | x in im.Next(lib) :: x in im.Universe() && im.Reaches(x) && im.Requests(lib, x)
  {
    hide Image.Reaches, Image.Universe;
    im.NextInUniverse(lib);
    forall x | x in im.Next(lib) ensures im.Reaches(x) { LibraryNeeds(im, lib, x); }
  }

  lemma LibraryNeeds(im: Image, lib: string, x: string)
    requires im.Reaches(lib) && x in im.Next(lib)
    ensures im.Reaches(x)
  {
    ReachNext(im.NeedEdges(), Elems(im.needed), lib, x);
  }

  /** Ends on cyclic library graphs, and reports exactly the names reached from the program
      that the image cannot supply, each with someone who needs it. */
  method MissingLibraries(im: Image) returns (missing: map<string, string>)
    ensures forall lib :: lib in missing <==> im.Reaches(lib) && Lookup(im.tree, lib).None?
    ensures forall lib | lib in missing :: im.Requests(missing[lib], lib)
  {
    var w := new Walker();
    forall x | x in im.needed ensures im.Reaches(x) { ReachStart(im.NeedEdges(), Elems(im.needed), x); }
    assert forall x | x in im.needed :: x in im.Universe() && im.Requests(im.program, x);
    hide Image.Universe, Image.Reaches, Image.Requests, Image.Next, Lookup;
    w.WalkNeeded(im, im.needed, im.program);
    forall lib | im.Reaches(lib) ensures lib in w.visited { Visits(im, w.visited, lib); }
    missing := w.missing;
  }

  lemma Visits(im: Image, visited: set<string>, lib: string)
    requires im.Reaches(lib) && forall x | x in im.needed :: x in visited
    requires forall x, y | x in visited && y in im.Next(x) :: y in visited
    ensures lib in visited
  {
    hide Image.Next;
    ClosedHoldsAll(im.NeedEdges(), Elems(im.needed), visited, lib);
  }
}
