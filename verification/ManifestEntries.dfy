/** What the manifest tree holds, said of the package entries alone (internal/image/builder.go):
    which entries cannot be placed together, which files arrive, and when the text is faithful. */
module ManifestEntries {
  import opened Options
  import opened TupleText
  import opened ManifestTree
  import opened ManifestText
  import opened ManifestExact

  function PathOf(f: PkgFile): seq<string> { Fields(f.guestPath) }

  /** A file entry with a path; one without changes nothing. */
  predicate PlacesFile(f: PkgFile) { !f.isDir && PathOf(f) != [] }

  /** Entry j lies below the file that entry i placed before it. */
  ghost predicate Clash(files: seq<PkgFile>, i: nat, j: nat) {
    i < j < |files| && PlacesFile(files[i]) && PathOf(files[i]) < PathOf(files[j])
  }

  ghost predicate HasClash(files: seq<PkgFile>) { exists i: nat, j: nat :: Clash(files, i, j) }

  /** No later file is placed at the path of file i or above it. */
  ghost predicate Survives(files: seq<PkgFile>, i: nat) {
    && i < |files| && PlacesFile(files[i])
    && forall j | i < j < |files| && PlacesFile(files[j]) :: !(PathOf(files[j]) <= PathOf(files[i]))
  }

  ghost predicate Supplies(files: seq<PkgFile>, i: nat, q: seq<string>, h: string) {
    Survives(files, i) && PathOf(files[i]) == q && files[i].hostPath == h
  }

  // ----- The files of the tree

  /** The files of a built tree are exactly the surviving file entries. */
  lemma {:induction false} FilesExactly(files: seq<PkgFile>, q: seq<string>, h: string)
    requires Built(files).Some?
    ensures IsFileAt(Built(files).value, q, h) <==> exists i: nat :: Supplies(files, i, q, h)
    decreases |files|
  {
    if files == [] {
    } else {
      var last := |files| - 1;
      var front, f := files[..last], files[last];
      FilesExactly(front, q, h);
      OneMoreEntry(files, q, h);
      hide Supplies, Fields;
      var n := Built(front).value;
      if !PlacesFile(f) {
        if f.isDir { InsertedDirKeepsFiles(n, PathOf(f), q, h); }
      } else {
        InsertedFileExactly(n, PathOf(f), f.hostPath, q, h);
      }
    }
  }

  lemma OneMoreEntry(files: seq<PkgFile>, q: seq<string>, h: string)
    requires files != []
    ensures var last := |files| - 1; var f := files[last];
      (exists i: nat :: Supplies(files, i, q, h))
        <==> if PlacesFile(f) && PathOf(f) <= q then q == PathOf(f) && h == f.hostPath
             else exists i: nat :: Supplies(files[..last], i, q, h)
  {
    hide Fields;
    var last := |files| - 1;
    var front, f := files[..last], files[last];
    assert forall i | 0 <= i < last :: front[i] == files[i];
    forall i: nat | i < last
      ensures Supplies(files, i, q, h) <==> Supplies(front, i, q, h) && !(PlacesFile(f) && PathOf(f) <= q)
    {
      assert Survives(files, i) <==> Survives(front, i) && !(PlacesFile(f) && PathOf(f) <= PathOf(files[i]));
    }
    assert Supplies(files, last, q, h) <==> PlacesFile(f) && PathOf(f) == q && f.hostPath == h;
    assert PathOf(f) <= q && PathOf(f) != q ==> !(q <= PathOf(f));
    if i: nat :| Supplies(files, i, q, h) {
      assert i < last ==> Supplies(front, i, q, h);
    }
    if i: nat :| Supplies(front, i, q, h) {
      assert !(PlacesFile(f) && PathOf(f) <= q) ==> Supplies(files, i, q, h);
    }
  }

  /** A file entry that no later one covers is in the tree, with its host path. */
  lemma FilesArrive(files: seq<PkgFile>, i: nat)
    requires Built(files).Some? && Survives(files, i)
    ensures IsFileAt(Built(files).value, PathOf(files[i]), files[i].hostPath)
  {
    FilesExactly(files, PathOf(files[i]), files[i].hostPath);
    assert Supplies(files, i, PathOf(files[i]), files[i].hostPath);
  }

  // ----- When entries cannot be placed

  /** Building fails exactly when some entry lies below a file placed before it. */
  lemma {:induction false} BuiltFailsExactly(files: seq<PkgFile>)
    ensures Built(files).None? <==> HasClash(files)
    decreases |files|
  {
    hide Fields;
    if files == [] {
    } else {
      var last := |files| - 1;
      var front := files[..last];
      BuiltFailsExactly(front);
      ClashInFront(files);
      if Built(front).Some? { LastClashes(files); }
    }
  }

  lemma ClashInFront(files: seq<PkgFile>)
    requires files != []
    ensures var last := |files| - 1;
      HasClash(files) <==> HasClash(files[..last]) || exists i: nat :: Clash(files, i, last)
  {
    hide Fields;
    var last := |files| - 1;
    var front := files[..last];
    assert forall i: nat, j: nat | j < last :: Clash(files, i, j) <==> Clash(front, i, j);
    if i: nat, j: nat :| Clash(files, i, j) {
      assert j < last ==> Clash(front, i, j);
    }
    if i: nat, j: nat :| Clash(front, i, j) {
      assert Clash(files, i, j);
    }
  }

  lemma LastClashes(files: seq<PkgFile>)
    requires files != [] && Built(files[..|files| - 1]).Some?
    ensures var last := |files| - 1; Built(files).None? <==> exists i: nat :: Clash(files, i, last)
  {
    hide Fields, Built;
    var last := |files| - 1;
    var front, parts := files[..last], PathOf(files[last]);
    var n := Built(front).value;
    assert Built(files) == Inserted(n, files[last]) by { BuiltLast(files); }
    InsertFailsUnderFile(n, parts, files[last].hostPath);
    if UnderFile(n, parts) {
      var k :| 0 <= k < |parts| && At(n, parts[..k]).Some? && At(n, parts[..k]).value.File?;
      FilesExactly(front, parts[..k], At(n, parts[..k]).value.host);
      var i: nat :| Supplies(front, i, parts[..k], At(n, parts[..k]).value.host);
      assert Clash(files, i, last);
    }
    if i: nat :| Clash(files, i, last) {
      var m := LastCover(front, i);
      FilesArrive(front, m);
      var k := |PathOf(front[m])|;
      assert parts[..k] == PathOf(front[m]);
    }
  }

  lemma BuiltLast(files: seq<PkgFile>)
    requires files != [] && Built(files[..|files| - 1]).Some?
    ensures Built(files) == Inserted(Built(files[..|files| - 1]).value, files[|files| - 1])
  {
  }

  /** Of the files at or above file i, the last one survives. */
  lemma {:induction false} LastCover(files: seq<PkgFile>, i: nat) returns (m: nat)
    requires i < |files| && PlacesFile(files[i])
    ensures Survives(files, m) && PathOf(files[m]) <= PathOf(files[i])
    decreases |files| - i
  {
    hide Fields;
    if j: nat :| i < j < |files| && PlacesFile(files[j]) && PathOf(files[j]) <= PathOf(files[i]) {
      m := LastCover(files, j);
    } else {
      m := i;
    }
  }

  // ----- When the text is faithful

  ghost predicate HostsNamed(files: seq<PkgFile>) {
    forall i | 0 <= i < |files| :: files[i].isDir || files[i].hostPath != ""
  }

  /** Every file entry that is still in the tree has a host path without quote or backslash. */
  ghost predicate HostsClean(files: seq<PkgFile>) {
    forall i: nat | Survives(files, i) :: Clean(files[i].hostPath)
  }

  /** A tree can be printed exactly when its files have clean host paths. */
  lemma {:induction false} PrintableIsClean(n: Node)
    requires Named(n)
    ensures Printable(n) <==> forall q, h | IsFileAt(n, q, h) :: Clean(h)
    decreases n
  {
    match n
    case File(host) => assert IsFileAt(n, [], host);
    case Dir(children) =>
      forall k | k in children
        ensures Printable(children[k]) <==> forall q, h | IsFileAt(children[k], q, h) :: Clean(h)
        ensures forall q, h :: IsFileAt(children[k], q, h) <==> IsFileAt(n, [k] + q, h)
      {
        PrintableIsClean(children[k]);
        assert forall q :: ([k] + q)[1..] == q;
      }
      forall q, h | IsFileAt(n, q, h) ensures Printable(n) ==> Clean(h) {
        assert q[0] in children && IsFileAt(children[q[0]], q[1..], h);
      }
      if forall q, h | IsFileAt(n, q, h) :: Clean(h) {
        forall k | k in children ensures Printable(children[k]) {
          forall q, h | IsFileAt(children[k], q, h) ensures Clean(h) { assert IsFileAt(n, [k] + q, h); }
        }
      }
  }

  /** So a built tree can be printed exactly when the surviving host paths are clean. */
  lemma PrintableExactly(files: seq<PkgFile>)
    requires HostsNamed(files) && Built(files).Some?
    ensures Printable(Built(files).value) <==> HostsClean(files)
  {
    hide Fields, Built, Named, Printable;
    var n := Built(files).value;
    BuiltIsNamed(files);
    PrintableIsClean(n);
    forall q, h | IsFileAt(n, q, h) ensures HostsClean(files) ==> Clean(h) {
      FilesExactly(files, q, h);
    }
    forall i: nat | Survives(files, i)
      ensures IsFileAt(n, PathOf(files[i]), files[i].hostPath)
    {
      FilesArrive(files, i);
    }
  }

  // ----- Two entries

  /** A file at a, then one at a/b: the second cannot be placed. */
  lemma BelowAFile()
    ensures Built([PkgFile("/x", "a", false), PkgFile("/y", "a/b", false)]).None?
  {
    var files := [PkgFile("/x", "a", false), PkgFile("/y", "a/b", false)];
    TwoPaths();
    hide Fields;
    assert Clash(files, 0, 1);
    BuiltFailsExactly(files);
  }

  /** The other way round, the file at a silently replaces the directory with a/b in it. */
  lemma AboveAFile()
    ensures var b := Built([PkgFile("/y", "a/b", false), PkgFile("/x", "a", false)]);
      b.Some? && IsFileAt(b.value, ["a"], "/x") && At(b.value, ["a", "b"]).None?
  {
    var files := [PkgFile("/y", "a/b", false), PkgFile("/x", "a", false)];
    TwoPaths();
    hide Fields, Built;
    assert ["a"] <= ["a", "b"] && !(["a", "b"] <= ["a"]);
    assert forall i: nat, j: nat :: !Clash(files, i, j);
    BuiltFailsExactly(files);
    assert Survives(files, 1);
    FilesArrive(files, 1);
    assert ["a", "b"][1..] == ["b"];
  }

  lemma TwoPaths()
    ensures Fields("a") == ["a"] && Fields("a/b") == ["a", "b"]
  {
    assert "" + "a" == "a" && "" + "b" == "b" && [] + ["b"] == ["b"];
    assert "a"[1..] == "" && "a/b"[1..] == "/b" && "/b"[1..] == "b" && "b"[1..] == "";
    assert FieldsFrom("", "b") == ["b"];
    assert FieldsFrom("b", "") == ["b"];
    assert FieldsFrom("/b", "a") == ["a"] + ["b"];
  }
}
