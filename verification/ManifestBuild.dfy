/** BuildManifest and BuildVolumeManifest of internal/image/builder.go from end to end: nodes
    are linked in place, text is appended piece by piece, and what is written reads back as
    the tree of the package entries. */
module ManifestBuild {
  import opened Options
  import opened Decimals
  import opened TupleText
  import opened ManifestTree
  import opened ManifestText
  import opened ManifestNodes
  import opened ManifestExact
  import opened ManifestEntries
  import GuestPaths

  /** The loop over the package entries; false where the program would stop with a panic. */
  method BuildTree(files: seq<PkgFile>) returns (root: ManifestNode, ok: bool)
    requires HostsNamed(files)
    ensures ok <==> !HasClash(files)
    ensures ok ==> root.Valid() && fresh(root.Repr) && Some(root.tree) == Built(files)
  {
    BuiltFailsExactly(files);
    hide HasClash;
    root := new ManifestNode.Directory();
    ok := true;
    for i := 0 to |files|
      invariant ok && root.Valid() && fresh(root.Repr) && Some(root.tree) == Built(files[..i])
    {
      BuiltStep(files, i);
      hide Built, Fields, ManifestNode.Valid;
      if files[i].isDir {
        ok := root.MakeDir(Fields(files[i].guestPath));
      } else {
        ok := root.Insert(Fields(files[i].guestPath), files[i].hostPath);
      }
      if !ok {
        BuiltFails(files, i + 1);
        return;
      }
    }
    assert files[..|files|] == files;
  }

  lemma BuiltStep(files: seq<PkgFile>, i: nat)
    requires i < |files|
    ensures Built(files[..i + 1])
         == if Built(files[..i]).None? then None else Inserted(Built(files[..i]).value, files[i])
  {
    hide Inserted;
    assert files[..i + 1][..i] == files[..i];
  }

  lemma {:induction false} BuiltFails(files: seq<PkgFile>, i: nat)
    requires i <= |files| && Built(files[..i]).None?
    ensures Built(files).None?
    decreases |files| - i
  {
    if i < |files| {
      BuiltStep(files, i);
      BuiltFails(files, i + 1);
    } else {
      assert files[..i] == files;
    }
  }

  // ----- Writing the sections; tail is what is written after them

  method WriteArguments(b0: string, program: string, args: seq<string>, ghost tail: string) returns (b: string)
    ensures b + tail == b0 + EmitArguments(program, args, tail)
  {
    if args == [] { return b0; }
    var program0 := WriteValue(program);
    b := b0 + "    arguments:(0:";
    b := b + program0;
    ghost var start := b;
    hide EmitArgs, Value, Decimal;
    assert args[0..] == args;
    for i := 0 to |args|
      invariant b + EmitArgs(args[i..], i + 1, ")\n" + tail) == start + EmitArgs(args, 1, ")\n" + tail)
    {
      ArgsStep(b, args, i, ")\n" + tail);
      var arg := WriteValue(args[i]);
      b := b + " " + Decimal(i + 1) + ":" + arg;
    }
    ArgsStep(b, args, |args|, ")\n" + tail);
    b := b + ")\n";
    assert b + tail == start + EmitArgs(args, 1, ")\n" + tail);
    assert start == b0 + ("    arguments:(0:" + Value(program));
    assert b0 + ("    arguments:(0:" + Value(program)) + EmitArgs(args, 1, ")\n" + tail)
        == b0 + ("    arguments:(0:" + (Value(program) + EmitArgs(args, 1, ")\n" + tail)));
  }

  lemma ArgsStep(b: string, args: seq<string>, i: nat, tail: string)
    requires i <= |args|
    ensures i == |args| ==> EmitArgs(args[i..], i + 1, tail) == tail
    ensures i < |args| ==>
      b + EmitArgs(args[i..], i + 1, tail)
      == (b + " " + Decimal(i + 1) + ":" + Value(args[i])) + EmitArgs(args[i + 1..], i + 2, tail)
  {
    hide Value, Decimal;
    if i == |args| { return; }
    assert args[i..][1..] == args[i + 1..];
    Unroll(b, " ", Decimal(i + 1), ":", Value(args[i]), EmitArgs(args[i + 1..], i + 2, tail));
  }

  lemma Unroll(b: string, p: string, q: string, r: string, s: string, tail: string)
    ensures b + (p + (q + (r + (s + tail)))) == (b + p + q + r + s) + tail
  {
    Regroup(p, q, r, s, tail);
    assert b + ((p + (q + (r + s))) + tail) == (b + (p + (q + (r + s)))) + tail;
    assert b + (p + (q + (r + s))) == b + p + q + r + s by {
      assert b + p + q + r + s == b + p + q + (r + s);
    }
  }

  method WriteEnvironment(b0: string, env: map<string, string>, ghost tail: string) returns (b: string)
    ensures b + tail == b0 + EmitEnvironment(env, tail)
  {
    hide EmitEnv, Name, Value, SortedKeys;
    EnvKeysIn(env);
    b := b0 + "    environment:(";
    ghost var start := b;
    var keys := SortKeys(env.Keys);
    assert keys[0..] == keys;
    for i := 0 to |keys|
      invariant forall k | 0 <= k < |keys| :: keys[k] in env
      invariant b + EmitEnv(env, keys[i..], ")\n" + tail) == start + EmitEnv(env, keys, ")\n" + tail)
    {
      EnvStep(b, env, keys, i, ")\n" + tail);
      var name := WriteName(keys[i]);
      var value := WriteValue(env[keys[i]]);
      b := b + name + ":" + value + " ";
    }
    EnvStep(b, env, keys, |keys|, ")\n" + tail);
    b := b + ")\n";
    assert b + tail == start + EmitEnv(env, keys, ")\n" + tail);
  }

  lemma EnvStep(b: string, env: map<string, string>, keys: seq<string>, i: nat, tail: string)
    requires i <= |keys| && forall k | 0 <= k < |keys| :: keys[k] in env
    ensures i == |keys| ==> EmitEnv(env, keys[i..], tail) == tail
    ensures i < |keys| ==>
      b + EmitEnv(env, keys[i..], tail)
      == (b + Name(keys[i]) + ":" + Value(env[keys[i]]) + " ") + EmitEnv(env, keys[i + 1..], tail)
  {
    hide Name, Value;
    if i == |keys| { return; }
    assert keys[i..][1..] == keys[i + 1..];
    Unroll(b, Name(keys[i]), ":", Value(env[keys[i]]), " ", EmitEnv(env, keys[i + 1..], tail));
  }

  // ----- The two manifests

  method WriteManifest(root: ManifestNode, program: string, args: seq<string>,
                       env: map<string, string>, diskSize: string)
    returns (b: string)
    requires root.Valid() && root.tree.Dir?
    ensures b == Manifest(Config(root.tree.children, program, args, env, diskSize))
  {
    b := WriteProgram(root, program);
    hide ManifestNode.Valid, Value, EmitChildren, EmitArguments, EmitEnvironment;
    ghost var size := EmitSize(diskSize, ")");
    b := WriteArguments(b, program, args, EmitEnvironment(env, size));
    b := WriteEnvironment(b, env, size);
    if diskSize != "" {
      assert b + size == b + "    imagesize:" + diskSize + "\n" + ")";
      b := b + "    imagesize:" + diskSize + "\n";
    }
    b := b + ")";
  }

  /** Up to the end of the program line. */
  method WriteProgram(root: ManifestNode, program: string) returns (b: string)
    requires root.Valid() && root.tree.Dir?
    ensures forall args, env, diskSize ::
      b + Sections(Config(root.tree.children, program, args, env, diskSize))
        == Manifest(Config(root.tree.children, program, args, env, diskSize))
  {
    hide Value, EmitChildren, Sections;
    b := "(\n    children:(\n";
    b := root.WriteChildren(b, STEP + STEP);
    var program0 := WriteValue(program);
    b := b + ("    )\n    program:" + program0 + "\n");
    forall args, env, diskSize
      ensures b + Sections(Config(root.tree.children, program, args, env, diskSize))
           == Manifest(Config(root.tree.children, program, args, env, diskSize))
    {
      ManifestFlat(Config(root.tree.children, program, args, env, diskSize));
    }
  }

  lemma ManifestFlat(c: Config)
    ensures "(\n    children:(\n" + EmitChildren(c.children, STEP + STEP, "")
          + ("    )\n    program:" + Value(c.program) + "\n") + Sections(c) == Manifest(c)
  {
    hide Value, EmitChildren, Sections;
    var line := "    )\n    program:" + (Value(c.program) + ("\n" + Sections(c)));
    ChildrenTail(c.children, STEP + STEP, line);
    var head, tree := "(\n    children:(\n", EmitChildren(c.children, STEP + STEP, "");
    assert line == ("    )\n    program:" + Value(c.program) + "\n") + Sections(c);
    assert head + (tree + line) == head + tree + line;
  }

  /** Where the program goes: its cleaned path, or "program" if that is the root. */
  function ProgramGuest(programPath: string): string {
    var cleaned := GuestPaths.Join(GuestPaths.SplitAbs(programPath));
    if cleaned == "" then "program" else cleaned
  }

  lemma {:induction false} FieldsSkip(a: string, rest: string, word: string)
    requires '/' !in a && '/' !in word
    ensures FieldsFrom(a + rest, word) == FieldsFrom(rest, word + a)
    decreases |a|
  {
    if a == "" {
      assert a + rest == rest && word + a == word;
    } else {
      assert (a + rest)[1..] == a[1..] + rest && (a + rest)[0] == a[0];
      FieldsSkip(a[1..], rest, word + [a[0]]);
      assert word + [a[0]] + a[1..] == word + a;
    }
  }

  /** Names, joined, have themselves as fields, with or without a slash in front. */
  lemma {:induction false} FieldsOfNames(names: seq<string>)
    requires GuestPaths.AllNames(names)
    ensures Fields(GuestPaths.Join(names)) == names == Fields("/" + GuestPaths.Join(names))
    decreases |names|
  {
    var text := GuestPaths.Join(names);
    assert ("/" + text)[1..] == text && [] + FieldsFrom(text, "") == FieldsFrom(text, "");
    if names == [] {
    } else {
      var a := names[0];
      assert GuestPaths.IsName(a) && "" + a == a;
      if |names| == 1 {
        FieldsSkip(a, "", "");
        assert a + "" == a && names == [a];
      } else {
        var more := GuestPaths.Join(names[1..]);
        FieldsOfNames(names[1..]);
        FieldsSkip(a, "/" + more, "");
        assert a + ("/" + more) == text && ("/" + more)[1..] == more;
        assert [a] + names[1..] == names;
      }
    }
  }

  /** The names of the program's path: those of the given path, or "program" if it has none. */
  function ProgramNames(programPath: string): seq<string> {
    var names := GuestPaths.SplitAbs(programPath);
    if names == [] then ["program"] else names
  }

  lemma ProgramIs(programPath: string)
    ensures ProgramGuest(programPath) == GuestPaths.Join(ProgramNames(programPath))
    ensures Fields("/" + ProgramGuest(programPath)) == ProgramNames(programPath)
  {
    GuestPaths.SplitAbsNames(programPath);
    var names := GuestPaths.SplitAbs(programPath);
    assert names != [] ==> GuestPaths.IsName(names[0]);
    FieldsOfNames(ProgramNames(programPath));
    hide GuestPaths.SplitAbs, Fields;
  }

  lemma ProgramHasPath(programPath: string)
    ensures Fields(ProgramGuest(programPath)) != []
    ensures Fields("/" + ProgramGuest(programPath)) == Fields(ProgramGuest(programPath))
  {
    var names, guest := GuestPaths.SplitAbs(programPath), ProgramGuest(programPath);
    GuestPaths.SplitAbsNames(programPath);
    assert guest != "" && guest[0] != '/' by {
      assert names != [] ==> GuestPaths.IsName(names[0]);
    }
    WordIsKept(guest[1..], [guest[0]]);
    assert "" + [guest[0]] == [guest[0]];
    assert ("/" + guest)[1..] == guest;
    assert [] + FieldsFrom(guest, "") == FieldsFrom(guest, "");
  }

  lemma {:induction false} WordIsKept(path: string, word: string)
    requires word != "" && '/' !in word
    ensures FieldsFrom(path, word) != []
    decreases |path|
  {
    if path == "" {
    } else if path[0] != '/' {
      WordIsKept(path[1..], word + [path[0]]);
    }
  }

  /** The package entries with the program placed last. */
  function Entries(pkg: seq<PkgFile>, binary: string, programPath: string): seq<PkgFile> {
    pkg + [PkgFile(binary, ProgramGuest(programPath), false)]
  }

  /** Every surviving file entry is at its path in the tree, with its host path. */
  ghost predicate Carries(tree: Option<Node>, files: seq<PkgFile>) {
    tree.Some? && forall i: nat | Survives(files, i) :: IsFileAt(tree.value, PathOf(files[i]), files[i].hostPath)
  }

  /** The program the manifest names is a file of the tree it carries: the binary. */
  lemma ProgramArrives(pkg: seq<PkgFile>, binary: string, programPath: string, tree: Option<Node>)
    requires Carries(tree, Entries(pkg, binary, programPath))
    ensures IsFileAt(tree.value, Fields("/" + ProgramGuest(programPath)), binary)
  {
    var files := Entries(pkg, binary, programPath);
    ProgramHasPath(programPath);
    hide ProgramGuest;
    assert Survives(files, |pkg|);
  }

  /** The text for a package. There is one exactly when no entry lies below a file placed before
      it. It says everything in the configuration exactly when the host paths still in the tree
      are free of quotes and backslashes and the settings can be said; then the tree read from it
      carries every surviving file, and the named program is the binary. */
  method BuildManifest(pkg: seq<PkgFile>, binary: string, programPath: string,
                       args: seq<string>, env: map<string, string>, diskSize: string)
    returns (text: Option<string>)
    requires HostsNamed(pkg) && binary != ""
    ensures var files := Entries(pkg, binary, programPath);
      text.Some? <==> !HasClash(files)
    ensures var files, program := Entries(pkg, binary, programPath), "/" + ProgramGuest(programPath);
      text.Some? ==>
        && Built(files).Some? && Built(files).value.Dir?
        && (Says(text.value, Config(Built(files).value.children, program, args, env, diskSize))
            <==> HostsClean(files) && Settable(args, env, diskSize))
        && (HostsClean(files) && Settable(args, env, diskSize) ==>
              && TreeOf(text.value) == Built(files) && Carries(TreeOf(text.value), files)
              && IsFileAt(TreeOf(text.value).value, Fields(program), binary))
    ensures var names := GuestPaths.SplitAbs(programPath);
      var path := if names == [] then ["program"] else names;
      text.Some? && HostsClean(Entries(pkg, binary, programPath)) && Settable(args, env, diskSize) ==>
        && TreeOf(text.value).Some? && IsFileAt(TreeOf(text.value).value, path, binary)
        && exists pairs :: ReadValue(text.value) == Some((Tuple(pairs), ""))
                           && Tells(pairs, "/" + GuestPaths.Join(path), args, env, diskSize)
  {
    var files, program := Entries(pkg, binary, programPath), "/" + ProgramGuest(programPath);
    assert HostsNamed(files);
    BuiltIsNamed(files);
    hide Built, Manifest, ReadValue, TreeOf, Named, ManifestPairs, ManifestNode.Valid, HasClash, Entries, ProgramGuest;
    var root, ok := BuildTree(files);
    if !ok { return None; }
    var b := WriteManifest(root, program, args, env, diskSize);
    ghost var c := Config(root.tree.children, program, args, env, diskSize);
    hide HostsNamed, Fields, Survives;
    hide Settable;
    ManifestReadsExactly(c);
    PrintableExactly(files);
    AllArrive(files);
    hide Tells, GuestPaths.SplitAbs;
    ProgramIs(programPath);
    PairsTell(c);
    if Sayable(c) {
      TreeComesBack(c);
      ProgramArrives(pkg, binary, programPath, Built(files));
    }
    text := Some(b);
  }

  lemma AllArrive(files: seq<PkgFile>)
    requires Built(files).Some?
    ensures Carries(Built(files), files)
  {
    hide Built, Fields;
    forall i: nat | Survives(files, i)
      ensures IsFileAt(Built(files).value, PathOf(files[i]), files[i].hostPath)
    {
      FilesArrive(files, i);
    }
  }

  /** Reading the text gives the tuple of everything in c, and nothing is left. */
  ghost predicate Says(text: string, c: Config) {
    ReadValue(text) == Some((Tuple(ManifestPairs(c)), ""))
  }

  method BuildVolumeManifest(files: seq<PkgFile>) returns (text: Option<string>)
    requires HostsNamed(files)
    ensures text.Some? <==> !HasClash(files)
    ensures text.Some? ==>
      && Built(files).Some?
      && (ReadValue(text.value) == Some((ValOf(Built(files).value), "")) <==> HostsClean(files))
      && (HostsClean(files) ==> TreeOf(text.value) == Built(files) && Carries(TreeOf(text.value), files))
  {
    BuiltIsNamed(files);
    hide Built, TreeOf, ReadValue, ValOf, Named, EmitChildren, VolumeManifest, HasClash;
    var root, ok := BuildTree(files);
    if !ok { return None; }
    hide ManifestNode.Valid, Survives, Fields, HostsNamed;
    var b := root.WriteChildren("(\n    children:(\n", STEP + STEP);
    b := b + "    )\n)";
    VolumeFlat(root.tree.children);
    VolumeReadsExactly(root.tree.children);
    PrintableExactly(files);
    AllArrive(files);
    if Printable(root.tree) { VolumeRoundTrip(root.tree.children); }
    text := Some(b);
  }

  lemma VolumeFlat(children: map<string, Node>)
    ensures "(\n    children:(\n" + EmitChildren(children, STEP + STEP, "") + "    )\n)" == VolumeManifest(children)
  {
    hide EmitChildren;
    ChildrenTail(children, STEP + STEP, "    )\n)");
  }
}
