/** The file tree of a manifest (internal/image/builder.go) as a value: insertion by guest
    path, and what insertion keeps. */
module ManifestTree {
  import opened Options
  import opened TupleText

  /** A file node carries its host path; a directory node carries children. */
  datatype Node = File(host: string) | Dir(children: map<string, Node>)

  const EMPTY := Dir(map[])

  /** strings.FieldsFunc on '/': the non-empty components. */
  function Fields(path: string): (parts: seq<string>)
    ensures forall i | 0 <= i < |parts| :: parts[i] != "" && '/' !in parts[i]
  {
    FieldsFrom(path, "")
  }

  function FieldsFrom(path: string, word: string): (parts: seq<string>)
    requires '/' !in word
    ensures forall i | 0 <= i < |parts| :: parts[i] != "" && '/' !in parts[i]
    decreases |path|
  {
    if path == "" then (if word == "" then [] else [word])
    else if path[0] == '/' then (if word == "" then [] else [word]) + FieldsFrom(path[1..], "")
    else FieldsFrom(path[1..], word + [path[0]])
  }

  function ChildOf(children: map<string, Node>, part: string): Node {
    if part in children then children[part] else EMPTY
  }

  /** insertManifestFile; None where the program would assign into a nil map. */
  function InsertFile(n: Node, parts: seq<string>, host: string): Option<Node>
    decreases |parts|
  {
    if parts == [] then Some(n)
    else if n.File? then None
    else if |parts| == 1 then Some(Dir(n.children[parts[0] := File(host)]))
    else
      var child := InsertFile(ChildOf(n.children, parts[0]), parts[1..], host);
      if child.None? then None else Some(Dir(n.children[parts[0] := child.value]))
  }

  /** insertManifestDir */
  function InsertDir(n: Node, parts: seq<string>): Option<Node>
    decreases |parts|
  {
    if parts == [] then Some(n)
    else if n.File? then None
    else
      var child := InsertDir(ChildOf(n.children, parts[0]), parts[1..]);
      if child.None? then None else Some(Dir(n.children[parts[0] := child.value]))
  }

  // ----- What is at a path

  function At(n: Node, path: seq<string>): Option<Node>
    decreases |path|
  {
    if path == [] then Some(n)
    else if n.File? || path[0] !in n.children then None
    else At(n.children[path[0]], path[1..])
  }

  /** Some proper prefix of parts is a file. */
  ghost predicate UnderFile(n: Node, parts: seq<string>) {
    exists k | 0 <= k < |parts| :: At(n, parts[..k]).Some? && At(n, parts[..k]).value.File?
  }

  lemma UnderFileStep(n: Node, parts: seq<string>)
    requires parts != [] && n.Dir?
    ensures UnderFile(n, parts) <==> UnderFile(ChildOf(n.children, parts[0]), parts[1..])
  {
    var child := ChildOf(n.children, parts[0]);
    if k :| 0 <= k < |parts| && At(n, parts[..k]).Some? && At(n, parts[..k]).value.File? {
      assert k > 0;
      assert parts[..k][1..] == parts[1..][..k - 1];
      assert At(child, parts[1..][..k - 1]) == At(n, parts[..k]);
    }
    if k :| 0 <= k < |parts[1..]| && At(child, parts[1..][..k]).Some? && At(child, parts[1..][..k]).value.File? {
      assert parts[..k + 1][1..] == parts[1..][..k];
      assert parts[0] in n.children by { EmptyHasNothing(parts[1..][..k]); }
      assert At(n, parts[..k + 1]) == At(child, parts[1..][..k]);
    }
  }

  lemma EmptyHasNothing(path: seq<string>)
    ensures At(EMPTY, path).Some? ==> At(EMPTY, path) == Some(EMPTY)
  {
  }

  /** Inserting fails exactly when the path runs through a file. */
  lemma {:induction false} InsertFailsUnderFile(n: Node, parts: seq<string>, host: string)
    ensures InsertFile(n, parts, host).None? <==> UnderFile(n, parts)
    ensures InsertDir(n, parts).None? <==> UnderFile(n, parts)
    decreases |parts|
  {
    if parts == [] {
    } else {
      assert parts[..0] == [];
      if n.File? {
        assert At(n, parts[..0]) == Some(n);
      } else {
        UnderFileStep(n, parts);
        InsertFailsUnderFile(ChildOf(n.children, parts[0]), parts[1..], host);
      }
    }
  }

  predicate IsFileAt(n: Node, q: seq<string>, host: string) { At(n, q) == Some(File(host)) }

  /** The files after an insert: the new one at its path, nothing else from there down, and
      elsewhere the files there were. */
  lemma {:induction false} InsertedFileExactly(n: Node, parts: seq<string>, host: string, q: seq<string>, h: string)
    requires parts != [] && InsertFile(n, parts, host).Some?
    ensures IsFileAt(InsertFile(n, parts, host).value, q, h)
       <==> if parts <= q then q == parts && h == host else IsFileAt(n, q, h)
    decreases |parts|
  {
    if q == [] || q[0] != parts[0] {
    } else if |parts| == 1 {
      assert parts == [parts[0]] && q == parts + q[1..];
      assert q == parts <==> q[1..] == [];
      assert At(InsertFile(n, parts, host).value, q) == At(File(host), q[1..]);
    } else {
      var child := ChildOf(n.children, parts[0]);
      InsertedFileExactly(child, parts[1..], host, q[1..], h);
      assert parts == [parts[0]] + parts[1..] && q == [q[0]] + q[1..];
      assert parts <= q <==> parts[1..] <= q[1..];
      EmptyHasNothing(q[1..]);
    }
  }

  /** Adding a directory adds and changes no file. */
  lemma {:induction false} InsertedDirKeepsFiles(n: Node, parts: seq<string>, q: seq<string>, h: string)
    requires InsertDir(n, parts).Some?
    ensures At(InsertDir(n, parts).value, parts).Some?
    ensures IsFileAt(InsertDir(n, parts).value, q, h) <==> IsFileAt(n, q, h)
    decreases |parts|
  {
    if parts == [] {
    } else {
      var rest := if q == [] then [] else q[1..];
      InsertedDirKeepsFiles(ChildOf(n.children, parts[0]), parts[1..], rest, h);
      EmptyHasNothing(rest);
    }
  }

  // ----- Trees that can be printed

  /** Names are non-empty and host paths need no escaping. */
  ghost predicate Printable(n: Node) {
    match n
    case File(host) => host != "" && Clean(host)
    case Dir(children) => forall k | k in children :: k != "" && Printable(children[k])
  }

  // ----- Building a tree from package entries

  datatype PkgFile = PkgFile(hostPath: string, guestPath: string, isDir: bool)

  function Inserted(n: Node, f: PkgFile): Option<Node> {
    if f.isDir then InsertDir(n, Fields(f.guestPath)) else InsertFile(n, Fields(f.guestPath), f.hostPath)
  }

  /** All entries, in order. */
  function Built(files: seq<PkgFile>): Option<Node>
    decreases |files|
  {
    if files == [] then Some(EMPTY)
    else
      var before := Built(files[..|files| - 1]);
      if before.None? then None else Inserted(before.value, files[|files| - 1])
  }
}
