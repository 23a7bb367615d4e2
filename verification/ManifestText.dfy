/** Printing a manifest tree (writeManifestChildren and BuildManifest of
    internal/image/builder.go) and reading it back. Emit functions take the text that
    follows, so that printing and reading meet in the same shape. */
module ManifestText {
  import opened Options
  import opened Decimals
  import opened StringOrder
  import opened StringSeqs
  import opened TupleText
  import opened ManifestTree

  // ----- Keys in order

  lemma {:induction false} HasLeast(s: set<string>)
    requires s != {}
    ensures exists x :: IsLeast(x, s)
    decreases |s|
  {
    var a :| a in s;
    if s == {a} {
      LessIrreflexive(a);
      assert IsLeast(a, s);
    } else {
      HasLeast(s - {a});
      var b :| IsLeast(b, s - {a});
      LessTotal(a, b);
      hide Less;
      if Less(a, b) {
        forall y | y in s ensures !Less(y, a) {
          if y == a { LessIrreflexive(a); } else if Less(y, a) { LessTransitive(y, a, b); }
        }
        assert IsLeast(a, s);
      } else {
        assert IsLeast(b, s);
      }
    }
  }

  /** The keys of a map, as sort.Strings leaves them. */
  ghost function SortedKeys(s: set<string>): seq<string>
    decreases |s|
  {
    if s == {} then []
    else
      HasLeast(s);
      var x :| IsLeast(x, s);
      [x] + SortedKeys(s - {x})
  }

  ghost predicate Lists(keys: seq<string>, s: set<string>) { Elems(keys) == s && Distinct(keys) }

  lemma {:induction false} SortedKeysList(s: set<string>)
    ensures Lists(SortedKeys(s), s) && Sorted(SortedKeys(s))
    decreases |s|
  {
    if s == {} {
    } else {
      HasLeast(s);
      hide Less;
      var x := SortedKeys(s)[0];
      assert SortedKeys(s) == [x] + SortedKeys(s - {x});
      SortedKeysList(s - {x});
      ConsLists(x, SortedKeys(s - {x}), s);
    }
  }

  lemma ConsLists(x: string, rest: seq<string>, s: set<string>)
    requires IsLeast(x, s) && Lists(rest, s - {x}) && Sorted(rest)
    ensures Lists([x] + rest, s) && Sorted([x] + rest)
  {
    hide Less;
    var keys := [x] + rest;
    assert forall j | 0 < j < |keys| :: keys[j] == rest[j - 1];
    assert forall j | 0 <= j < |rest| :: rest[j] in s - {x};
    assert (set k | k in keys) == {x} + (set k | k in rest);
  }

  /** Two sorted listings of a set are the same. */
  lemma {:induction false} SortedListingIsUnique(a: seq<string>, b: seq<string>, s: set<string>)
    requires Lists(a, s) && Lists(b, s) && Sorted(a) && Sorted(b)
    ensures a == b
    decreases |a|
  {
    hide Less;
    assert (a != [] ==> a[0] in s) && (b != [] ==> b[0] in s);
    if s == {} {
    } else {
      assert a[0] in s && b[0] in s;
      HeadIsLeast(a, s);
      HeadIsLeast(b, s);
      LessTotal(a[0], b[0]);
      TailLists(a, s);
      TailLists(b, s);
      SortedListingIsUnique(a[1..], b[1..], s - {a[0]});
      assert a == [a[0]] + a[1..] && b == [b[0]] + b[1..];
    }
  }

  lemma HeadIsLeast(a: seq<string>, s: set<string>)
    requires Lists(a, s) && Sorted(a) && a != []
    ensures IsLeast(a[0], s)
  {
    hide Less;
    forall y | y in s ensures !Less(y, a[0]) {
      var i :| 0 <= i < |a| && a[i] == y;
      LessIrreflexive(a[0]);
    }
  }

  lemma TailLists(a: seq<string>, s: set<string>)
    requires Lists(a, s) && Sorted(a) && a != []
    ensures Lists(a[1..], s - {a[0]}) && Sorted(a[1..])
  {
    hide Less;
    assert a == [a[0]] + a[1..];
  }

  /** Keys collected in any order and sorted are the keys in order. */
  lemma SortGivesKeys(keys: seq<string>, s: set<string>)
    requires Lists(keys, s)
    ensures Sort(keys) == SortedKeys(s)
  {
    hide Less;
    SortedQueue(keys);
    SortSorts(keys);
    SortedKeysList(s);
    SortedListingIsUnique(Sort(keys), SortedKeys(s), s);
  }

  // ----- Printing

  const STEP := "    "

  ghost predicate AllIn(keys: seq<string>, children: map<string, Node>) {
    forall i | 0 <= i < |keys| :: keys[i] in children
  }

  lemma KeysAllIn(children: map<string, Node>)
    ensures AllIn(SortedKeys(children.Keys), children)
  {
    var keys := SortedKeys(children.Keys);
    SortedKeysList(children.Keys);
    assert forall i | 0 <= i < |keys| :: keys[i] in (set k | k in keys);
  }

  /** The text between a directory's children and its closing brackets. */
  function Closing(indent: string, tail: string): string {
    indent + STEP + (")\n" + (indent + (")\n" + tail)))
  }

  ghost function EmitChildren(children: map<string, Node>, indent: string, tail: string): string
    decreases Dir(children), 1, 0
  {
    KeysAllIn(children);
    EmitKeys(children, SortedKeys(children.Keys), indent, tail)
  }

  ghost function EmitKeys(children: map<string, Node>, keys: seq<string>, indent: string, tail: string): string
    requires AllIn(keys, children)
    decreases Dir(children), 0, |keys|
  {
    if keys == [] then tail
    else
      var rest := EmitKeys(children, keys[1..], indent, tail);
      indent + (Name(keys[0]) + (":" + EmitNode(children[keys[0]], indent, rest)))
  }

  ghost function EmitNode(n: Node, indent: string, tail: string): string
    decreases n, 2, 0
  {
    match n
    case File(host) => "(contents:(host:\"" + (host + ("\"))\n" + tail))
    case Dir(children) =>
      var inner := indent + STEP;
      "(\n" + (inner + ("children:(\n" +
        EmitChildren(children, inner + STEP, Closing(indent, tail))))
  }

  /** What follows a node is appended unchanged. */
  lemma {:induction false} NodeTail(n: Node, indent: string, tail: string)
    ensures EmitNode(n, indent, tail) == EmitNode(n, indent, "") + tail
    decreases n, 2, 0
  {
    match n
    case File(host) =>
      assert "\"))\n" + tail == ("\"))\n" + "") + tail;
      assert host + (("\"))\n" + "") + tail) == (host + ("\"))\n" + "")) + tail;
    case Dir(children) =>
      var inner := indent + STEP;
      ChildrenTail(children, inner + STEP, Closing(indent, tail));
      ChildrenTail(children, inner + STEP, Closing(indent, ""));
      DirTail(children, indent, tail);
  }

  lemma DirTail(children: map<string, Node>, indent: string, tail: string)
    requires var inner, close := indent + STEP + STEP, Closing(indent, tail);
      EmitChildren(children, inner, close) == EmitChildren(children, inner, "") + close
    requires var inner, close := indent + STEP + STEP, Closing(indent, "");
      EmitChildren(children, inner, close) == EmitChildren(children, inner, "") + close
    ensures EmitNode(Dir(children), indent, tail) == EmitNode(Dir(children), indent, "") + tail
  {
    hide EmitChildren;
    assert ")\n" + tail == (")\n" + "") + tail;
    Regroup(indent + STEP, ")\n", indent, ")\n" + "", tail);
    assert Closing(indent, tail) == Closing(indent, "") + tail;
    hide Closing;
    var body := EmitChildren(children, indent + STEP + STEP, "");
    assert body + (Closing(indent, "") + tail) == body + Closing(indent, "") + tail;
    Regroup("(\n", indent + STEP, "children:(\n", body + Closing(indent, ""), tail);
  }

  lemma {:induction false} ChildrenTail(children: map<string, Node>, indent: string, tail: string)
    ensures EmitChildren(children, indent, tail) == EmitChildren(children, indent, "") + tail
    decreases Dir(children), 1, 0
  {
    KeysAllIn(children);
    KeysTail(children, SortedKeys(children.Keys), indent, tail);
  }

  lemma {:induction false} KeysTail(children: map<string, Node>, keys: seq<string>, indent: string, tail: string)
    requires AllIn(keys, children)
    ensures EmitKeys(children, keys, indent, tail) == EmitKeys(children, keys, indent, "") + tail
    decreases Dir(children), 0, |keys|
  {
    if keys == [] {
    } else {
      var n := children[keys[0]];
      var rest := EmitKeys(children, keys[1..], indent, "");
      KeysTail(children, keys[1..], indent, tail);
      NodeTail(n, indent, rest);
      NodeTail(n, indent, rest + tail);
      var e := EmitNode(n, indent, "");
      Regroup(indent, Name(keys[0]), ":", e + rest, tail);
      hide EmitNode, Name, EmitKeys;
      assert e + (rest + tail) == e + rest + tail;
    }
  }

  lemma Regroup(a: string, b: string, c: string, d: string, tail: string)
    ensures a + (b + (c + (d + tail))) == (a + (b + (c + d))) + tail
  {
    assert c + (d + tail) == (c + d) + tail;
    assert b + ((c + d) + tail) == (b + (c + d)) + tail;
  }

  /** One entry: indent, name, colon, node. */
  ghost function Entry(key: string, n: Node, indent: string): string {
    indent + (Name(key) + (":" + EmitNode(n, indent, "")))
  }

  lemma KeysStep(children: map<string, Node>, keys: seq<string>, indent: string)
    requires AllIn(keys, children)
    ensures EmitKeys(children, keys, indent, "")
         == if keys == [] then ""
            else Entry(keys[0], children[keys[0]], indent) + EmitKeys(children, keys[1..], indent, "")
  {
    if keys == [] { return; }
    var n := children[keys[0]];
    var rest := EmitKeys(children, keys[1..], indent, "");
    NodeTail(n, indent, rest);
    Regroup(indent, Name(keys[0]), ":", EmitNode(n, indent, ""), rest);
  }

  // ----- What the text says

  ghost function PairsOf(children: map<string, Node>, keys: seq<string>): seq<(string, Val)>
    requires AllIn(keys, children)
    decreases Dir(children), 0, |keys|
  {
    if keys == [] then [] else [(keys[0], ValOf(children[keys[0]]))] + PairsOf(children, keys[1..])
  }

  ghost function ChildPairs(children: map<string, Node>): seq<(string, Val)>
    decreases Dir(children), 1, 0
  {
    KeysAllIn(children);
    PairsOf(children, SortedKeys(children.Keys))
  }

  ghost function ValOf(n: Node): Val
    decreases n, 2, 0
  {
    match n
    case File(host) => Tuple([("contents", Tuple([("host", Str(host))]))])
    case Dir(children) => Tuple([("children", Tuple(ChildPairs(children)))])
  }

  function Append(pairs: seq<(string, Val)>, r: Option<(seq<(string, Val)>, string)>)
    : Option<(seq<(string, Val)>, string)>
  {
    if r.None? then None else Some((pairs + r.value.0, r.value.1))
  }

  lemma AppendCons(k: string, v: Val, pairs: seq<(string, Val)>, r: Option<(seq<(string, Val)>, string)>)
    ensures Append([(k, v)] + pairs, r) == Prepend(k, v, Append(pairs, r))
    ensures Append([], r) == r
  {
    if r.Some? {
      assert [(k, v)] + pairs + r.value.0 == [(k, v)] + (pairs + r.value.0);
      assert [] + r.value.0 == r.value.0;
    }
  }

  predicate AllSpaces(s: string) { forall i | 0 <= i < |s| :: s[i] in SPACES }

  // ----- Reading it back

  /** Lower-case letters and digits need no quoting in names. */
  lemma PlainName(s: string)
    requires forall i | 0 <= i < |s| :: 'a' <= s[i] <= 'z' || '0' <= s[i] <= '9'
    ensures Name(s) == s
  {
    var t := NAME_TERMINALS;
    assert forall k | 0 <= k < |t| :: t[k] < '0' || '9' < t[k] < 'a' || 'z' < t[k];
  }

  /** The only pair of a tuple. */
  lemma OnlyPairReads(k: string, s: string, v: Val, tail: string)
    requires k != "" && ReadValue(s) == Some((v, ")" + tail))
    ensures ReadPairs(Name(k) + (":" + s)) == Some(([(k, v)], tail))
  {
    hide ReadValue, ReadPairs, Name;
    PairReads(k, s, v, ")" + tail);
    PairsEnd(tail);
    assert [(k, v)] + [] == [(k, v)];
  }

  /** A file node reads as its tuple. */
  lemma FileReads(host: string, indent: string, tail: string)
    requires Clean(host)
    ensures ReadValue(EmitNode(File(host), indent, tail)) == Some((ValOf(File(host)), "\n" + tail))
  {
    PlainName("contents");
    PlainName("host");
    hide ReadValue, ReadPairs, Name;
    var last := "\n" + tail;
    var quoted := "\"" + (host + ("\"" + (")" + (")" + last))));
    var inner := "host" + (":" + quoted);
    var outer := "contents" + (":" + ("(" + inner));
    RawReads(host, ")" + (")" + last));
    OnlyPairReads("host", quoted, Str(host), ")" + last);
    TupleReads(inner, [("host", Str(host))], ")" + last);
    OnlyPairReads("contents", "(" + inner, Tuple([("host", Str(host))]), last);
    TupleReads(outer, [("contents", Tuple([("host", Str(host))]))], last);
    FileLayout(host, indent, tail);
  }

  lemma FileLayout(host: string, indent: string, tail: string)
    ensures var end := "\"" + (")" + (")" + ("\n" + tail)));
      EmitNode(File(host), indent, tail)
        == "(" + ("contents" + (":" + ("(" + ("host" + (":" + ("\"" + (host + end)))))))
  {
    assert "\"))\n" + tail == "\"" + (")" + (")" + ("\n" + tail)));
    var rest := host + ("\"))\n" + tail);
    assert "(contents:(host:\"" + rest == "(" + ("contents" + (":" + ("(" + ("host" + (":" + ("\"" + rest))))));
  }

  /** A node reads as its tuple, and leaves the newline and what follows. */
  lemma {:induction false} NodeReads(n: Node, indent: string, tail: string)
    requires Printable(n) && AllSpaces(indent)
    ensures ReadValue(EmitNode(n, indent, tail)) == Some((ValOf(n), "\n" + tail))
    decreases n, 2, 0
  {
    match n
    case File(host) => FileReads(host, indent, tail);
    case Dir(children) =>
      var inner := indent + STEP;
      var close := Closing(indent, tail);
      ChildrenRead(children, inner + STEP, close);
      DirReads(ChildPairs(children), EmitChildren(children, inner + STEP, close), indent, tail);
  }

  lemma ClosingReads(indent: string, tail: string)
    requires AllSpaces(indent)
    ensures ReadPairs(Closing(indent, tail)) == Some(([], "\n" + indent + (")" + ("\n" + tail))))
  {
    hide ReadPairs;
    var outer := "\n" + indent + (")" + ("\n" + tail));
    assert Closing(indent, tail) == indent + STEP + (")" + outer);
    PairsAfterSpace(indent + STEP, ")" + outer);
    PairsEnd(outer);
  }

  lemma MembersRead(pairs: seq<(string, Val)>, body: string, indent: string, tail: string)
    requires AllSpaces(indent) && ReadPairs(body) == Append(pairs, ReadPairs(Closing(indent, tail)))
    ensures ReadValue("(" + ("\n" + body)) == Some((Tuple(pairs), "\n" + indent + (")" + ("\n" + tail))))
  {
    hide ReadPairs, ReadValue, Closing;
    ClosingReads(indent, tail);
    assert pairs + [] == pairs;
    PairsAfterSpace("\n", body);
    TupleReads("\n" + body, pairs, "\n" + indent + (")" + ("\n" + tail)));
  }

  /** The brackets around the children of a directory. */
  lemma DirReads(pairs: seq<(string, Val)>, body: string, indent: string, tail: string)
    requires AllSpaces(indent) && ReadPairs(body) == Append(pairs, ReadPairs(Closing(indent, tail)))
    ensures ReadValue("(\n" + (indent + STEP + ("children:(\n" + body)))
         == Some((Tuple([("children", Tuple(pairs))]), "\n" + tail))
  {
    hide ReadValue, ReadPairs, Name, Closing, Append, Prepend;
    PlainName("children");
    MembersRead(pairs, body, indent, tail);
    var last := "\n" + tail;
    var members := "(" + ("\n" + body);
    PairReads("children", members, Tuple(pairs), "\n" + indent + (")" + last));
    PairsAfterSpace("\n" + indent, ")" + last);
    PairsEnd(last);
    PrependToNothing("children", Tuple(pairs), last);
    var ws := "\n" + (indent + STEP);
    PairsAfterSpace(ws, "children" + (":" + members));
    TupleReads(ws + ("children" + (":" + members)), [("children", Tuple(pairs))], last);
    DirLayout(indent + STEP, body);
  }

  lemma PrependToNothing(k: string, v: Val, tail: string)
    ensures Prepend(k, v, Some(([], tail))) == Some(([(k, v)], tail))
  {
    assert [(k, v)] + [] == [(k, v)];
  }

  lemma DirLayout(inner: string, body: string)
    ensures "(\n" + (inner + ("children:(\n" + body))
         == "(" + ("\n" + inner + ("children" + (":" + ("(" + ("\n" + body)))))
  {
    assert "children:(\n" + body == "children" + (":" + ("(" + ("\n" + body)));
  }

  lemma {:induction false} ChildrenRead(children: map<string, Node>, indent: string, tail: string)
    requires Printable(Dir(children)) && AllSpaces(indent)
    ensures ReadPairs(EmitChildren(children, indent, tail)) == Append(ChildPairs(children), ReadPairs(tail))
    decreases Dir(children), 1, 0
  {
    KeysAllIn(children);
    KeysRead(children, SortedKeys(children.Keys), indent, tail);
  }

  lemma {:induction false} KeysRead(children: map<string, Node>, keys: seq<string>, indent: string, tail: string)
    requires AllIn(keys, children) && Printable(Dir(children)) && AllSpaces(indent)
    ensures ReadPairs(EmitKeys(children, keys, indent, tail)) == Append(PairsOf(children, keys), ReadPairs(tail))
    decreases Dir(children), 0, |keys|
  {
    hide ReadPairs, ReadValue, Name;
    if keys == [] {
      AppendCons("", Str(""), [], ReadPairs(tail));
    } else {
      var n := children[keys[0]];
      var rest := EmitKeys(children, keys[1..], indent, tail);
      KeysRead(children, keys[1..], indent, tail);
      NodeReads(n, indent, rest);
      PairsAfterSpace("\n", rest);
      PairReads(keys[0], EmitNode(n, indent, rest), ValOf(n), "\n" + rest);
      PairsAfterSpace(indent, Name(keys[0]) + (":" + EmitNode(n, indent, rest)));
      AppendCons(keys[0], ValOf(n), PairsOf(children, keys[1..]), ReadPairs(tail));
    }
  }

  // ----- From the text back to the tree

  /** The node a value describes. */
  function NodeOf(v: Val): Option<Node>
    decreases v, 0
  {
    if v.Str? || |v.pairs| != 1 || v.pairs[0].1.Str? then None
    else
      var inner := v.pairs[0].1.pairs;
      if v.pairs[0].0 == "contents" && |inner| == 1 && inner[0].0 == "host" && inner[0].1.Str? then
        Some(File(inner[0].1.s))
      else if v.pairs[0].0 == "children" then
        var m := MapOf(inner);
        if m.None? then None else Some(Dir(m.value))
      else None
  }

  function MapOf(pairs: seq<(string, Val)>): Option<map<string, Node>>
    decreases pairs, 1
  {
    if pairs == [] then Some(map[])
    else
      assert pairs decreases to pairs[0];
      assert pairs[0] decreases to pairs[0].1;
      var n, rest := NodeOf(pairs[0].1), MapOf(pairs[1..]);
      if n.None? || rest.None? then None else Some(rest.value[pairs[0].0 := n.value])
  }

  lemma {:induction false} NodeComesBack(n: Node)
    ensures NodeOf(ValOf(n)) == Some(n)
    decreases n, 2, 0
  {
    match n
    case File(host) =>
    case Dir(children) => ChildrenComeBack(children);
  }

  lemma {:induction false} ChildrenComeBack(children: map<string, Node>)
    ensures MapOf(ChildPairs(children)) == Some(children)
    decreases Dir(children), 1, 0
  {
    var keys := SortedKeys(children.Keys);
    KeysAllIn(children);
    SortedKeysList(children.Keys);
    KeysComeBack(children, keys);
    assert (map k | k in keys :: children[k]) == children by {
      assert forall k :: k in keys <==> k in (set x | x in keys);
    }
  }

  lemma {:induction false} KeysComeBack(children: map<string, Node>, keys: seq<string>)
    requires AllIn(keys, children)
    ensures MapOf(PairsOf(children, keys)) == Some(map k | k in keys :: children[k])
    decreases Dir(children), 0, |keys|
  {
    if keys == [] {
    } else {
      var rest := keys[1..];
      NodeComesBack(children[keys[0]]);
      KeysComeBack(children, rest);
      assert (map k | k in rest :: children[k])[keys[0] := children[keys[0]]] == (map k | k in keys :: children[k]) by {
        assert keys == [keys[0]] + rest;
      }
      assert PairsOf(children, keys)[1..] == PairsOf(children, rest);
    }
  }

  /** Printing a node and reading it back gives the same node. */
  lemma NodeRoundTrip(n: Node, indent: string, tail: string)
    requires Printable(n) && AllSpaces(indent)
    ensures var r := ReadValue(EmitNode(n, indent, tail));
      r.Some? && NodeOf(r.value.0) == Some(n) && r.value.1 == "\n" + tail
  {
    NodeReads(n, indent, tail);
    NodeComesBack(n);
  }

  // ----- The whole manifest

  datatype Config = Config(children: map<string, Node>, program: string, args: seq<string>,
                           env: map<string, string>, diskSize: string)

  function EmitArgs(args: seq<string>, i: nat, tail: string): string {
    if args == [] then tail else " " + (Decimal(i) + (":" + (Value(args[0]) + EmitArgs(args[1..], i + 1, tail))))
  }

  function EmitArguments(program: string, args: seq<string>, tail: string): string {
    if args == [] then tail
    else "    arguments:(0:" + (Value(program) + EmitArgs(args, 1, ")\n" + tail))
  }

  ghost function EmitEnv(env: map<string, string>, keys: seq<string>, tail: string): string
    requires forall i | 0 <= i < |keys| :: keys[i] in env
  {
    if keys == [] then tail
    else Name(keys[0]) + (":" + (Value(env[keys[0]]) + (" " + EmitEnv(env, keys[1..], tail))))
  }

  ghost function EmitEnvironment(env: map<string, string>, tail: string): string {
    EnvKeysIn(env);
    "    environment:(" + EmitEnv(env, SortedKeys(env.Keys), ")\n" + tail)
  }

  lemma EnvKeysIn(env: map<string, string>)
    ensures forall i | 0 <= i < |SortedKeys(env.Keys)| :: SortedKeys(env.Keys)[i] in env
  {
    var keys := SortedKeys(env.Keys);
    SortedKeysList(env.Keys);
    assert forall i | 0 <= i < |keys| :: keys[i] in (set k | k in keys);
  }

  function EmitSize(size: string, tail: string): string {
    if size == "" then tail else "    imagesize:" + (size + ("\n" + tail))
  }

  /** BuildManifest, from the tree on. */
  ghost function Manifest(c: Config): string {
    "(\n    children:(\n" + EmitChildren(c.children, STEP + STEP,
      "    )\n    program:" + (Value(c.program) + ("\n" + Sections(c))))
  }

  ghost function Sections(c: Config): string {
    EmitArguments(c.program, c.args, EmitEnvironment(c.env, EmitSize(c.diskSize, ")")))
  }

  /** What the manifest says. */
  function ArgPairs(args: seq<string>, i: nat): seq<(string, Val)> {
    if args == [] then [] else [(Decimal(i), Str(args[0]))] + ArgPairs(args[1..], i + 1)
  }

  ghost function EnvPairs(env: map<string, string>, keys: seq<string>): seq<(string, Val)>
    requires forall i | 0 <= i < |keys| :: keys[i] in env
  {
    if keys == [] then [] else [(keys[0], Str(env[keys[0]]))] + EnvPairs(env, keys[1..])
  }

  function SizePairs(size: string): seq<(string, Val)> {
    if size == "" then [] else [("imagesize", Str(size))]
  }

  function ArgumentPairs(program: string, args: seq<string>): seq<(string, Val)> {
    if args == [] then [] else [("arguments", Tuple([("0", Str(program))] + ArgPairs(args, 1)))]
  }

  ghost function EnvironmentPairs(env: map<string, string>): seq<(string, Val)> {
    EnvKeysIn(env);
    [("environment", Tuple(EnvPairs(env, SortedKeys(env.Keys))))]
  }

  /** What the sections after the program line say. */
  ghost function SectionPairs(c: Config): seq<(string, Val)> {
    ArgumentPairs(c.program, c.args) + (EnvironmentPairs(c.env) + SizePairs(c.diskSize))
  }

  ghost function ManifestPairs(c: Config): seq<(string, Val)> {
    [("children", Tuple(ChildPairs(c.children)))] + ([("program", Str(c.program))] + SectionPairs(c))
  }

  // ----- What the pairs tell

  function Find(pairs: seq<(string, Val)>, name: string): Option<Val> {
    if pairs == [] then None else if pairs[0].0 == name then Some(pairs[0].1) else Find(pairs[1..], name)
  }

  /** The program, then itself and the arguments under their numbers, the variables in order of
      their names with their values, and the size if there is one. */
  ghost predicate Tells(pairs: seq<(string, Val)>, program: string, args: seq<string>,
                        env: map<string, string>, size: string)
  {
    && Find(pairs, "program") == Some(Str(program))
    && Find(pairs, "arguments").Some? == (args != [])
    && (args != [] ==> TellsArgs(Find(pairs, "arguments").value, program, args))
    && Find(pairs, "environment").Some? && TellsEnv(Find(pairs, "environment").value, env)
    && Find(pairs, "imagesize") == if size == "" then None else Some(Str(size))
  }

  ghost predicate TellsArgs(v: Val, program: string, args: seq<string>) {
    && v.Tuple? && |v.pairs| == |args| + 1 && v.pairs[0] == ("0", Str(program))
    && forall i | 0 <= i < |args| :: v.pairs[i + 1] == (Decimal(i + 1), Str(args[i]))
  }

  ghost predicate TellsEnv(v: Val, env: map<string, string>) {
    && v.Tuple? && (forall i | 0 <= i < |v.pairs| :: IsVariable(v.pairs[i], env))
    && (forall k | k in env :: exists i | 0 <= i < |v.pairs| :: v.pairs[i].0 == k)
    && (forall i, j | 0 <= i < j < |v.pairs| :: Less(v.pairs[i].0, v.pairs[j].0))
  }

  ghost predicate IsVariable(pair: (string, Val), env: map<string, string>) {
    pair.0 in env && pair.1 == Str(env[pair.0])
  }

  lemma {:induction false} ArgPairsAre(args: seq<string>, i: nat)
    ensures |ArgPairs(args, i)| == |args|
    ensures forall k | 0 <= k < |args| :: ArgPairs(args, i)[k] == (Decimal(i + k), Str(args[k]))
    decreases |args|
  {
    hide Decimal;
    if args == [] {
    } else {
      ArgPairsAre(args[1..], i + 1);
      forall k | 0 <= k < |args| ensures ArgPairs(args, i)[k] == (Decimal(i + k), Str(args[k])) {
        if k > 0 { assert ArgPairs(args[1..], i + 1)[k - 1] == (Decimal(i + 1 + (k - 1)), Str(args[1..][k - 1])); }
      }
    }
  }

  lemma {:induction false} EnvPairsAre(env: map<string, string>, keys: seq<string>)
    requires forall i | 0 <= i < |keys| :: keys[i] in env
    ensures |EnvPairs(env, keys)| == |keys|
    ensures forall k | 0 <= k < |keys| :: EnvPairs(env, keys)[k] == (keys[k], Str(env[keys[k]]))
    decreases |keys|
  {
    if keys == [] {
    } else {
      EnvPairsAre(env, keys[1..]);
      forall k | 0 <= k < |keys| ensures EnvPairs(env, keys)[k] == (keys[k], Str(env[keys[k]])) {
        if k > 0 { assert EnvPairs(env, keys[1..])[k - 1] == (keys[1..][k - 1], Str(env[keys[1..][k - 1]])); }
      }
    }
  }

  lemma KeysAscend(keys: seq<string>)
    requires Sorted(keys) && Distinct(keys)
    ensures forall i, j | 0 <= i < j < |keys| :: Less(keys[i], keys[j])
  {
    hide Less;
    forall i, j | 0 <= i < j < |keys| ensures Less(keys[i], keys[j]) {
      LessTotal(keys[i], keys[j]);
    }
  }

  lemma PairsTellEnv(env: map<string, string>, keys: seq<string>, v: Val)
    requires Elems(keys) == env.Keys && v.Tuple? && |v.pairs| == |keys|
    requires forall i, j | 0 <= i < j < |keys| :: Less(keys[i], keys[j])
    requires forall k | 0 <= k < |keys| :: keys[k] in env && v.pairs[k] == (keys[k], Str(env[keys[k]]))
    ensures TellsEnv(v, env)
  {
    hide Less;
    forall k | k in env ensures exists i | 0 <= i < |v.pairs| :: v.pairs[i].0 == k {
      assert k in Elems(keys);
      var i :| 0 <= i < |keys| && keys[i] == k;
      assert v.pairs[i].0 == k;
    }
  }

  lemma EnvironmentTells(env: map<string, string>)
    ensures |EnvironmentPairs(env)| == 1 && EnvironmentPairs(env)[0].0 == "environment"
    ensures TellsEnv(EnvironmentPairs(env)[0].1, env)
  {
    hide SortedKeys, Less, EnvPairs, TellsEnv;
    EnvKeysIn(env);
    var keys := SortedKeys(env.Keys);
    SortedKeysList(env.Keys);
    EnvPairsAre(env, keys);
    KeysAscend(keys);
    PairsTellEnv(env, keys, EnvironmentPairs(env)[0].1);
  }

  lemma FindStep(pair: (string, Val), rest: seq<(string, Val)>, name: string)
    ensures Find([pair] + rest, name) == if pair.0 == name then Some(pair.1) else Find(rest, name)
  {
    assert ([pair] + rest)[1..] == rest;
  }

  lemma SectionFinds(c: Config, name: string)
    ensures Find(SectionPairs(c), name)
         == if name == "arguments" && c.args != [] then Some(ArgumentPairs(c.program, c.args)[0].1)
            else if name == "environment" then Some(EnvironmentPairs(c.env)[0].1)
            else if name == "imagesize" && c.diskSize != "" then Some(Str(c.diskSize)) else None
  {
    hide Find, ArgPairs, EnvPairs;
    var args, env, size := ArgumentPairs(c.program, c.args), EnvironmentPairs(c.env), SizePairs(c.diskSize);
    assert Find([], name).None? by { NothingFound(name); }
    if c.diskSize != "" {
      FindStep(size[0], [], name);
      assert size == [size[0]] + [];
    }
    FindStep(env[0], size, name);
    assert env + size == [env[0]] + size;
    if c.args == [] {
      assert args + (env + size) == env + size;
    } else {
      FindStep(args[0], env + size, name);
      assert args + (env + size) == [args[0]] + (env + size);
    }
  }

  lemma NothingFound(name: string)
    ensures Find([], name).None?
  {
  }

  /** What a configuration says is what its parts are. */
  lemma PairsTell(c: Config)
    ensures Tells(ManifestPairs(c), c.program, c.args, c.env, c.diskSize)
  {
    hide Decimal, EnvironmentPairs, ChildPairs, ArgPairs, TellsEnv, Find, SectionPairs;
    EnvironmentTells(c.env);
    ArgPairsAre(c.args, 1);
    var tree, program := ("children", Tuple(ChildPairs(c.children))), ("program", Str(c.program));
    forall name ensures Find(ManifestPairs(c), name)
                     == if name == "children" then Some(tree.1) else if name == "program" then Some(program.1)
                        else Find(SectionPairs(c), name)
    {
      FindStep(tree, [program] + SectionPairs(c), name);
      FindStep(program, SectionPairs(c), name);
    }
    SectionFinds(c, "arguments");
    SectionFinds(c, "environment");
    SectionFinds(c, "imagesize");
  }

  /** Printed raw, s is read as one word: it has no terminal and does not open a quotation. */
  predicate OneWord(s: string) { !ContainsAny(s, VALUE_TERMINALS) && (s == "" || s[0] != '"') }

  predicate NoneEmpty(words: seq<string>) { forall i | 0 <= i < |words| :: words[i] != "" }

  /** No argument, variable or value is empty, and the size is one word. */
  predicate Settable(args: seq<string>, env: map<string, string>, diskSize: string) {
    NoneEmpty(args) && (forall k | k in env :: k != "" && env[k] != "") && OneWord(diskSize)
  }

  ghost predicate Sayable(c: Config) {
    Printable(Dir(c.children)) && c.program != "" && Settable(c.args, c.env, c.diskSize)
  }

  /** A plain string value among the pairs. */
  lemma StringPairReads(k: string, v: string, tail: string)
    requires k != "" && v != "" && tail != "" && tail[0] in VALUE_TERMINALS
    ensures ReadPairs(Name(k) + (":" + (Value(v) + tail))) == Prepend(k, Str(v), ReadPairs(tail))
  {
    hide ReadPairs, ReadValue, Name, Value;
    ValueReads(v, tail);
    PairReads(k, Value(v) + tail, Str(v), tail);
  }

  lemma {:induction false} ArgsRead(args: seq<string>, i: nat, tail: string)
    requires NoneEmpty(args) && tail != "" && tail[0] in VALUE_TERMINALS
    ensures EmitArgs(args, i, tail) != "" && EmitArgs(args, i, tail)[0] in VALUE_TERMINALS
    ensures ReadPairs(EmitArgs(args, i, tail)) == Append(ArgPairs(args, i), ReadPairs(tail))
    decreases |args|
  {
    hide ReadPairs, Name, Value, Decimal;
    AppendCons("", Str(""), [], ReadPairs(tail));
    if args == [] {
    } else {
      var rest := EmitArgs(args[1..], i + 1, tail);
      ArgsRead(args[1..], i + 1, tail);
      PlainName(Decimal(i));
      StringPairReads(Decimal(i), args[0], rest);
      PairsAfterSpace(" ", Decimal(i) + (":" + (Value(args[0]) + rest)));
      AppendCons(Decimal(i), Str(args[0]), ArgPairs(args[1..], i + 1), ReadPairs(tail));
    }
  }

  lemma {:induction false} EnvReads(env: map<string, string>, keys: seq<string>, tail: string)
    requires forall i | 0 <= i < |keys| :: keys[i] in env
    requires forall k | k in env :: k != "" && env[k] != ""
    ensures ReadPairs(EmitEnv(env, keys, tail)) == Append(EnvPairs(env, keys), ReadPairs(tail))
    decreases |keys|
  {
    hide ReadPairs, Name, Value;
    AppendCons("", Str(""), [], ReadPairs(tail));
    if keys == [] {
    } else {
      var rest := EmitEnv(env, keys[1..], tail);
      EnvReads(env, keys[1..], tail);
      StringPairReads(keys[0], env[keys[0]], " " + rest);
      PairsAfterSpace(" ", rest);
      AppendCons(keys[0], Str(env[keys[0]]), EnvPairs(env, keys[1..]), ReadPairs(tail));
    }
  }

  /** "    name:" and a value. */
  lemma SectionReads(name: string, text: string, v: Val, tail: string)
    requires name != "" && Name(name) == name && ReadValue(text) == Some((v, tail))
    ensures ReadPairs("    " + (name + (":" + text))) == Prepend(name, v, ReadPairs(tail))
  {
    hide ReadPairs, ReadValue, Name;
    PairReads(name, text, v, tail);
    PairsAfterSpace("    ", name + (":" + text));
  }

  lemma WordReads(s: string, tail: string)
    requires s != "" && OneWord(s) && tail != "" && tail[0] in VALUE_TERMINALS
    ensures ReadValue(s + tail) == Some((Str(s), tail))
  {
    RunStops(s, tail, VALUE_TERMINALS);
    assert s[0] !in VALUE_TERMINALS;
  }

  lemma SizeReads(size: string, tail: string)
    requires OneWord(size)
    ensures ReadPairs(EmitSize(size, tail)) == Append(SizePairs(size), ReadPairs(tail))
  {
    if size != "" { WordReads(size, "\n" + tail); }
    hide ReadPairs, ReadValue, Name, Value;
    PlainName("imagesize");
    AppendCons("imagesize", Str(size), [], ReadPairs(tail));
    if size != "" {
      SectionReads("imagesize", size + ("\n" + tail), Str(size), "\n" + tail);
      PairsAfterSpace("\n", tail);
      Layouts(size + ("\n" + tail));
      assert [("imagesize", Str(size))] + [] == [("imagesize", Str(size))];
    }
  }

  /** The pieces of the fixed text, as the reader takes them. */
  lemma Layouts(body: string)
    ensures "(\n    children:(\n" + body == "(" + ("\n    children:(\n" + body)
    ensures "\n    children:(\n" + body == "\n" + ("    " + ("children" + (":" + ("(" + ("\n" + body)))))
    ensures "    arguments:(0:" + body == "    " + ("arguments" + (":(" + ("0" + (":" + body))))
    ensures "    environment:(" + body == "    " + ("environment" + (":(" + body))
    ensures "    imagesize:" + body == "    " + ("imagesize" + (":" + body))
  {
  }

  /** A bracketed section whose body reads as pairs and then closes. */
  lemma TupleSectionReads(name: string, body: string, pairs: seq<(string, Val)>, tail: string)
    requires name != "" && Name(name) == name
    requires ReadPairs(body) == Append(pairs, ReadPairs(")\n" + tail))
    ensures ReadPairs("    " + (name + (":(" + body))) == Prepend(name, Tuple(pairs), ReadPairs(tail))
  {
    hide ReadPairs, ReadValue, Name;
    assert ")\n" + tail == ")" + ("\n" + tail);
    PairsEnd("\n" + tail);
    assert pairs + [] == pairs;
    TupleReads(body, pairs, "\n" + tail);
    SectionReads(name, "(" + body, Tuple(pairs), "\n" + tail);
    PairsAfterSpace("\n", tail);
    assert ":(" + body == ":" + ("(" + body);
  }

  lemma EnvironmentReads(env: map<string, string>, tail: string)
    requires forall k | k in env :: k != "" && env[k] != ""
    ensures (EnvKeysIn(env); ReadPairs(EmitEnvironment(env, tail))
         == Prepend("environment", Tuple(EnvPairs(env, SortedKeys(env.Keys))), ReadPairs(tail)))
  {
    EnvKeysIn(env);
    hide SortedKeys, EmitEnv, EnvPairs, ReadPairs;
    var keys := SortedKeys(env.Keys);
    var body := EmitEnv(env, keys, ")\n" + tail);
    EnvReads(env, keys, ")\n" + tail);
    PlainName("environment");
    TupleSectionReads("environment", body, EnvPairs(env, keys), tail);
    Layouts(body);
  }

  lemma ArgumentsRead(program: string, args: seq<string>, tail: string)
    requires program != "" && args != [] && NoneEmpty(args)
    ensures ReadPairs(EmitArguments(program, args, tail))
         == Prepend("arguments", Tuple([("0", Str(program))] + ArgPairs(args, 1)), ReadPairs(tail))
  {
    hide ReadPairs, Value, EmitArgs, ArgPairs;
    var pairs := [("0", Str(program))] + ArgPairs(args, 1);
    var rest := EmitArgs(args, 1, ")\n" + tail);
    ArgsRead(args, 1, ")\n" + tail);
    PlainName("0");
    StringPairReads("0", program, rest);
    AppendCons("0", Str(program), ArgPairs(args, 1), ReadPairs(")\n" + tail));
    PlainName("arguments");
    TupleSectionReads("arguments", "0" + (":" + (Value(program) + rest)), pairs, tail);
    Layouts(Value(program) + rest);
  }

  lemma SectionsRead(c: Config)
    requires Sayable(c)
    ensures ReadPairs(Sections(c)) == Some((SectionPairs(c), ""))
  {
    hide ReadPairs, Printable, Value, EmitSize, EmitEnvironment;
    var sizeText := EmitSize(c.diskSize, ")");
    var envText := EmitEnvironment(c.env, sizeText);
    assert ")" + "" == ")";
    PairsEnd("");
    SizeReads(c.diskSize, ")");
    assert SizePairs(c.diskSize) + [] == SizePairs(c.diskSize);
    EnvironmentReads(c.env, sizeText);
    if c.args == [] {
      assert [] + (EnvironmentPairs(c.env) + SizePairs(c.diskSize)) == EnvironmentPairs(c.env) + SizePairs(c.diskSize);
    } else {
      ArgumentsRead(c.program, c.args, envText);
    }
  }

  lemma ProgramReads(c: Config)
    requires Sayable(c)
    ensures ReadPairs("\n    program:" + (Value(c.program) + ("\n" + Sections(c))))
         == Prepend("program", Str(c.program), ReadPairs(Sections(c)))
  {
    hide ReadPairs, ReadValue, Value, Printable, Sections;
    var text := Value(c.program) + ("\n" + Sections(c));
    PlainName("program");
    ValueReads(c.program, "\n" + Sections(c));
    SectionReads("program", text, Str(c.program), "\n" + Sections(c));
    PairsAfterSpace("\n", Sections(c));
    PairsAfterSpace("\n", "    " + ("program" + (":" + text)));
    assert "\n    program:" + text == "\n" + ("    " + ("program" + (":" + text)));
  }

  /** The whole manifest, read back, is the tuple of everything the configuration says. */
  lemma ManifestReads(c: Config)
    requires Sayable(c)
    ensures ReadValue(Manifest(c)) == Some((Tuple(ManifestPairs(c)), ""))
  {
    hide ReadPairs, ReadValue, Value, Printable, Sections, SectionPairs, EmitChildren, ChildPairs;
    var after := "\n    program:" + (Value(c.program) + ("\n" + Sections(c)));
    var tail := "    )" + after;
    var body := EmitChildren(c.children, STEP + STEP, tail);
    ChildrenRead(c.children, STEP + STEP, tail);
    TreeReads(ChildPairs(c.children), body, after);
    ProgramReads(c);
    SectionsRead(c);
    assert tail == "    )\n    program:" + (Value(c.program) + ("\n" + Sections(c)));
    TupleReads("\n    children:(\n" + body, ManifestPairs(c), "");
    Layouts(body);
  }

  /** The children section that opens a manifest, closed by four spaces and a bracket. */
  lemma TreeReads(pairs: seq<(string, Val)>, body: string, after: string)
    requires ReadPairs(body) == Append(pairs, ReadPairs("    )" + after))
    ensures ReadPairs("\n    children:(\n" + body) == Prepend("children", Tuple(pairs), ReadPairs(after))
  {
    PlainName("children");
    hide ReadPairs, ReadValue;
    assert "    )" + after == "    " + (")" + after);
    PairsAfterSpace("    ", ")" + after);
    PairsEnd(after);
    assert pairs + [] == pairs;
    PairsAfterSpace("\n", body);
    TupleReads("\n" + body, pairs, after);
    SectionReads("children", "(" + ("\n" + body), Tuple(pairs), after);
    PairsAfterSpace("\n", "    " + ("children" + (":" + ("(" + ("\n" + body)))));
    Layouts(body);
  }

  /** The file tree of a manifest text. */
  function TreeOf(text: string): Option<Node> {
    var r := ReadValue(text);
    if r.None? || r.value.0.Str? || |r.value.0.pairs| == 0 || r.value.0.pairs[0].0 != "children" then None
    else NodeOf(Tuple([r.value.0.pairs[0]]))
  }

  lemma TreeComesBack(c: Config)
    requires Sayable(c)
    ensures TreeOf(Manifest(c)) == Some(Dir(c.children))
  {
    ManifestReads(c);
    NodeComesBack(Dir(c.children));
  }

  /** BuildVolumeManifest: a tree on its own. */
  ghost function VolumeManifest(children: map<string, Node>): string {
    "(\n    children:(\n" + EmitChildren(children, STEP + STEP, "    )\n)")
  }

  lemma VolumeRoundTrip(children: map<string, Node>)
    requires Printable(Dir(children))
    ensures ReadValue(VolumeManifest(children)) == Some((ValOf(Dir(children)), ""))
    ensures TreeOf(VolumeManifest(children)) == Some(Dir(children))
  {
    hide ReadPairs, Printable, EmitChildren, ChildPairs;
    var body := EmitChildren(children, STEP + STEP, "    )\n)");
    ChildrenRead(children, STEP + STEP, "    )\n)");
    assert "    )\n)" == "    )" + "\n)";
    TreeReads(ChildPairs(children), body, "\n)");
    assert "\n)" == "\n" + (")" + "");
    PairsAfterSpace("\n", ")" + "");
    PairsEnd("");
    var pairs := [("children", Tuple(ChildPairs(children)))];
    assert pairs + [] == pairs;
    TupleReads("\n    children:(\n" + body, pairs, "");
    Layouts(body);
    NodeComesBack(Dir(children));
  }
}
