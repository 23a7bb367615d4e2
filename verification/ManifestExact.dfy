/** Host paths are printed raw between quotes, the size without quotes, and empty words as nothing
    (internal/image/builder.go). This module proves exactly when a manifest says what was meant. */
module ManifestExact {
  import opened Options
  import opened Decimals
  import opened StringSeqs
  import opened TupleText
  import opened ManifestTree
  import opened ManifestText

  // ----- Raw words

  /** Reading a run of backslashes stays ahead of what it should give, until the text ends. */
  lemma {:induction false} SlashesRunOut(s: string, j: nat, tail: string)
    requires 1 <= j <= |s| && forall i | 0 <= i < j :: s[i] == '\\'
    ensures var r := Unquote(s[j..] + "\"" + tail); r.None? || r.value.0 != s
    decreases |s| - j
  {
    var y := s[j..] + "\"" + tail;
    if j + 1 < |s| && s[j] == '\\' && s[j + 1] == '\\' {
      SlashesRunOut(s[1..], j + 1, tail);
      assert y[2..] == s[1..][j + 1..] + "\"" + tail;
      var r := Unquote(y[2..]);
      assert s == ['\\'] + s[1..];
      if r.Some? { assert ([y[1]] + r.value.0)[1..] == r.value.0; }
    } else if Unquote(y).Some? && y[0] != '"' {
      assert Unquote(y).value.0[0] != '\\';
    }
  }

  /** Whatever follows, raw text that comes back as itself holds no quote and no backslash. */
  lemma {:induction false} RawWordIsClean(s: string, tail: string)
    ensures var r := Unquote(s + "\"" + tail); r.Some? && r.value.0 == s ==> Clean(s)
  {
    var x := s + "\"" + tail;
    if s == "" {
    } else {
      var rest := s[1..];
      assert s == [s[0]] + rest;
      assert x[1..] == rest + "\"" + tail;
      if s[0] == '\\' {
        SlashAhead(s, tail);
      } else if s[0] != '"' {
        RawWordIsClean(rest, tail);
        var r := Unquote(x[1..]);
        if r.Some? { assert ([s[0]] + r.value.0)[1..] == r.value.0; }
      }
    }
  }

  lemma SlashAhead(s: string, tail: string)
    requires s != "" && s[0] == '\\'
    ensures var r := Unquote(s + "\"" + tail); r.None? || r.value.0 != s
  {
    var x := s + "\"" + tail;
    if |s| > 1 && s[1] == '\\' {
      SlashesRunOut(s[1..], 1, tail);
      assert x[2..] == s[1..][1..] + "\"" + tail;
      var r := Unquote(x[2..]);
      if r.Some? { assert ([x[1]] + r.value.0)[1..] == r.value.0; }
    } else if Unquote(x).Some? {
      assert Unquote(x).value.0[0] == x[1] != '\\';
    }
  }

  // ----- Readings that differ from what was meant

  ghost predicate Wrong(r: Option<(Val, string)>, v: Val) { r.None? || r.value.0 != v }

  ghost predicate WrongPairs(r: Option<(seq<(string, Val)>, string)>, pairs: seq<(string, Val)>) {
    r.None? || !(pairs <= r.value.0)
  }

  lemma NoPair(k: string, s: string)
    requires k != "" && ReadValue(s).None?
    ensures ReadPairs(Name(k) + (":" + s)).None?
  {
    var t := Name(k) + (":" + s);
    NameReads(k, ":" + s);
    NameStarts(k);
    assert t[0] == Name(k)[0];
    assert SkipSpaces(t) == t;
    assert (":" + s)[1..] == s;
  }

  lemma WrongValue(k: string, s: string, v: Val, pairs: seq<(string, Val)>)
    requires k != "" && Wrong(ReadValue(s), v)
    ensures WrongPairs(ReadPairs(Name(k) + (":" + s)), [(k, v)] + pairs)
  {
    hide ReadPairs, ReadValue, Name;
    if ReadValue(s).None? {
      NoPair(k, s);
    } else {
      var (w, rest) := ReadValue(s).value;
      PairReads(k, s, w, rest);
      StaysWrong(k, w, v, ReadPairs(rest), pairs);
    }
  }

  lemma StaysWrong(k: string, w: Val, v: Val, r: Option<(seq<(string, Val)>, string)>, pairs: seq<(string, Val)>)
    requires w != v || WrongPairs(r, pairs)
    ensures WrongPairs(Prepend(k, w, r), [(k, v)] + pairs)
  {
    assert ([(k, v)] + pairs)[0] == (k, v) && ([(k, v)] + pairs)[1..] == pairs;
    if r.Some? { assert ([(k, w)] + r.value.0)[0] == (k, w) && ([(k, w)] + r.value.0)[1..] == r.value.0; }
  }

  lemma WrongTuple(s: string, pairs: seq<(string, Val)>)
    requires WrongPairs(ReadPairs(s), pairs)
    ensures Wrong(ReadValue("(" + s), Tuple(pairs))
  {
    hide ReadPairs;
    assert ("(" + s)[1..] == s;
  }

  // ----- A tree with a quote or a backslash in a host path

  /** What the insert functions build: names and host paths are not empty. */
  ghost predicate Named(n: Node) {
    match n
    case File(host) => host != ""
    case Dir(children) => forall k | k in children :: k != "" && Named(children[k])
  }

  lemma QuotedWrong(host: string, tail: string)
    requires !Clean(host)
    ensures Wrong(ReadValue("\"" + (host + ("\"" + tail))), Str(host))
  {
    RawWordIsClean(host, tail);
    assert ("\"" + (host + ("\"" + tail)))[1..] == host + "\"" + tail;
    hide Unquote;
  }

  lemma FileWrong(host: string, indent: string, tail: string)
    requires !Clean(host)
    ensures Wrong(ReadValue(EmitNode(File(host), indent, tail)), ValOf(File(host)))
  {
    PlainName("contents");
    PlainName("host");
    hide ReadValue, ReadPairs, Name, Wrong, WrongPairs;
    var quoted := "\"" + (host + ("\"" + (")" + (")" + ("\n" + tail)))));
    var inner := "host" + (":" + quoted);
    QuotedWrong(host, ")" + (")" + ("\n" + tail)));
    WrongValue("host", quoted, Str(host), []);
    assert [("host", Str(host))] + [] == [("host", Str(host))];
    WrongTuple(inner, [("host", Str(host))]);
    WrongValue("contents", "(" + inner, Tuple([("host", Str(host))]), []);
    var pairs := [("contents", Tuple([("host", Str(host))]))];
    assert pairs + [] == pairs;
    WrongTuple("contents" + (":" + ("(" + inner)), pairs);
    FileLayout(host, indent, tail);
  }

  lemma {:induction false} NodeWrong(n: Node, indent: string, tail: string)
    requires Named(n) && !Printable(n) && AllSpaces(indent)
    ensures Wrong(ReadValue(EmitNode(n, indent, tail)), ValOf(n))
    decreases n, 2, 0
  {
    match n
    case File(host) => FileWrong(host, indent, tail);
    case Dir(children) =>
      var inner := indent + STEP;
      var close := Closing(indent, tail);
      ChildrenWrong(children, inner + STEP, close);
      DirWrong(ChildPairs(children), EmitChildren(children, inner + STEP, close), indent);
  }

  lemma DirWrong(pairs: seq<(string, Val)>, body: string, indent: string)
    requires AllSpaces(indent) && WrongPairs(ReadPairs(body), pairs)
    ensures Wrong(ReadValue("(\n" + (indent + STEP + ("children:(\n" + body))), Tuple([("children", Tuple(pairs))]))
  {
    PlainName("children");
    hide ReadValue, ReadPairs, Name, Wrong, WrongPairs;
    var members := "(" + ("\n" + body);
    PairsAfterSpace("\n", body);
    WrongTuple("\n" + body, pairs);
    WrongValue("children", members, Tuple(pairs), []);
    var whole := [("children", Tuple(pairs))];
    assert whole + [] == whole;
    var ws := "\n" + (indent + STEP);
    PairsAfterSpace(ws, "children" + (":" + members));
    WrongTuple(ws + ("children" + (":" + members)), whole);
    DirLayout(indent + STEP, body);
  }

  lemma {:induction false} ChildrenWrong(children: map<string, Node>, indent: string, tail: string)
    requires Named(Dir(children)) && !Printable(Dir(children)) && AllSpaces(indent)
    ensures WrongPairs(ReadPairs(EmitChildren(children, indent, tail)), ChildPairs(children))
    decreases Dir(children), 1, 0
  {
    var keys := SortedKeys(children.Keys);
    KeysAllIn(children);
    SortedKeysList(children.Keys);
    var bad :| bad in children && !Printable(children[bad]);
    assert bad in (set k | k in keys);
    KeysWrong(children, keys, indent, tail, bad);
  }

  lemma {:induction false} KeysWrong(children: map<string, Node>, keys: seq<string>,
                                     indent: string, tail: string, bad: string)
    requires AllIn(keys, children) && Named(Dir(children)) && AllSpaces(indent)
    requires bad in keys && !Printable(children[bad])
    ensures WrongPairs(ReadPairs(EmitKeys(children, keys, indent, tail)), PairsOf(children, keys))
    decreases Dir(children), 0, |keys|
  {
    hide ReadPairs, ReadValue, Name, Wrong, WrongPairs;
    var n := children[keys[0]];
    var rest := EmitKeys(children, keys[1..], indent, tail);
    var text := EmitNode(n, indent, rest);
    PairsAfterSpace(indent, Name(keys[0]) + (":" + text));
    if Printable(n) {
      assert bad in keys[1..] by { assert keys == [keys[0]] + keys[1..]; }
      KeysWrong(children, keys[1..], indent, tail, bad);
      NodeReads(n, indent, rest);
      PairsAfterSpace("\n", rest);
      PairReads(keys[0], text, ValOf(n), "\n" + rest);
      StaysWrong(keys[0], ValOf(n), ValOf(n), ReadPairs(rest), PairsOf(children, keys[1..]));
    } else {
      NodeWrong(n, indent, rest);
      WrongValue(keys[0], text, ValOf(n), PairsOf(children, keys[1..]));
    }
  }

  /** A node reads as its tuple exactly when its host paths are free of quotes and backslashes. */
  lemma NodeReadsExactly(n: Node, indent: string, tail: string)
    requires Named(n) && AllSpaces(indent)
    ensures ReadValue(EmitNode(n, indent, tail)) == Some((ValOf(n), "\n" + tail)) <==> Printable(n)
  {
    hide ReadValue, EmitNode, ValOf;
    if Printable(n) { NodeReads(n, indent, tail); } else { NodeWrong(n, indent, tail); }
  }

  // ----- The whole manifest

  lemma TreeWrong(pairs: seq<(string, Val)>, body: string, more: seq<(string, Val)>)
    requires WrongPairs(ReadPairs(body), pairs)
    ensures WrongPairs(ReadPairs("\n    children:(\n" + body), [("children", Tuple(pairs))] + more)
  {
    PlainName("children");
    hide ReadPairs, ReadValue, Wrong, WrongPairs;
    PairsAfterSpace("\n", body);
    WrongTuple("\n" + body, pairs);
    var text := "(" + ("\n" + body);
    WrongValue("children", text, Tuple(pairs), more);
    PairsAfterSpace("    ", "children" + (":" + text));
    PairsAfterSpace("\n", "    " + ("children" + (":" + text)));
    Layouts(body);
  }

  // ----- Settings that cannot be said

  /** An empty value is no value. */
  lemma EmptyWrong(tail: string)
    requires tail != "" && tail[0] in VALUE_TERMINALS && tail[0] != '('
    ensures Wrong(ReadValue(Value("") + tail), Str(""))
  {
    assert Value("") + tail == tail;
  }

  lemma EmptyNameWrong(tail: string)
    ensures ReadPairs(Name("") + (":" + tail)).None?
  {
    assert Name("") + (":" + tail) == ":" + tail;
  }

  lemma ArgsStart(args: seq<string>, i: nat, tail: string)
    requires tail != "" && tail[0] == ')'
    ensures var text := EmitArgs(args, i, tail); text != "" && (text[0] == ' ' || text[0] == ')')
  {
  }

  lemma {:induction false} ArgsWrong(args: seq<string>, i: nat, tail: string)
    requires !NoneEmpty(args) && tail != "" && tail[0] == ')'
    ensures WrongPairs(ReadPairs(EmitArgs(args, i, tail)), ArgPairs(args, i))
    decreases |args|
  {
    hide ReadPairs, ReadValue, Name, Value, Decimal, Wrong, WrongPairs;
    var k := Decimal(i);
    var rest, pairs := EmitArgs(args[1..], i + 1, tail), ArgPairs(args[1..], i + 1);
    PlainName(k);
    ArgsStart(args[1..], i + 1, tail);
    PairsAfterSpace(" ", k + (":" + (Value(args[0]) + rest)));
    if args[0] == "" {
      EmptyWrong(rest);
      WrongValue(k, Value(args[0]) + rest, Str(args[0]), pairs);
    } else {
      assert !NoneEmpty(args[1..]) by {
        var j :| 0 <= j < |args| && args[j] == "";
        assert args[1..][j - 1] == "";
      }
      ArgsWrong(args[1..], i + 1, tail);
      StringPairReads(k, args[0], rest);
      StaysWrong(k, Str(args[0]), Str(args[0]), ReadPairs(rest), pairs);
    }
  }

  lemma {:induction false} EnvWrong(env: map<string, string>, keys: seq<string>, tail: string, bad: string)
    requires (forall i | 0 <= i < |keys| :: keys[i] in env) && bad in keys && (bad == "" || env[bad] == "")
    ensures WrongPairs(ReadPairs(EmitEnv(env, keys, tail)), EnvPairs(env, keys))
    decreases |keys|
  {
    hide ReadPairs, ReadValue, Name, Value, Wrong;
    var k, v := keys[0], env[keys[0]];
    var rest, pairs := EmitEnv(env, keys[1..], tail), EnvPairs(env, keys[1..]);
    if k == "" {
      EmptyNameWrong(Value(v) + (" " + rest));
    } else if v == "" {
      EmptyWrong(" " + rest);
      WrongValue(k, Value(v) + (" " + rest), Str(v), pairs);
    } else {
      assert bad in keys[1..] by { assert keys == [k] + keys[1..]; }
      EnvWrong(env, keys[1..], tail, bad);
      StringPairReads(k, v, " " + rest);
      PairsAfterSpace(" ", rest);
      StaysWrong(k, Str(v), Str(v), ReadPairs(rest), pairs);
    }
  }

  lemma {:induction false} RunHasNone(s: string, terminals: string)
    ensures !ContainsAny(Run(s, terminals).0, terminals)
  {
    if s == "" || s[0] in terminals {
    } else {
      RunHasNone(s[1..], terminals);
    }
  }

  lemma {:induction false} UnquoteIsShorter(s: string)
    ensures var r := Unquote(s); r.Some? ==> |r.value.0| < |s|
  {
    if s == "" || s[0] == '"' {
    } else if s[0] == '\\' {
      if |s| > 1 { UnquoteIsShorter(s[2..]); }
    } else {
      UnquoteIsShorter(s[1..]);
    }
  }

  /** A size that is not one word is read as something else. */
  lemma WordWrong(s: string)
    requires !OneWord(s)
    ensures Wrong(ReadValue(s + ("\n" + ")")), Str(s))
  {
    var text := s + ("\n" + ")");
    if s == "" {
    } else if s[0] == '"' {
      var x := text[1..];
      if x[0] == '\\' && |x| > 1 { UnquoteIsShorter(x[2..]); }
    } else {
      RunHasNone(text, VALUE_TERMINALS);
    }
  }

  lemma SectionWrong(name: string, text: string, v: Val, more: seq<(string, Val)>)
    requires name != "" && Name(name) == name && Wrong(ReadValue(text), v)
    ensures WrongPairs(ReadPairs("    " + (name + (":" + text))), [(name, v)] + more)
  {
    hide ReadPairs, ReadValue, Name, Wrong, WrongPairs;
    WrongValue(name, text, v, more);
    PairsAfterSpace("    ", name + (":" + text));
  }

  lemma SizeWrong(size: string)
    requires !OneWord(size)
    ensures WrongPairs(ReadPairs(EmitSize(size, ")")), SizePairs(size))
  {
    hide ReadPairs, ReadValue, Name, Wrong, WrongPairs;
    PlainName("imagesize");
    WordWrong(size);
    SectionWrong("imagesize", size + ("\n" + ")"), Str(size), []);
    assert SizePairs(size) + [] == SizePairs(size);
    Layouts(size + ("\n" + ")"));
  }

  lemma EnvironmentWrong(env: map<string, string>, tail: string, more: seq<(string, Val)>, bad: string)
    requires bad in env && (bad == "" || env[bad] == "")
    ensures WrongPairs(ReadPairs(EmitEnvironment(env, tail)), EnvironmentPairs(env) + more)
  {
    hide SortedKeys, EmitEnv, EnvPairs, ReadPairs, ReadValue, Name, Wrong, WrongPairs;
    EnvKeysIn(env);
    SortedKeysList(env.Keys);
    PlainName("environment");
    var keys := SortedKeys(env.Keys);
    var body := EmitEnv(env, keys, ")\n" + tail);
    assert bad in Elems(keys);
    EnvWrong(env, keys, ")\n" + tail, bad);
    WrongTuple(body, EnvPairs(env, keys));
    SectionWrong("environment", "(" + body, Tuple(EnvPairs(env, keys)), more);
    assert ":(" + body == ":" + ("(" + body);
    Layouts(body);
  }

  lemma ArgumentsWrong(program: string, args: seq<string>, tail: string, more: seq<(string, Val)>)
    requires program != "" && !NoneEmpty(args)
    ensures WrongPairs(ReadPairs(EmitArguments(program, args, tail)), ArgumentPairs(program, args) + more)
  {
    hide ReadPairs, ReadValue, Value, Name, EmitArgs, ArgPairs, Wrong, WrongPairs;
    PlainName("arguments");
    PlainName("0");
    var rest := EmitArgs(args, 1, ")\n" + tail);
    ArgsStart(args, 1, ")\n" + tail);
    ArgsWrong(args, 1, ")\n" + tail);
    StringPairReads("0", program, rest);
    StaysWrong("0", Str(program), Str(program), ReadPairs(rest), ArgPairs(args, 1));
    var body, pairs := "0" + (":" + (Value(program) + rest)), [("0", Str(program))] + ArgPairs(args, 1);
    WrongTuple(body, pairs);
    SectionWrong("arguments", "(" + body, Tuple(pairs), more);
    assert ":(" + body == ":" + ("(" + body);
    Layouts(Value(program) + rest);
  }

  lemma SectionsWrong(c: Config)
    requires c.program != "" && !Settable(c.args, c.env, c.diskSize)
    ensures WrongPairs(ReadPairs(Sections(c)), SectionPairs(c))
  {
    hide ReadPairs, Name, Value, EmitSize, EmitEnvironment, OneWord, WrongPairs, SizePairs, EnvironmentPairs, ArgPairs;
    var sizeText, sizePairs := EmitSize(c.diskSize, ")"), SizePairs(c.diskSize);
    var envText, envPairs := EmitEnvironment(c.env, sizeText), EnvironmentPairs(c.env) + sizePairs;
    if !NoneEmpty(c.args) {
      ArgumentsWrong(c.program, c.args, envText, envPairs);
    } else {
      EnvOrSizeWrong(c);
      if c.args == [] {
        assert [] + envPairs == envPairs;
      } else {
        ArgumentsRead(c.program, c.args, envText);
        var v := Tuple([("0", Str(c.program))] + ArgPairs(c.args, 1));
        StaysWrong("arguments", v, v, ReadPairs(envText), envPairs);
      }
    }
  }

  lemma EnvOrSizeWrong(c: Config)
    requires NoneEmpty(c.args) && !Settable(c.args, c.env, c.diskSize)
    ensures WrongPairs(ReadPairs(EmitEnvironment(c.env, EmitSize(c.diskSize, ")"))),
                       EnvironmentPairs(c.env) + SizePairs(c.diskSize))
  {
    hide ReadPairs, EmitSize, EmitEnvironment, OneWord, WrongPairs, SizePairs;
    var sizeText, sizePairs := EmitSize(c.diskSize, ")"), SizePairs(c.diskSize);
    if bad :| bad in c.env && (bad == "" || c.env[bad] == "") {
      EnvironmentWrong(c.env, sizeText, sizePairs, bad);
    } else {
      SizeWrong(c.diskSize);
      EnvironmentReads(c.env, sizeText);
      EnvKeysIn(c.env);
      var v := Tuple(EnvPairs(c.env, SortedKeys(c.env.Keys)));
      StaysWrong("environment", v, v, ReadPairs(sizeText), sizePairs);
    }
  }

  lemma ProgramWrong(c: Config)
    requires c.program == "" || !Settable(c.args, c.env, c.diskSize)
    ensures WrongPairs(ReadPairs("\n    program:" + (Value(c.program) + ("\n" + Sections(c)))),
                       [("program", Str(c.program))] + SectionPairs(c))
  {
    hide ReadPairs, ReadValue, Value, Name, Sections, SectionPairs, Settable, Wrong, WrongPairs;
    PlainName("program");
    var text, v := Value(c.program) + ("\n" + Sections(c)), Str(c.program);
    PairsAfterSpace("\n", "    " + ("program" + (":" + text)));
    if c.program == "" {
      EmptyWrong("\n" + Sections(c));
      SectionWrong("program", text, v, SectionPairs(c));
    } else {
      SectionsWrong(c);
      ValueReads(c.program, "\n" + Sections(c));
      SectionReads("program", text, v, "\n" + Sections(c));
      PairsAfterSpace("\n", Sections(c));
      StaysWrong("program", v, v, ReadPairs(Sections(c)), SectionPairs(c));
    }
    assert "\n    program:" + text == "\n" + ("    " + ("program" + (":" + text)));
  }

  lemma ManifestWrong(c: Config)
    requires Named(Dir(c.children)) && !Sayable(c)
    ensures Wrong(ReadValue(Manifest(c)), Tuple(ManifestPairs(c)))
  {
    hide ReadPairs, ReadValue, Value, Printable, Named, Sections, SectionPairs, EmitChildren, ChildPairs;
    hide Wrong, WrongPairs, Settable;
    var after := "\n    program:" + (Value(c.program) + ("\n" + Sections(c)));
    var tail := "    )" + after;
    var body := EmitChildren(c.children, STEP + STEP, tail);
    var tree, more := Tuple(ChildPairs(c.children)), [("program", Str(c.program))] + SectionPairs(c);
    if !Printable(Dir(c.children)) {
      ChildrenWrong(c.children, STEP + STEP, tail);
      TreeWrong(ChildPairs(c.children), body, more);
    } else {
      ChildrenRead(c.children, STEP + STEP, tail);
      TreeReads(ChildPairs(c.children), body, after);
      ProgramWrong(c);
      StaysWrong("children", tree, tree, ReadPairs(after), more);
    }
    WrongTuple("\n    children:(\n" + body, [("children", tree)] + more);
    assert tail == "    )\n    program:" + (Value(c.program) + ("\n" + Sections(c)));
    Layouts(body);
  }

  /** The manifest, read back, is what the configuration says exactly when the host paths in the
      tree are free of quotes and backslashes, nothing in the settings is empty, and the size is
      one word. */
  lemma ManifestReadsExactly(c: Config)
    requires Named(Dir(c.children))
    ensures ReadValue(Manifest(c)) == Some((Tuple(ManifestPairs(c)), "")) <==> Sayable(c)
  {
    hide ReadValue, Manifest, ManifestPairs;
    if Sayable(c) { ManifestReads(c); } else { ManifestWrong(c); }
  }

  lemma VolumeReadsExactly(children: map<string, Node>)
    requires Named(Dir(children))
    ensures ReadValue(VolumeManifest(children)) == Some((ValOf(Dir(children)), "")) <==> Printable(Dir(children))
  {
    hide ReadValue, ReadPairs, EmitChildren, ChildPairs, Named, Printable, WrongPairs;
    if Printable(Dir(children)) {
      VolumeRoundTrip(children);
    } else {
      var body := EmitChildren(children, STEP + STEP, "    )\n)");
      ChildrenWrong(children, STEP + STEP, "    )\n)");
      TreeWrong(ChildPairs(children), body, []);
      var pairs := [("children", Tuple(ChildPairs(children)))];
      assert pairs + [] == pairs;
      WrongTuple("\n    children:(\n" + body, pairs);
      Layouts(body);
    }
  }

  lemma {:induction false} InsertKeepsNamed(n: Node, parts: seq<string>, host: string)
    requires Named(n) && host != "" && forall i | 0 <= i < |parts| :: parts[i] != ""
    ensures InsertFile(n, parts, host).Some? ==> Named(InsertFile(n, parts, host).value)
    ensures InsertDir(n, parts).Some? ==> Named(InsertDir(n, parts).value)
    decreases |parts|
  {
    if parts == [] || n.File? {
    } else {
      assert parts[0] != "";
      InsertKeepsNamed(ChildOf(n.children, parts[0]), parts[1..], host);
    }
  }

  lemma {:induction false} BuiltIsNamed(files: seq<PkgFile>)
    requires forall i | 0 <= i < |files| :: files[i].isDir || files[i].hostPath != ""
    ensures Built(files).Some? ==> Named(Built(files).value) && Built(files).value.Dir?
    decreases |files|
  {
    if files == [] {
    } else {
      var front, f := files[..|files| - 1], files[|files| - 1];
      BuiltIsNamed(front);
      if Built(front).Some? {
        InsertKeepsNamed(Built(front).value, Fields(f.guestPath), if f.isDir then "x" else f.hostPath);
      }
    }
  }
}
