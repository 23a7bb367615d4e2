/** The manifest tree of internal/image/builder.go as linked nodes changed in place: the
    insert functions and the printer, proved against the tree values. */
module ManifestNodes {
  import opened Options
  import opened StringOrder
  import opened StringSeqs
  import opened TupleText
  import opened ManifestTree
  import opened ManifestText

  class ManifestNode {
    var hostPath: string
    var children: map<string, ManifestNode>
    ghost var tree: Node               // what the nodes from here down stand for
    ghost var Repr: set<ManifestNode>  // the nodes from here down

    /** The nodes below different children are different, and tree says what they hold. */
    ghost predicate Valid()
      reads this, Repr
      decreases Repr, 1
    {
      this in Repr && Linked() && SaysTree()
    }

    ghost predicate Linked()
      reads this, Repr
      decreases Repr, 0
    {
      && this in Repr
      && (forall k | k in children :: Below(children[k]) && children[k].Valid())
      && (forall j, k | j in children && k in children && j != k :: Apart(children[j], children[k]))
    }

    ghost predicate Below(child: ManifestNode)
      reads this, Repr
    {
      child in Repr && child.Repr <= Repr && this !in child.Repr
    }

    static ghost predicate Apart(a: ManifestNode, b: ManifestNode)
      reads a, b
    {
      a.Repr !! b.Repr
    }

    /** A node with a host path is a file, any other a directory. */
    ghost predicate SaysTree()
      reads this, children.Values
    {
      if hostPath != "" then tree == File(hostPath)
      else
        && tree.Dir? && tree.children.Keys == children.Keys
        && forall k | k in children :: tree.children[k] == children[k].tree
    }

    constructor Directory()
      ensures Valid() && Repr == {this} && tree == EMPTY
    {
      hostPath, children, tree, Repr := "", map[], EMPTY, {this};
    }

    constructor FileAt(host: string)
      requires host != ""
      ensures Valid() && Repr == {this} && tree == File(host)
    {
      hostPath, children, tree, Repr := host, map[], File(host), {this};
    }

    /** children[part] = child, for a tree that shares no node with this one. */
    method Attach(part: string, child: ManifestNode)
      requires Valid() && child.Valid() && child.Repr !! Repr && hostPath == ""
      modifies this
      ensures Valid() && Repr == old(Repr) + child.Repr && hostPath == ""
      ensures children == old(children)[part := child]
      ensures tree == Dir(old(tree).children[part := child.tree])
    {
      ghost var below := tree.children;
      Hang(part, child);
      assert forall k | k in children && k != part :: below[k] == children[k].tree;
      hide Linked;
      Retell(part);
    }

    method Hang(part: string, child: ManifestNode)
      requires Linked() && child.Valid() && child.Repr !! Repr
      modifies this`children, this`Repr
      ensures Linked() && Repr == old(Repr) + child.Repr && children == old(children)[part := child]
      ensures forall k | k in children :: children[k] != this
    {
      hide SaysTree;
      children := children[part := child];
      Repr := Repr + child.Repr;
    }

    /** The tree follows one child. */
    ghost method Retell(part: string)
      requires Linked() && hostPath == "" && tree.Dir? && part in children
      requires tree.children.Keys + {part} == children.Keys
      requires forall k | k in children && k != part :: tree.children[k] == children[k].tree
      modifies this`tree
      ensures Valid() && tree == Dir(old(tree).children[part := children[part].tree])
    {
      hide Apart;
      tree := Dir(tree.children[part := children[part].tree]);
    }

    /** A child has changed by itself; this node follows. */
    method Follow(part: string)
      requires this in Repr && hostPath == "" && part in children && tree.Dir? && tree.children.Keys == children.Keys
      requires forall k | k in children && k != part ::
        Below(children[k]) && children[k].Valid() && tree.children[k] == children[k].tree
      requires forall j, k | j in children && k in children && j != k :: Apart(children[j], children[k])
      requires children[part].Valid() && this !in children[part].Repr
      modifies this`tree, this`Repr
      ensures Valid() && Repr == old(Repr) + children[part].Repr
      ensures tree == Dir(old(tree).children[part := children[part].tree])
    {
      hide Apart, SaysTree;
      Repr := Repr + children[part].Repr;
      assert Below(children[part]);
      Retell(part);
    }

    /** insertManifestFile. Answers false where the program would assign into the nil map of
        a file node. */
    method Insert(parts: seq<string>, host: string) returns (ok: bool)
      requires Valid() && host != ""
      modifies Repr
      ensures ok <==> InsertFile(old(tree), parts, host).Some?
      ensures ok ==> Valid() && fresh(Repr - old(Repr)) && Some(tree) == InsertFile(old(tree), parts, host)
      decreases |parts|, 1
    {
      if |parts| == 0 { return true; }
      if hostPath != "" { return false; }
      if |parts| == 1 {
        var leaf := new ManifestNode.FileAt(host);
        Attach(parts[0], leaf);
        return true;
      }
      ghost var was := tree.children;
      EnsureChild(parts[0]);
      assert children[parts[0]].tree == tree.children[parts[0]] == ChildOf(was, parts[0]);
      ok := InsertBelow(parts, host);
      if ok {
        ghost var child := InsertFile(ChildOf(was, parts[0]), parts[1..], host).value;
        assert was[parts[0] := ChildOf(was, parts[0])][parts[0] := child] == was[parts[0] := child];
      }
    }

    /** An absent child becomes an empty directory. */
    method EnsureChild(part: string)
      requires Valid() && hostPath == ""
      modifies this
      ensures Valid() && fresh(Repr - old(Repr)) && hostPath == "" && part in children
      ensures tree == Dir(old(tree).children[part := ChildOf(old(tree).children, part)])
    {
      if part !in children {
        var d := new ManifestNode.Directory();
        Attach(part, d);
      }
    }

    method InsertBelow(parts: seq<string>, host: string) returns (ok: bool)
      requires Valid() && hostPath == "" && host != "" && |parts| > 1 && parts[0] in children
      modifies Repr
      ensures ok <==> InsertFile(old(children[parts[0]].tree), parts[1..], host).Some?
      ensures ok ==> Valid() && fresh(Repr - old(Repr))
      ensures ok ==>
        var child := InsertFile(old(children[parts[0]].tree), parts[1..], host).value;
        tree == Dir(old(tree).children[parts[0] := child])
      decreases |parts|, 0
    {
      var c := children[parts[0]];
      assert Linked();
      assert forall k | k in children :: children[k] in children[k].Repr;
      ok := c.Insert(parts[1..], host);
      if ok {
        Follow(parts[0]);
      }
    }

    /** insertManifestDir */
    method MakeDir(parts: seq<string>) returns (ok: bool)
      requires Valid()
      modifies Repr
      ensures ok <==> InsertDir(old(tree), parts).Some?
      ensures ok ==> Valid() && fresh(Repr - old(Repr)) && Some(tree) == InsertDir(old(tree), parts)
      decreases |parts|, 1
    {
      if |parts| == 0 { return true; }
      if hostPath != "" { return false; }
      ghost var was := tree.children;
      EnsureChild(parts[0]);
      assert children[parts[0]].tree == tree.children[parts[0]] == ChildOf(was, parts[0]);
      ok := MakeDirBelow(parts);
      if ok {
        ghost var child := InsertDir(ChildOf(was, parts[0]), parts[1..]).value;
        assert was[parts[0] := ChildOf(was, parts[0])][parts[0] := child] == was[parts[0] := child];
      }
    }

    method MakeDirBelow(parts: seq<string>) returns (ok: bool)
      requires Valid() && hostPath == "" && |parts| > 0 && parts[0] in children
      modifies Repr
      ensures ok <==> InsertDir(old(children[parts[0]].tree), parts[1..]).Some?
      ensures ok ==> Valid() && fresh(Repr - old(Repr))
      ensures ok ==>
        var child := InsertDir(old(children[parts[0]].tree), parts[1..]).value;
        tree == Dir(old(tree).children[parts[0] := child])
      decreases |parts|, 0
    {
      var c := children[parts[0]];
      assert Linked();
      assert forall k | k in children :: children[k] in children[k].Repr;
      ok := c.MakeDir(parts[1..]);
      if ok {
        Follow(parts[0]);
      }
    }

    /** writeManifestChildren: everything below this directory is appended to b. */
    method WriteChildren(b0: string, indent: string) returns (b: string)
      requires Valid() && hostPath == ""
      ensures b == b0 + EmitChildren(tree.children, indent, "")
      decreases Repr, 2
    {
      assert tree.children.Keys == children.Keys;
      var keys := SortKeys(children.Keys);
      KeysAllIn(tree.children);
      hide ManifestNode.Valid;
      b := WriteKeys(b0, keys, indent);
    }

    method WriteKeys(b0: string, keys: seq<string>, indent: string) returns (b: string)
      requires Valid() && tree.Dir? && AllIn(keys, tree.children)
      ensures b == b0 + EmitKeys(tree.children, keys, indent, "")
      decreases Repr, 1
    {
      hide EmitKeys, Entry, ManifestNode.Valid;
      b := b0;
      assert keys[0..] == keys;
      for i := 0 to |keys|
        invariant AllIn(keys[i..], tree.children)
        invariant b0 + EmitKeys(tree.children, keys, indent, "") == b + EmitKeys(tree.children, keys[i..], indent, "")
      {
        assert keys[i..][0] == keys[i] && keys[i..][1..] == keys[i + 1..];
        KeysStep(tree.children, keys[i..], indent);
        b := WriteEntry(b, keys[i], indent);
      }
      assert keys[|keys|..] == [];
      KeysStep(tree.children, [], indent);
    }

    /** The body of its loop, for one child. */
    method WriteEntry(b0: string, key: string, indent: string) returns (b: string)
      requires Valid() && tree.Dir? && key in tree.children
      ensures b == b0 + Entry(key, tree.children[key], indent)
      decreases Repr, 0
    {
      hide Name, EmitNode;
      var child := children[key];
      assert tree.children[key] == child.tree;
      b := b0 + indent;
      var name := WriteName(key);
      b := b + name;
      b := b + ":";
      ghost var start := b;
      b := child.WriteNode(b, indent);
      assert start == b0 + (indent + (Name(key) + ":"));
      assert (indent + (Name(key) + ":")) + EmitNode(child.tree, indent, "") == Entry(key, child.tree, indent);
    }

    method WriteNode(b0: string, indent: string) returns (b: string)
      requires Valid()
      ensures b == b0 + EmitNode(tree, indent, "")
      decreases Repr, 3
    {
      hide EmitChildren;
      if hostPath != "" {
        b := b0 + "(contents:(host:\"";
        b := b + hostPath;
        b := b + "\"))\n";
        assert "\"))\n" + "" == "\"))\n";
        assert b == b0 + ("(contents:(host:\"" + (hostPath + "\"))\n"));
      } else {
        var inner := indent + STEP;
        b := b0 + "(\n";
        b := b + inner;
        b := b + "children:(\n";
        b := WriteChildren(b, inner + STEP);
        b := b + inner;
        b := b + ")\n";
        b := b + indent;
        b := b + ")\n";
        DirText(b0, tree.children, indent);
      }
    }
  }

  /** The keys of a map, collected in some order and sorted. */
  method SortKeys(names: set<string>) returns (keys: seq<string>)
    ensures keys == SortedKeys(names)
  {
    var todo := names;
    keys := [];
    while todo != {}
      invariant todo <= names && Lists(keys, names - todo)
    {
      var k :| k in todo;
      assert Elems(keys + [k]) == Elems(keys) + {k};
      keys := keys + [k];
      todo := todo - {k};
    }
    assert names - todo == names;
    SortGivesKeys(keys, names);
    keys := Sort(keys);
  }

  lemma DirText(b0: string, children: map<string, Node>, indent: string)
    ensures var inner := indent + STEP;
      b0 + "(\n" + inner + "children:(\n" + EmitChildren(children, inner + STEP, "") + inner + ")\n" + indent + ")\n"
        == b0 + EmitNode(Dir(children), indent, "")
  {
    var inner := indent + STEP;
    var body := EmitChildren(children, inner + STEP, "");
    ChildrenTail(children, inner + STEP, Closing(indent, ""));
    assert ")\n" + "" == ")\n";
    hide EmitChildren;
    Flatten(b0, "(\n", inner, "children:(\n", body, ")\n", indent);
  }

  lemma Flatten(b0: string, open: string, inner: string, title: string, body: string, close: string, indent: string)
    ensures b0 + open + inner + title + body + inner + close + indent + close
         == b0 + (open + (inner + (title + (body + (inner + (close + (indent + close)))))))
  {
    var end := inner + (close + (indent + close));
    var start := b0 + open + inner + title + body;
    assert start + inner + close + indent + close == start + end;
    Regroup(open, inner, title, body, end);
    assert start == b0 + (open + (inner + (title + body))) by {
      assert b0 + open + inner + title + body == b0 + open + inner + (title + body);
      assert b0 + open + inner + (title + body) == b0 + open + (inner + (title + body));
    }
  }
}
