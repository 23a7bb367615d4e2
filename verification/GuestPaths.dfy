/** Slash-separated paths: splitting, joining and path.Clean of a rooted path. */
module GuestPaths {

  predicate NoSlash(s: string) { '/' !in s }

  /** A name that path.Clean leaves alone. */
  predicate IsName(s: string) { s != "" && s != "." && s != ".." && NoSlash(s) }

  ghost predicate AllNames(parts: seq<string>) { forall i | 0 <= i < |parts| :: IsName(parts[i]) }

  ghost predicate AllNoSlash(parts: seq<string>) { forall i | 0 <= i < |parts| :: NoSlash(parts[i]) }

  /** strings.Split(s, "/") */
  function Split(s: string): (parts: seq<string>)
    ensures |parts| >= 1
  {
    if s == "" then [""]
    else if s[0] == '/' then [""] + Split(s[1..])
    else var rest := Split(s[1..]); [[s[0]] + rest[0]] + rest[1..]
  }

  lemma {:induction false} SplitHasNoSlash(s: string)
    ensures AllNoSlash(Split(s))
  {
    if s == "" {
    } else {
      SplitHasNoSlash(s[1..]);
    }
  }

  /** strings.Join(parts, "/") */
  function Join(parts: seq<string>): string {
    if parts == [] then "" else if |parts| == 1 then parts[0] else parts[0] + "/" + Join(parts[1..])
  }

  lemma {:induction false} SplitFirst(a: string, b: string)
    requires NoSlash(a)
    ensures Split(a + "/" + b) == [a] + Split(b)
    ensures Split(a) == [a]
  {
    if a == "" {
      assert a + "/" + b == "/" + b;
      assert ("/" + b)[1..] == b;
    } else {
      assert (a + "/" + b)[1..] == a[1..] + "/" + b;
      SplitFirst(a[1..], b);
      assert a == [a[0]] + a[1..];
    }
  }

  lemma {:induction false} SplitJoin(parts: seq<string>)
    requires parts != [] && AllNoSlash(parts)
    ensures Split(Join(parts)) == parts
  {
    if |parts| == 1 {
      SplitFirst(parts[0], "");
    } else {
      SplitJoin(parts[1..]);
      SplitFirst(parts[0], Join(parts[1..]));
    }
  }

  lemma {:induction false} SplitAfter(parts: seq<string>, rest: string)
    requires parts != [] && AllNoSlash(parts)
    ensures Split(Join(parts) + "/" + rest) == parts + Split(rest)
  {
    hide Split;
    if |parts| == 1 {
      SplitFirst(parts[0], rest);
    } else {
      SplitAfter(parts[1..], rest);
      var more := Join(parts[1..]) + "/" + rest;
      assert Join(parts) + "/" + rest == parts[0] + "/" + more;
      SplitFirst(parts[0], more);
      assert [parts[0]] + (parts[1..] + Split(rest)) == parts + Split(rest);
    }
  }

  lemma {:induction false} JoinTwo(a: seq<string>, b: seq<string>)
    requires a != [] && b != []
    ensures Join(a + b) == Join(a) + "/" + Join(b)
  {
    if |a| == 1 {
      assert (a + b)[1..] == b;
    } else {
      JoinTwo(a[1..], b);
      assert (a + b)[1..] == a[1..] + b;
    }
  }

  /** What path.Clean does to the components of a rooted path, left to right. */
  function Cleaned(parts: seq<string>, done: seq<string>): seq<string> {
    if parts == [] then done
    else if parts[0] == "" || parts[0] == "." then Cleaned(parts[1..], done)
    else if parts[0] == ".." then Cleaned(parts[1..], if done == [] then [] else done[..|done| - 1])
    else Cleaned(parts[1..], done + [parts[0]])
  }

  lemma {:induction false} CleanedAreNames(parts: seq<string>, done: seq<string>)
    requires AllNoSlash(parts) && AllNames(done)
    ensures AllNames(Cleaned(parts, done))
    decreases |parts|
  {
    if parts == [] {
    } else {
      var rest := parts[1..];
      if parts[0] == "" || parts[0] == "." {
        CleanedAreNames(rest, done);
      } else if parts[0] == ".." {
        CleanedAreNames(rest, if done == [] then [] else done[..|done| - 1]);
      } else {
        CleanedAreNames(rest, done + [parts[0]]);
      }
    }
  }

  lemma {:induction false} CleanedNames(parts: seq<string>, done: seq<string>)
    requires AllNames(parts)
    ensures Cleaned(parts, done) == done + parts
    decreases |parts|
  {
    if parts == [] {
    } else {
      assert IsName(parts[0]);
      CleanedNames(parts[1..], done + [parts[0]]);
      assert done + [parts[0]] + parts[1..] == done + parts;
    }
  }

  /** splitAbs: the components of a path taken as rooted and cleaned. */
  function SplitAbs(p: string): seq<string> { Cleaned(Split(p), []) }

  /** "/" followed by the components. */
  function Rooted(parts: seq<string>): string { "/" + Join(parts) }

  /** absClean */
  function AbsClean(p: string): string { Rooted(SplitAbs(p)) }

  lemma SplitAbsNames(p: string)
    ensures AllNames(SplitAbs(p))
  {
    SplitHasNoSlash(p);
    CleanedAreNames(Split(p), []);
  }

  /** Components, joined and split again, are the same. */
  lemma SplitRooted(parts: seq<string>)
    requires AllNames(parts)
    ensures SplitAbs(Rooted(parts)) == parts
  {
    assert Rooted(parts) == "" + "/" + Join(parts);
    SplitFirst("", Join(parts));
    if parts != [] {
      SplitJoin(parts);
      assert ([""] + parts)[1..] == parts;
      CleanedNames(parts, []);
      assert [] + parts == parts;
    } else {
      assert Split("") == [""];
      assert [""] + [""] == ["", ""];
      assert ["", ""][1..] == [""];
    }
  }

  /** Names, joined without a leading slash, split back into themselves, and so do names after an
      upward step at the root. */
  lemma SplitJoined(t: seq<string>)
    requires AllNames(t)
    ensures SplitAbs(Join(t)) == t && !("/" <= Join(t))
    ensures SplitAbs(Join([".."] + t)) == t && !("/" <= Join([".."] + t))
  {
    assert [] + t == t;
    CleanedNames(t, []);
    JoinedUp(t);
    if t == [] {
    } else {
      SplitJoin(t);
      hide Split, Cleaned;
      assert IsName(t[0]) && Join(t)[0] == t[0][0];
      assert t[0][0] in t[0];
    }
  }

  lemma JoinedUp(t: seq<string>)
    requires AllNames(t)
    ensures SplitAbs(Join([".."] + t)) == Cleaned(t, []) && !("/" <= Join([".."] + t))
  {
    SplitJoin([".."] + t);
    hide Split;
    assert ([".."] + t)[1..] == t && Join([".."] + t)[0] == '.';
  }

  // ----- path.Clean, one component at a time

  lemma {:induction false} SplitLast(p: string, x: string)
    requires NoSlash(x)
    ensures Split(p + "/" + x) == Split(p) + [x]
  {
    if p == "" {
      assert p + "/" + x == "" + "/" + x;
      SplitFirst("", x);
      SplitFirst(x, "");
    } else {
      assert (p + "/" + x)[1..] == p[1..] + "/" + x && (p + "/" + x)[0] == p[0];
      SplitLast(p[1..], x);
      var rest := Split(p[1..]);
      assert (rest + [x])[0] == rest[0] && (rest + [x])[1..] == rest[1..] + [x];
    }
  }

  lemma {:induction false} CleanedLast(parts: seq<string>, done: seq<string>, x: string)
    ensures var c := Cleaned(parts, done);
      Cleaned(parts + [x], done) == if x == "" || x == "." then c
                                    else if x != ".." then c + [x] else if c == [] then [] else c[..|c| - 1]
    decreases |parts|
  {
    if parts == [] {
      assert (parts + [x])[1..] == [];
    } else {
      assert (parts + [x])[1..] == parts[1..] + [x];
      CleanedLast(parts[1..], if parts[0] == "" || parts[0] == "." then done
                              else if parts[0] != ".." then done + [parts[0]]
                              else if done == [] then [] else done[..|done| - 1], x);
    }
  }

  /** A path followed by a name goes down to it, by nothing or a dot stays, and by two dots goes up,
      at the root nowhere. */
  lemma SplitAbsStep(p: string, name: string)
    requires IsName(name)
    ensures SplitAbs(p + "/" + name) == SplitAbs(p) + [name]
    ensures SplitAbs(p + "/" + "") == SplitAbs(p) == SplitAbs(p + "/" + ".")
    ensures SplitAbs(p + "/" + "..") == if SplitAbs(p) == [] then [] else SplitAbs(p)[..|SplitAbs(p)| - 1]
    ensures SplitAbs("/" + p) == SplitAbs(p)
  {
    hide Split, Cleaned;
    SplitLast(p, name);
    SplitLast(p, "");
    SplitLast(p, ".");
    SplitLast(p, "..");
    CleanedLast(Split(p), [], name);
    CleanedLast(Split(p), [], "");
    CleanedLast(Split(p), [], ".");
    CleanedLast(Split(p), [], "..");
    SplitAbsRoot(p);
  }

  lemma SplitAbsRoot(p: string)
    ensures SplitAbs("/" + p) == SplitAbs(p)
  {
    assert ("/" + p)[1..] == p && ([""] + Split(p))[1..] == Split(p);
  }

  function TrimTrailing(s: string): string {
    if s != "" && s[|s| - 1] == '/' then TrimTrailing(s[..|s| - 1]) else s
  }

  /** path.Base */
  function Base(p: string): string {
    var t := TrimTrailing(p);
    if p == "" then "." else if t == "" then "/" else var parts := Split(t); parts[|parts| - 1]
  }

  /** The last component, however many slashes follow it. */
  lemma BaseIs(parts: seq<string>, x: string)
    requires AllNames(parts) && IsName(x)
    ensures Base(Join(parts + [x])) == x == Base(Rooted(parts + [x]))
    ensures Base(Join(parts + [x]) + "/") == x
    ensures Base("") == "." && Base("/") == "/"
  {
    var c := parts + [x];
    JoinEnds(parts, x);
    SplitJoin(c);
    SplitFirst("", Join(c));
    assert Rooted(c) == "" + "/" + Join(c);
    assert (Join(c) + "/")[..|Join(c)|] == Join(c);
    assert TrimTrailing(Join(c)) == Join(c);
    assert TrimTrailing(Rooted(c)) == Rooted(c);
    assert "/"[..0] == "" && TrimTrailing("") == "";
  }

  lemma {:induction false} JoinEnds(parts: seq<string>, x: string)
    requires IsName(x)
    ensures Join(parts + [x]) != "" && Join(parts + [x])[|Join(parts + [x])| - 1] != '/'
  {
    if parts == [] {
      assert parts + [x] == [x];
      assert x[|x| - 1] in x;
    } else {
      assert (parts + [x])[1..] == parts[1..] + [x];
      JoinEnds(parts[1..], x);
    }
  }
}
