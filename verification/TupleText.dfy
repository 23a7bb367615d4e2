/** The tuple syntax of manifests: the quoting rules of internal/image/builder.go and the
    reader its comments describe. */
module TupleText {
  import opened Options

  /** A string, or a tuple of named values. */
  datatype Val = Str(s: string) | Tuple(pairs: seq<(string, Val)>)

  const SPACES := " \t\n\r"
  const NAME_TERMINALS := " \t\n\r()[]:|/\"\\"
  const VALUE_TERMINALS := " \t\n\r()[]"

  predicate ContainsAny(s: string, chars: string) { exists i | 0 <= i < |s| :: s[i] in chars }

  // ----- Writing

  function Escaped(s: string): string {
    if s == "" then ""
    else EscapedChar(s[0]) + Escaped(s[1..])
  }

  function EscapedChar(c: char): string { if c == '"' || c == '\\' then ['\\', c] else [c] }

  function Quoted(s: string): string { "\"" + Escaped(s) + "\"" }

  /** manifestName */
  function Name(s: string): string { if !ContainsAny(s, NAME_TERMINALS) then s else Quoted(s) }

  /** manifestValue */
  function Value(s: string): string { if !ContainsAny(s, VALUE_TERMINALS + "\"\\") then s else Quoted(s) }

  // ----- Reading

  function SkipSpaces(s: string): (r: string)
    ensures |r| <= |s|
  {
    if s != "" && s[0] in SPACES then SkipSpaces(s[1..]) else s
  }

  /** The longest prefix without a terminal, and what follows it. */
  function Run(s: string, terminals: string): (r: (string, string))
    ensures |r.0| + |r.1| == |s|
  {
    if s == "" || s[0] in terminals then ("", s)
    else var r := Run(s[1..], terminals); ([s[0]] + r.0, r.1)
  }

  /** The rest of a quoted string: a backslash stands for the character after it. */
  function Unquote(s: string): (r: Option<(string, string)>)
    ensures r.Some? ==> |r.value.1| < |s|
  {
    if s == "" then None
    else if s[0] == '"' then Some(("", s[1..]))
    else if s[0] == '\\' then
      if |s| == 1 then None
      else var r := Unquote(s[2..]); if r.None? then None else Some(([s[1]] + r.value.0, r.value.1))
    else var r := Unquote(s[1..]); if r.None? then None else Some(([s[0]] + r.value.0, r.value.1))
  }

  /** A quoted string, or a non-empty run up to a terminal. */
  function ReadWord(s: string, terminals: string): (r: Option<(string, string)>)
    ensures r.Some? ==> |r.value.1| < |s|
  {
    if s != "" && s[0] == '"' then Unquote(s[1..])
    else var r := Run(s, terminals); if r.0 == "" then None else Some(r)
  }

  function ReadValue(s: string): (r: Option<(Val, string)>)
    ensures r.Some? ==> |r.value.1| < |s|
    decreases |s|, 0
  {
    if s != "" && s[0] == '(' then
      var r := ReadPairs(s[1..]);
      if r.None? then None else Some((Tuple(r.value.0), r.value.1))
    else
      var r := ReadWord(s, VALUE_TERMINALS);
      if r.None? then None else Some((Str(r.value.0), r.value.1))
  }

  /** name:value pairs up to the closing parenthesis. */
  function ReadPairs(s: string): (r: Option<(seq<(string, Val)>, string)>)
    ensures r.Some? ==> |r.value.1| < |s|
    decreases |s|, 1
  {
    var t := SkipSpaces(s);
    if t == "" then None
    else if t[0] == ')' then Some(([], t[1..]))
    else
      var name := ReadWord(t, NAME_TERMINALS);
      if name.None? || name.value.1 == "" || name.value.1[0] != ':' then None
      else
        var v := ReadValue(name.value.1[1..]);
        if v.None? then None
        else
          var rest := ReadPairs(v.value.1);
          if rest.None? then None
          else Some(([(name.value.0, v.value.0)] + rest.value.0, rest.value.1))
  }

  // ----- Words come back

  lemma UnquoteChar(c: char, rest: string, word: string, tail: string)
    ensures Unquote(rest) == Some((word, tail)) ==> Unquote(EscapedChar(c) + rest) == Some(([c] + word, tail))
    ensures Unquote("\"" + tail) == Some(("", tail))
  {
    assert ("\"" + tail)[1..] == tail;
    var t := EscapedChar(c) + rest;
    assert t[|EscapedChar(c)|..] == rest;
  }

  lemma {:induction false} UnquoteEscaped(s: string, tail: string)
    ensures Unquote(Escaped(s) + "\"" + tail) == Some((s, tail))
  {
    hide Unquote, EscapedChar;
    if s == "" {
      assert Escaped(s) + "\"" + tail == "\"" + tail;
      UnquoteChar('x', "", "", tail);
    } else {
      UnquoteEscaped(s[1..], tail);
      UnquoteChar(s[0], Escaped(s[1..]) + "\"" + tail, s[1..], tail);
      assert Escaped(s) + "\"" + tail == EscapedChar(s[0]) + (Escaped(s[1..]) + "\"" + tail);
      assert s == [s[0]] + s[1..];
    }
  }

  lemma {:induction false} RunStops(s: string, tail: string, terminals: string)
    requires !ContainsAny(s, terminals) && tail != "" && tail[0] in terminals
    ensures Run(s + tail, terminals) == (s, tail)
  {
    if s == "" {
      assert s + tail == tail;
    } else {
      assert (s + tail)[1..] == s[1..] + tail;
      assert s[0] !in terminals && !ContainsAny(s[1..], terminals) by {
        assert forall i | 0 <= i < |s| - 1 :: s[1..][i] == s[i + 1];
      }
      RunStops(s[1..], tail, terminals);
      assert s == [s[0]] + s[1..];
    }
  }

  lemma QuotedReads(s: string, tail: string, terminals: string)
    ensures ReadWord(Quoted(s) + tail, terminals) == Some((s, tail))
  {
    UnquoteEscaped(s, tail);
    assert (Quoted(s) + tail)[1..] == Escaped(s) + "\"" + tail;
  }

  /** A name is read back up to its colon, whether or not it had to be quoted. */
  lemma NameReads(s: string, tail: string)
    requires s != "" && tail != "" && tail[0] == ':'
    ensures ReadWord(Name(s) + tail, NAME_TERMINALS) == Some((s, tail))
  {
    if ContainsAny(s, NAME_TERMINALS) {
      QuotedReads(s, tail, NAME_TERMINALS);
    } else {
      assert s[0] !in NAME_TERMINALS;
      RunStops(s, tail, NAME_TERMINALS);
    }
  }

  /** A value is read back up to the space or bracket that follows it. */
  lemma ValueReads(s: string, tail: string)
    requires s != "" && tail != "" && tail[0] in VALUE_TERMINALS
    ensures ReadValue(Value(s) + tail) == Some((Str(s), tail))
  {
    if ContainsAny(s, VALUE_TERMINALS + "\"\\") {
      QuotedReads(s, tail, VALUE_TERMINALS);
      assert (Quoted(s) + tail)[0] == '"';
    } else {
      assert forall c | c in VALUE_TERMINALS :: c in VALUE_TERMINALS + "\"\\";
      assert !ContainsAny(s, VALUE_TERMINALS);
      assert s[0] !in VALUE_TERMINALS + "\"\\";
      assert (s + tail)[0] == s[0];
      RunStops(s, tail, VALUE_TERMINALS);
    }
  }

  // ----- Raw text in quotes

  /** No quote and no backslash. */
  predicate Clean(s: string) { '"' !in s && '\\' !in s }

  lemma {:induction false} UnquoteClean(s: string, tail: string)
    requires Clean(s)
    ensures Unquote(s + "\"" + tail) == Some((s, tail))
  {
    if s == "" {
      assert (s + "\"" + tail)[1..] == tail;
    } else {
      assert (s + "\"" + tail)[1..] == s[1..] + "\"" + tail;
      UnquoteClean(s[1..], tail);
      assert s == [s[0]] + s[1..];
    }
  }

  // ----- Tuples come back

  lemma {:induction false} SpacesSkip(ws: string, s: string)
    requires forall i | 0 <= i < |ws| :: ws[i] in SPACES
    ensures SkipSpaces(ws + s) == SkipSpaces(s)
  {
    if ws == "" {
      assert ws + s == s;
    } else {
      assert (ws + s)[1..] == ws[1..] + s;
      SpacesSkip(ws[1..], s);
    }
  }

  lemma PairsAfterSpace(ws: string, s: string)
    requires forall i | 0 <= i < |ws| :: ws[i] in SPACES
    ensures ReadPairs(ws + s) == ReadPairs(s)
  {
    SpacesSkip(ws, s);
  }

  lemma PairsEnd(s: string)
    ensures ReadPairs(")" + s) == Some(([], s))
  {
    assert (")" + s)[1..] == s;
  }

  function Prepend(k: string, v: Val, r: Option<(seq<(string, Val)>, string)>): Option<(seq<(string, Val)>, string)> {
    if r.None? then None else Some(([(k, v)] + r.value.0, r.value.1))
  }

  /** One pair: its name, a colon, and text that reads as v and leaves tail. */
  lemma PairReads(k: string, s: string, v: Val, tail: string)
    requires k != "" && ReadValue(s) == Some((v, tail))
    ensures ReadPairs(Name(k) + (":" + s)) == Prepend(k, v, ReadPairs(tail))
  {
    var t := Name(k) + (":" + s);
    NameReads(k, ":" + s);
    NameStarts(k);
    assert t[0] == Name(k)[0];
    assert SkipSpaces(t) == t;
    assert (":" + s)[1..] == s;
  }

  lemma NameStarts(k: string)
    requires k != ""
    ensures Name(k) != "" && Name(k)[0] !in SPACES && Name(k)[0] != ')' && Name(k)[0] != '('
  {
    if !ContainsAny(k, NAME_TERMINALS) { assert k[0] !in NAME_TERMINALS; }
  }

  lemma TupleReads(s: string, pairs: seq<(string, Val)>, tail: string)
    requires ReadPairs(s) == Some((pairs, tail))
    ensures ReadValue("(" + s) == Some((Tuple(pairs), tail))
  {
    assert ("(" + s)[1..] == s;
  }

  lemma RawReads(s: string, tail: string)
    requires Clean(s)
    ensures ReadValue("\"" + (s + ("\"" + tail))) == Some((Str(s), tail))
  {
    UnquoteClean(s, tail);
    assert ("\"" + (s + ("\"" + tail)))[1..] == s + "\"" + tail;
  }

  // ----- Quoting, character by character

  method Quote(s: string) returns (b: string)
    ensures b == Quoted(s)
  {
    b := "\"";
    assert s[0..] == s;
    for i := 0 to |s|
      invariant b + Escaped(s[i..]) == "\"" + Escaped(s)
    {
      EscapedStep(b, s, i);
      hide Escaped;
      if s[i] == '"' || s[i] == '\\' {
        b := b + "\\";
      }
      b := b + [s[i]];
    }
    assert s[|s|..] == [];
    b := b + "\"";
  }

  lemma EscapedStep(b: string, s: string, i: nat)
    requires i < |s|
    ensures b + Escaped(s[i..]) == b + EscapedChar(s[i]) + Escaped(s[i + 1..])
    ensures s[i] == '"' || s[i] == '\\' ==> b + EscapedChar(s[i]) == b + "\\" + [s[i]]
  {
    assert s[i..][1..] == s[i + 1..];
    hide EscapedChar;
    assert b + (EscapedChar(s[i]) + Escaped(s[i + 1..])) == b + EscapedChar(s[i]) + Escaped(s[i + 1..]);
  }

  /** manifestName */
  method WriteName(s: string) returns (b: string)
    ensures b == Name(s)
  {
    if !ContainsAny(s, NAME_TERMINALS) { return s; }
    b := Quote(s);
  }

  /** manifestValue */
  method WriteValue(s: string) returns (b: string)
    ensures b == Value(s)
  {
    if !ContainsAny(s, VALUE_TERMINALS + "\"\\") { return s; }
    b := Quote(s);
  }
}
