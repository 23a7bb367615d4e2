/** The content-addressed image store of internal/image/store.go: references name digests,
    directories are filed under the digest of the disk they hold. The hash is any function
    from disks to 64 hex digits. */
module ImageStore {
  import opened Options

  type Disk = seq<int>
  const SCHEMA_VERSION := 1
  const DIGEST_PREFIX := "sha256:"
  const LATEST := ":latest"

  datatype Manifest = Manifest(schemaVersion: int, name: string, tag: string, config: string,
                               diskDigest: string, diskSize: int)
  datatype Dir = Dir(manifest: Manifest, disk: Disk)
  datatype Images = Images(refs: map<string, string>, dirs: map<string, Dir>)

  /** validate in manifest.go, applied whenever a manifest is read back */
  predicate ValidManifest(m: Manifest) {
    && m.schemaVersion == SCHEMA_VERSION && m.name != "" && m.tag != ""
    && |m.diskDigest| >= 8 && m.diskDigest[..7] == DIGEST_PREFIX && m.diskSize > 0
  }

  function TrimDigestPrefix(s: string): string {
    if DIGEST_PREFIX <= s then s[|DIGEST_PREFIX|..] else s
  }

  // ----- Looking up a reference

  /** The digest is the only one that some reference names and that starts with needle. */
  ghost predicate OnlyMatch(refs: map<string, string>, needle: string, sha: string) {
    && sha in refs.Values && needle <= sha
    && forall v | v in refs.Values && needle <= v :: v == sha
  }

  ghost function BySha(refs: map<string, string>, needle: string): Option<string> {
    if sha :| OnlyMatch(refs, needle, sha) then Some(sha) else None
  }

  lemma ByShaIs(refs: map<string, string>, needle: string, sha: string)
    ensures OnlyMatch(refs, needle, sha) <==> BySha(refs, needle) == Some(sha)
  {
    if OnlyMatch(refs, needle, sha) {
      assert exists s :: OnlyMatch(refs, needle, s);
      var other := BySha(refs, needle).value;
      assert OnlyMatch(refs, needle, other);
    }
  }

  /** resolveRef */
  ghost function Lookup(refs: map<string, string>, ref: string): Option<string> {
    if ref in refs then Some(refs[ref])
    else if ':' !in ref && ref + LATEST in refs then Some(refs[ref + LATEST])
    else BySha(refs, TrimDigestPrefix(ref))
  }

  // ----- The operations on values

  function Stamped(m: Manifest, sha: string): Manifest { m.(diskDigest := DIGEST_PREFIX + sha) }

  function Put(s: Images, ref: string, m: Manifest, disk: Disk, sha: string): Images {
    Images(s.refs[ref := sha], s.dirs[sha := Dir(Stamped(m, sha), disk)])
  }

  /** The name a removal is by, if it is by name. */
  function NamedRef(refs: map<string, string>, ref: string): Option<string> {
    if ref in refs then Some(ref)
    else if ':' !in ref && ref + LATEST in refs then Some(ref + LATEST)
    else None
  }

  ghost function RefsWithout(refs: map<string, string>, ref: string, sha: string): map<string, string> {
    match NamedRef(refs, ref)
    case Some(name) => refs - {name}
    case None => map r | r in refs && refs[r] != sha :: refs[r]
  }

  ghost function Removed(s: Images, ref: string): Images {
    match Lookup(s.refs, ref)
    case None => s
    case Some(sha) =>
      var refs := RefsWithout(s.refs, ref, sha);
      Images(refs, if sha in refs.Values then s.dirs else s.dirs - {sha})
  }

  /** Resolve: the manifest and the address of the disk. */
  ghost function Resolved(s: Images, ref: string): Option<(Manifest, string)> {
    match Lookup(s.refs, ref)
    case None => None
    case Some(sha) =>
      if sha in s.dirs && ValidManifest(s.dirs[sha].manifest)
         && s.dirs[sha].manifest.diskDigest == DIGEST_PREFIX + sha
      then Some((s.dirs[sha].manifest, sha)) else None
  }

  // ----- What every run keeps

  /** Each reference names a directory whose manifest and disk both match its address. */
  ghost predicate Sound(s: Images, hash: Disk -> string) {
    forall r | r in s.refs ::
      var sha := s.refs[r];
      && |sha| == 64 && sha in s.dirs
      && s.dirs[sha].manifest.diskDigest == DIGEST_PREFIX + sha
      && hash(s.dirs[sha].disk) == sha
  }

  ghost predicate AllManifestsValid(s: Images) {
    forall r | r in s.refs && s.refs[r] in s.dirs :: ValidManifest(s.dirs[s.refs[r]].manifest)
  }

  datatype Event = PutImage(ref: string, m: Manifest, disk: Disk) | RemoveImage(ref: string)

  ghost function Apply(s: Images, hash: Disk -> string, ev: Event): Images {
    match ev
    case PutImage(ref, m, disk) => Put(s, ref, m, disk, hash(disk))
    case RemoveImage(ref) => Removed(s, ref)
  }

  ghost function Run(hash: Disk -> string, events: seq<Event>): Images {
    if events == [] then Images(map[], map[])
    else Apply(Run(hash, events[..|events| - 1]), hash, events[|events| - 1])
  }

  /** The manifests given to Put would pass validation once their digest is filled in. */
  ghost predicate WellFormedPuts(events: seq<Event>) {
    forall i | 0 <= i < |events| && events[i].PutImage? :: WellFormed(events[i].m)
  }

  predicate WellFormed(m: Manifest) {
    m.schemaVersion == SCHEMA_VERSION && m.name != "" && m.tag != "" && m.diskSize > 0
  }

  lemma LookupIsNamed(s: Images, ref: string)
    requires Lookup(s.refs, ref).Some?
    ensures Lookup(s.refs, ref).value in s.refs.Values
  {
    if NamedRef(s.refs, ref).None? {
      ByShaIs(s.refs, TrimDigestPrefix(ref), Lookup(s.refs, ref).value);
    }
  }

  /** A reference is looked up as it is, else with the tag latest, else as a digest or the beginning
      of one, with or without its prefix. */
  lemma LookupExactly(refs: map<string, string>, ref: string, sha: string)
    ensures Lookup(refs, ref) == Some(sha) <==>
      if ref in refs then refs[ref] == sha
      else if ':' !in ref && ref + ":latest" in refs then refs[ref + ":latest"] == sha
      else OnlyMatch(refs, if "sha256:" <= ref then ref[7..] else ref, sha)
  {
    ByShaIs(refs, TrimDigestPrefix(ref), sha);
  }

  /** A put sets one reference and one directory and leaves all others alone. */
  lemma PutExactly(s: Images, hash: Disk -> string, ref: string, m: Manifest, disk: Disk, r: string, d: string)
    ensures var t := Apply(s, hash, PutImage(ref, m, disk));
      && ref in t.refs && t.refs[ref] == hash(disk)
      && (r != ref ==> (r in t.refs <==> r in s.refs) && (r in s.refs ==> t.refs[r] == s.refs[r]))
      && hash(disk) in t.dirs && t.dirs[hash(disk)].disk == disk
      && t.dirs[hash(disk)].manifest == m.(diskDigest := "sha256:" + hash(disk))
      && (d != hash(disk) ==> (d in t.dirs <==> d in s.dirs) && (d in s.dirs ==> t.dirs[d] == s.dirs[d]))
  {
  }

  /** What a removal by ref takes: the reference itself, or else the one with the tag latest, or else
      all that name the one digest that ref begins. */
  ghost predicate Takes(refs: map<string, string>, ref: string, r: string)
    requires r in refs
  {
    if ref in refs then r == ref
    else if ':' !in ref && ref + ":latest" in refs then r == ref + ":latest"
    else Lookup(refs, ref) == Some(refs[r])
  }

  /** A removal takes those references and no other, and with them the directories that some taken
      reference named and no remaining one does. */
  lemma RemoveExactly(s: Images, ref: string, r: string, d: string)
    ensures var t := Removed(s, ref);
      && (r in t.refs <==> r in s.refs && !Takes(s.refs, ref, r))
      && (r in t.refs ==> t.refs[r] == s.refs[r])
      && (d in t.dirs <==> d in s.dirs && (d in t.refs.Values || !TakesDigest(s.refs, ref, d)))
      && (d in t.dirs ==> t.dirs[d] == s.dirs[d])
  {
    hide BySha;
    if Lookup(s.refs, ref).Some? { LookupIsNamed(s, ref); }
  }

  ghost predicate TakesDigest(refs: map<string, string>, ref: string, d: string) {
    exists r | r in refs :: Takes(refs, ref, r) && refs[r] == d
  }

  /** A removal touches a directory only if no reference names it any more. */
  lemma RemoveKeepsNamed(s: Images, ref: string, r: string)
    requires r in Removed(s, ref).refs
    ensures r in s.refs && Removed(s, ref).refs[r] == s.refs[r]
    ensures s.refs[r] in s.dirs ==>
      s.refs[r] in Removed(s, ref).dirs && Removed(s, ref).dirs[s.refs[r]] == s.dirs[s.refs[r]]
  {
    hide BySha;
    assert Removed(s, ref).refs[r] in Removed(s, ref).refs.Values;
  }

  lemma StepKeepsSound(s: Images, hash: Disk -> string, ev: Event)
    requires forall d :: |hash(d)| == 64
    requires Sound(s, hash)
    ensures Sound(Apply(s, hash, ev), hash)
    ensures AllManifestsValid(s) && (ev.PutImage? ==> WellFormed(ev.m)) ==> AllManifestsValid(Apply(s, hash, ev))
  {
    hide Lookup;
    match ev {
      case PutImage(ref, m, disk) =>
        StampedIsValid(m, hash(disk));
      case RemoveImage(ref) =>
        forall r | r in Removed(s, ref).refs
          ensures r in s.refs && Removed(s, ref).refs[r] == s.refs[r]
          ensures s.refs[r] in Removed(s, ref).dirs && Removed(s, ref).dirs[s.refs[r]] == s.dirs[s.refs[r]]
        {
          RemoveKeepsNamed(s, ref, r);
        }
    }
  }

  lemma StampedIsValid(m: Manifest, sha: string)
    requires |sha| == 64
    ensures WellFormed(m) <==> ValidManifest(Stamped(m, sha))
  {
    assert (DIGEST_PREFIX + sha)[..7] == DIGEST_PREFIX;
  }

  /** In every run, references lead to directories whose contents match their address. */
  lemma {:induction false} RunIsSound(hash: Disk -> string, events: seq<Event>)
    requires forall d :: |hash(d)| == 64
    ensures Sound(Run(hash, events), hash)
    ensures WellFormedPuts(events) ==> AllManifestsValid(Run(hash, events))
    decreases |events|
  {
    if events == [] {
    } else {
      var front := events[..|events| - 1];
      RunIsSound(hash, front);
      StepKeepsSound(Run(hash, front), hash, events[|events| - 1]);
      assert forall i | 0 <= i < |front| :: front[i] == events[i];
    }
  }

  /** Event i put something under r, and no later event put or took it. */
  ghost predicate LastPut(hash: Disk -> string, events: seq<Event>, r: string, i: nat) {
    && i < |events| && events[i].PutImage? && events[i].ref == r
    && forall j | i < j < |events| :: !Disturbs(hash, events, r, j)
  }

  ghost predicate Disturbs(hash: Disk -> string, events: seq<Event>, r: string, j: nat)
    requires j < |events|
  {
    match events[j]
    case PutImage(ref, _, _) => ref == r
    case RemoveImage(ref) =>
      var before := Run(hash, events[..j]).refs;
      r in before && Takes(before, ref, r)
  }

  /** After any run a reference is there exactly when some put under it was followed by no other and
      by no removal that takes it, and it names the digest of that put. */
  lemma {:induction false} RefsExactly(hash: Disk -> string, events: seq<Event>, r: string, sha: string)
    ensures var refs := Run(hash, events).refs;
      r in refs && refs[r] == sha <==>
        exists i: nat :: LastPut(hash, events, r, i) && hash(events[i].disk) == sha
    decreases |events|
  {
    hide Takes, Removed, Put, Disturbs;
    if events == [] {
    } else {
      var last := |events| - 1;
      var front, ev := events[..last], events[last];
      RefsExactly(hash, front, r, sha);
      RefAfter(hash, events, r, sha);
      hide Run;
      forall i: nat | i < last
        ensures LastPut(hash, events, r, i) <==> LastPut(hash, front, r, i) && !Disturbs(hash, events, r, last)
      {
        OneMoreEvent(hash, events, r, i);
      }
      assert LastPut(hash, events, r, last) <==> ev.PutImage? && ev.ref == r;
      if i: nat :| LastPut(hash, front, r, i) && hash(front[i].disk) == sha {
        assert !Disturbs(hash, events, r, last) ==> LastPut(hash, events, r, i) && events[i] == front[i];
      }
      if i: nat :| LastPut(hash, events, r, i) && hash(events[i].disk) == sha {
        assert i < last ==> LastPut(hash, front, r, i) && events[i] == front[i];
      }
    }
  }

  lemma RefAfter(hash: Disk -> string, events: seq<Event>, r: string, sha: string)
    requires events != []
    ensures var last := |events| - 1;
      var before, after := Run(hash, events[..last]).refs, Run(hash, events).refs;
      r in after && after[r] == sha <==>
        if Disturbs(hash, events, r, last) then events[last].PutImage? && hash(events[last].disk) == sha
        else r in before && before[r] == sha
    ensures var ev := events[|events| - 1];
      ev.PutImage? ==> (Disturbs(hash, events, r, |events| - 1) <==> ev.ref == r)
  {
    hide Takes, Removed, Put;
    var last := |events| - 1;
    var s, ev := Run(hash, events[..last]), events[last];
    if ev.PutImage? {
      PutExactly(s, hash, ev.ref, ev.m, ev.disk, r, "");
    } else {
      RemoveExactly(s, ev.ref, r, "");
    }
  }

  lemma OneMoreEvent(hash: Disk -> string, events: seq<Event>, r: string, i: nat)
    requires i < |events| - 1
    ensures var last := |events| - 1;
      LastPut(hash, events, r, i) <==> LastPut(hash, events[..last], r, i) && !Disturbs(hash, events, r, last)
  {
    hide Run, Takes;
    var last := |events| - 1;
    var front := events[..last];
    assert front[i] == events[i];
    forall j | i < j < last ensures Disturbs(hash, events, r, j) <==> Disturbs(hash, front, r, j) {
      assert front[..j] == events[..j] && front[j] == events[j];
    }
  }

  /** Event k is the last that put a disk of digest d. */
  ghost predicate LastDisk(hash: Disk -> string, events: seq<Event>, d: string, k: nat) {
    && k < |events| && events[k].PutImage? && hash(events[k].disk) == d
    && forall j | k < j < |events| && events[j].PutImage? :: hash(events[j].disk) != d
  }

  /** And behind it are the disk and the manifest of the last put of that digest. */
  lemma {:induction false} ContentsExactly(hash: Disk -> string, events: seq<Event>, r: string) returns (k: nat)
    requires r in Run(hash, events).refs
    ensures var s := Run(hash, events);
      var d := s.refs[r];
      LastDisk(hash, events, d, k) && d in s.dirs
      && s.dirs[d] == Dir(events[k].m.(diskDigest := "sha256:" + d), events[k].disk)
    decreases |events|
  {
    hide Takes, Removed;
    var last := |events| - 1;
    var front, ev := events[..last], events[last];
    var s, d := Run(hash, front), Run(hash, events).refs[r];
    if ev.PutImage? {
      PutExactly(s, hash, ev.ref, ev.m, ev.disk, r, d);
      k := last;
      if hash(ev.disk) != d {
        k := ContentsExactly(hash, front, r);
      }
    } else {
      RemoveExactly(s, ev.ref, r, d);
      assert d in Run(hash, events).refs.Values;
      k := ContentsExactly(hash, front, r);
    }
    assert forall j | 0 <= j < last :: front[j] == events[j];
  }

  /** So, with well-formed manifests, a reference resolves exactly when it is found, and the
      disk behind it always passes Get's integrity check. */
  lemma FoundMeansIntact(hash: Disk -> string, events: seq<Event>, ref: string)
    requires forall d :: |hash(d)| == 64
    requires WellFormedPuts(events)
    ensures var s := Run(hash, events);
      && (Resolved(s, ref).Some? <==> Lookup(s.refs, ref).Some?)
      && (Resolved(s, ref).Some? ==>
            var (m, sha) := Resolved(s, ref).value;
            sha in s.dirs && s.dirs[sha].manifest == m && DIGEST_PREFIX + hash(s.dirs[sha].disk) == m.diskDigest)
  {
    var s := Run(hash, events);
    RunIsSound(hash, events);
    if Lookup(s.refs, ref).Some? {
      LookupIsNamed(s, ref);
      var r :| r in s.refs && s.refs[r] == Lookup(s.refs, ref).value;
    }
  }

  /** A reference resolves to the manifest in the directory that it is looked up in, if that has
      schema version 1, a name, a tag and a positive size, and names the directory as its digest. */
  lemma ResolveExactly(s: Images, ref: string, m: Manifest, sha: string)
    requires |sha| == 64
    ensures Resolved(s, ref) == Some((m, sha)) <==>
      && Lookup(s.refs, ref) == Some(sha) && sha in s.dirs && s.dirs[sha].manifest == m
      && m.schemaVersion == 1 && m.name != "" && m.tag != "" && m.diskSize > 0 && m.diskDigest == "sha256:" + sha
  {
    hide Lookup;
    assert ("sha256:" + sha)[..7] == "sha256:";
  }

  /** What was put under a reference is what the reference resolves to. */
  lemma PutThenResolve(s: Images, hash: Disk -> string, ref: string, m: Manifest, disk: Disk)
    requires WellFormed(m) && |hash(disk)| == 64
    ensures var t := Apply(s, hash, PutImage(ref, m, disk));
      Resolved(t, ref) == Some((Stamped(m, hash(disk)), hash(disk))) && t.dirs[hash(disk)].disk == disk
  {
    StampedIsValid(m, hash(disk));
  }

  // ----- The store

  class Store {
    var images: Images
    const hash: Disk -> string

    ghost predicate Valid()
      reads this
    {
      (forall d :: |hash(d)| == 64) && Sound(images, hash)
    }

    constructor (hash: Disk -> string)
      requires forall d :: |hash(d)| == 64
      ensures Valid() && this.hash == hash && images == Images(map[], map[])
    {
      this.hash := hash;
      images := Images(map[], map[]);
    }

    /** put: the disk is copied or moved in, the manifest stamped, the reference added. */
    method PutDisk(name: string, tag: string, m: Manifest, disk: Disk) returns (stored: Manifest)
      requires Valid()
      modifies this
      ensures Valid() && images == Apply(old(images), hash, PutImage(name + ":" + tag, m, disk))
      ensures stored == Stamped(m, hash(disk))
    {
      StepKeepsSound(images, hash, PutImage(name + ":" + tag, m, disk));
      var sha := hash(disk);
      stored := m.(diskDigest := DIGEST_PREFIX + sha);
      images := Images(images.refs, images.dirs[sha := Dir(stored, disk)]);
      images := images.(refs := images.refs[name + ":" + tag := sha]);
    }

    /** findBySHA: a running match over the references, in some map order. */
    static method FindBySha(refs: map<string, string>, ref: string) returns (r: Option<string>)
      requires forall k | k in refs :: refs[k] != ""
      ensures r == BySha(refs, TrimDigestPrefix(ref))
    {
      var needle := TrimDigestPrefix(ref);
      var found := "";
      var todo := refs.Keys;
      while todo != {}
        invariant todo <= refs.Keys
        invariant found != "" ==> found in refs.Values && needle <= found
        invariant forall k | k in refs.Keys - todo && needle <= refs[k] :: refs[k] == found
      {
        var k :| k in todo;
        var sha := refs[k];
        if sha == needle || needle <= sha {
          if found != "" && found != sha {
            NoOnlyMatch(refs, needle, found, sha);
            return None;
          }
          found := sha;
        }
        todo := todo - {k};
      }
      if found == "" {
        NoOnlyMatch(refs, needle, "", "");
        return None;
      }
      assert OnlyMatch(refs, needle, found);
      ByShaIs(refs, needle, found);
      r := Some(found);
    }

    method ResolveRef(ref: string) returns (r: Option<string>)
      requires Valid()
      ensures r == Lookup(images.refs, ref)
    {
      if ref in images.refs { return Some(images.refs[ref]); }
      if ':' !in ref && ref + LATEST in images.refs { return Some(images.refs[ref + LATEST]); }
      r := FindBySha(images.refs, ref);
    }

    method Resolve(ref: string) returns (r: Option<(Manifest, string)>)
      requires Valid()
      ensures r == Resolved(images, ref)
    {
      var sha := ResolveRef(ref);
      if sha.None? || sha.value !in images.dirs { return None; }
      var m := images.dirs[sha.value].manifest;
      if !ValidManifest(m) { return None; }
      if m.diskDigest != DIGEST_PREFIX + sha.value { return None; }
      r := Some((m, sha.value));
    }

    /** Get never meets an integrity mismatch. */
    method Get(ref: string) returns (r: Option<(Manifest, Disk)>)
      requires Valid()
      ensures r.Some? <==> Resolved(images, ref).Some?
      ensures r.Some? ==> r.value.0 == Resolved(images, ref).value.0
      ensures r.Some? ==> r.value.0.diskDigest == DIGEST_PREFIX + hash(r.value.1)
    {
      var found := Resolve(ref);
      if found.None? { return None; }
      var (m, sha) := found.value;
      var disk := images.dirs[sha].disk;
      LookupIsNamed(images, ref);
      if DIGEST_PREFIX + hash(disk) != m.diskDigest { return None; }
      r := Some((m, disk));
    }

    static method DropDigest(refs: map<string, string>, sha: string) returns (left: map<string, string>)
      ensures left == map r | r in refs && refs[r] != sha :: refs[r]
    {
      left := refs;
      var todo := refs.Keys;
      while todo != {}
        invariant todo <= refs.Keys
        invariant left == map r | r in refs && (r in todo || refs[r] != sha) :: refs[r]
      {
        var r :| r in todo;
        if refs[r] == sha { left := left - {r}; }
        todo := todo - {r};
      }
    }

    /** Remove picks the digest that Resolve would pick. */
    method Remove(ref: string) returns (found: bool)
      requires Valid()
      modifies this
      ensures Valid() && images == Removed(old(images), ref)
      ensures found <==> Lookup(old(images.refs), ref).Some?
    {
      StepKeepsSound(images, hash, RemoveImage(ref));
      var refs := images.refs;
      var name := NamedRef(refs, ref);
      var sha;
      if name.Some? {
        sha := Some(refs[name.value]);
      } else {
        sha := FindBySha(refs, ref);
      }
      if sha.None? { return false; }
      hide BySha;
      if name.Some? {
        refs := refs - {name.value};
      } else {
        refs := DropDigest(refs, sha.value);
      }
      images := images.(refs := refs);
      if sha.value !in refs.Values {
        images := images.(dirs := images.dirs - {sha.value});
      }
      found := true;
    }
  }

  lemma NoOnlyMatch(refs: map<string, string>, needle: string, a: string, b: string)
    ensures a != b && a in refs.Values && b in refs.Values && needle <= a && needle <= b ==> BySha(refs, needle).None?
    ensures (forall k | k in refs :: !(needle <= refs[k])) ==> BySha(refs, needle).None?
  {
  }
}
