/** The framed byte stream of internal/api/framing.go, and the whitespace skip of
    internal/apiserver/imagebuild.go that precedes it. The reader, with any buffers and
    any short reads, refines the one-pass decoder below on every byte stream. */
module Framing {
  import opened Bytes

  const MAX_FRAME := 64 * 1024 * 1024
  const WORD := 0x1_0000_0000

  // ----- The wire format

  /** binary.BigEndian.PutUint32(hdr, uint32(n)) */
  function Header(n: nat): seq<Byte> {
    var w := n % WORD;
    [w / 0x100_0000, w / 0x1_0000 % 256, w / 0x100 % 256, w % 256]
  }

  function HeaderValue(h: seq<Byte>): nat
    requires |h| == 4
  {
    (h[0] as int) * 0x100_0000 + (h[1] as int) * 0x1_0000 + (h[2] as int) * 0x100 + h[3]
  }

  lemma HeaderRoundTrip(n: nat)
    ensures |Header(n)| == 4 && HeaderValue(Header(n)) == n % WORD
    ensures var h := Header(n); (((h[0] as int) * 256 + h[1]) * 256 + h[2]) * 256 + h[3] == n % WORD
  {
    var w := n % WORD;
    assert w / 0x100 == w / 0x1_0000 * 256 + w / 0x100 % 256;
    assert w / 0x1_0000 == w / 0x100_0000 * 256 + w / 0x1_0000 % 256;
  }

  /** One Write: nothing for an empty chunk, else a frame. */
  function Frame(chunk: seq<Byte>): seq<Byte> {
    if chunk == [] then [] else Header(|chunk|) + chunk
  }

  function Frames(chunks: seq<seq<Byte>>): seq<Byte> {
    if chunks == [] then [] else Frame(chunks[0]) + Frames(chunks[1..])
  }

  function Flatten(chunks: seq<seq<Byte>>): seq<Byte> {
    if chunks == [] then [] else chunks[0] + Flatten(chunks[1..])
  }

  /** Every Write in order, then Close. */
  function Encode(chunks: seq<seq<Byte>>): seq<Byte> { Frames(chunks) + Header(0) }

  // ----- Decoding in one pass

  datatype End = Terminator | BadHeader | TooLarge | Truncated

  /** All the payload a stream holds, how it ends, and what is left after the end. */
  datatype Decoded = Decoded(payload: seq<Byte>, rest: seq<Byte>, end: End)

  /** The same end, after more payload. */
  function Before(part: seq<Byte>, d: Decoded): Decoded { d.(payload := part + d.payload) }

  lemma BeforeTwice(a: seq<Byte>, b: seq<Byte>, d: Decoded)
    ensures Before(a, Before(b, d)) == Before(a + b, d) && Before([], d) == d
  {
    assert a + (b + d.payload) == a + b + d.payload;
  }

  function Decode(s: seq<Byte>, remaining: nat): Decoded
    decreases |s|
  {
    if remaining > 0 then
      if |s| < remaining then Decoded(s, [], Truncated)
      else
        Before(s[..remaining], Decode(s[remaining..], 0))
    else if |s| < 4 then Decoded([], [], BadHeader)
    else
      var n := HeaderValue(s[..4]);
      if n == 0 then Decoded([], s[4..], Terminator)
      else if n > MAX_FRAME then Decoded([], s[4..], TooLarge)
      else Decode(s[4..], n)
  }

  ghost predicate ChunksFit(chunks: seq<seq<Byte>>) {
    forall i | 0 <= i < |chunks| :: |chunks[i]| <= MAX_FRAME
  }

  lemma DecodeFrame(chunk: seq<Byte>, after: seq<Byte>)
    requires 1 <= |chunk| <= MAX_FRAME
    ensures Decode(Frame(chunk) + after, 0) == Before(chunk, Decode(after, 0))
  {
    hide HeaderValue, Header, Before;
    var s := Frame(chunk) + after;
    HeaderRoundTrip(|chunk|);
    assert s[..4] == Header(|chunk|);
    assert s[4..] == chunk + after;
    assert Decode(s, 0) == Decode(chunk + after, |chunk|);
    DecodePart(chunk + after, |chunk|, chunk, after);
  }

  lemma {:induction false} DecodeFrames(chunks: seq<seq<Byte>>, after: seq<Byte>)
    requires ChunksFit(chunks)
    ensures Decode(Frames(chunks) + after, 0)
         == Before(Flatten(chunks), Decode(after, 0))
  {
    if chunks == [] {
      assert Frames(chunks) + after == after;
      BeforeTwice([], [], Decode(after, 0));
    } else {
      DecodeFrames(chunks[1..], after);
      DecodeChunk(chunks[0], Frames(chunks[1..]), Flatten(chunks[1..]), after);
    }
  }

  lemma DecodeChunk(chunk: seq<Byte>, frames: seq<Byte>, payload: seq<Byte>, after: seq<Byte>)
    requires |chunk| <= MAX_FRAME
    requires Decode(frames + after, 0) == Before(payload, Decode(after, 0))
    ensures Decode(Frame(chunk) + frames + after, 0)
         == Before(chunk + payload, Decode(after, 0))
  {
    hide Decode, Frame, Before;
    assert Frame(chunk) + frames + after == Frame(chunk) + (frames + after);
    BeforeTwice(chunk, payload, Decode(after, 0));
    if chunk == [] {
      assert [] + payload == payload;
      EmptyFrame(frames + after);
    } else {
      DecodeFrame(chunk, frames + after);
    }
  }

  lemma EmptyFrame(after: seq<Byte>)
    ensures Frame([]) + after == after
  {
  }

  /** What was written comes back, and the stream is left just past the terminator. */
  lemma DecodeEncode(chunks: seq<seq<Byte>>, tail: seq<Byte>)
    requires ChunksFit(chunks)
    ensures Decode(Encode(chunks) + tail, 0) == Decoded(Flatten(chunks), tail, Terminator)
  {
    assert Encode(chunks) + tail == Frames(chunks) + (Header(0) + tail);
    assert Decode(Header(0) + tail, 0) == Decoded([], tail, Terminator) by {
      assert (Header(0) + tail)[..4] == Header(0) && (Header(0) + tail)[4..] == tail;
    }
    DecodeFrames(chunks, Header(0) + tail);
  }

  lemma HeaderBack(h: seq<Byte>)
    requires |h| == 4
    ensures Header(HeaderValue(h)) == h
  {
    var w := HeaderValue(h);
    var high := (h[0] as int * 256 + h[1] as int) * 256 + h[2] as int;
    assert w == high * 256 + h[3] as int && w < WORD;
    assert w / 0x100 == high && w % 256 == h[3] as int;
    assert w / 0x1_0000 == h[0] as int * 256 + h[1] as int;
    assert w / 0x100_0000 == h[0] as int;
  }

  /** And nothing else is read to its end: such a stream begins with frames that fit and the
      terminator, and the payload is theirs. */
  lemma {:induction false} OnlyFramesDecode(s: seq<Byte>) returns (chunks: seq<seq<Byte>>)
    requires Decode(s, 0).end == Terminator
    ensures ChunksFit(chunks) && s == Encode(chunks) + Decode(s, 0).rest && Decode(s, 0).payload == Flatten(chunks)
    decreases |s|
  {
    hide HeaderValue, Header;
    var h, t := s[..4], s[4..];
    assert s == h + t;
    HeaderBack(h);
    var n := HeaderValue(h);
    if n == 0 {
      chunks := [];
      assert Encode([]) == Header(0);
    } else {
      var chunk, rest := t[..n], t[n..];
      var more := OnlyFramesDecode(rest);
      chunks := [chunk] + more;
      FramesBefore(chunk, more, rest, Decode(rest, 0).rest);
      assert h + t == Frame(chunk) + rest by { assert t == chunk + rest; }
    }
  }

  lemma FramesBefore(chunk: seq<Byte>, more: seq<seq<Byte>>, rest: seq<Byte>, tail: seq<Byte>)
    requires rest == Encode(more) + tail
    ensures Frame(chunk) + rest == Encode([chunk] + more) + tail && Flatten([chunk] + more) == chunk + Flatten(more)
  {
    hide Header, Frame;
    assert ([chunk] + more)[1..] == more;
    assert Frame(chunk) + (Frames(more) + Header(0) + tail) == Frame(chunk) + Frames(more) + Header(0) + tail;
  }

  /** A longer chunk never comes back: its header is refused or says something else. */
  lemma ChunkFitsExactly(chunk: seq<Byte>, tail: seq<Byte>)
    ensures Decode(Encode([chunk]) + tail, 0) == Decoded(chunk, tail, Terminator) <==> |chunk| <= 0x400_0000
  {
    assert Flatten([chunk]) == chunk;
    if |chunk| <= MAX_FRAME {
      DecodeEncode([chunk], tail);
    } else {
      var s := Encode([chunk]) + tail;
      HeaderRoundTrip(|chunk|);
      assert Frames([chunk]) == Frame(chunk);
      assert s[..4] == Header(|chunk|) && s[4..] == chunk + Header(0) + tail;
      var n := |chunk| % WORD;
      if 0 < n <= MAX_FRAME {
        var t := s[4..];
        assert Decode(s, 0) == Decode(t, n);
        PayloadIsShort(t[n..]);
      }
    }
  }

  /** Reading k frames costs 4(k+1) bytes on top of the payload. */
  lemma {:induction false} PayloadIsShort(s: seq<Byte>)
    ensures var d := Decode(s, 0);
      && (d.end == Terminator ==> |d.payload| + |d.rest| + 4 <= |s|)
      && (d.end == Terminator && d.payload != [] ==> |d.payload| + |d.rest| + 8 <= |s|)
    decreases |s|
  {
    if |s| < 4 {
    } else {
      var n := HeaderValue(s[..4]);
      if 0 < n <= MAX_FRAME && n <= |s| - 4 {
        PayloadIsShort(s[4..][n..]);
      }
    }
  }

  // ----- Streams that may read short

  /** How many bytes a read gives, with avail bytes ahead. */
  function Amount(avail: nat, want: nat, short: nat): (n: nat)
    ensures n <= avail && n <= want && n <= short
    ensures n == 0 ==> avail == 0 || want == 0 || short == 0
  {
    var n := if avail > want then want else avail;
    if n > short then short else n
  }

  predicate AtEnd(avail: nat, want: nat, short: nat, early: bool) {
    Amount(avail, want, short) == avail && (early || (want > 0 && avail == 0))
  }

  class Stream {
    const data: seq<Byte>
    var pos: nat

    ghost predicate Valid()
      reads this
    {
      pos <= |data|
    }

    ghost function Ahead(): seq<Byte>
      requires Valid()
      reads this
    {
      data[pos..]
    }

    constructor (data: seq<Byte>)
      ensures Valid() && this.data == data && Ahead() == data
    {
      this.data := data;
      pos := 0;
    }

    /** io.Reader: up to `want` bytes, perhaps fewer, never none without cause. The end is
        reported by a read that finds nothing or, if early, along with the last bytes. */
    method Read(want: nat, short: nat, early: bool) returns (got: seq<Byte>, err: bool)
      requires Valid() && short >= 1
      modifies this
      ensures Valid() && old(Ahead()) == got + Ahead() && |got| == Amount(|old(Ahead())|, want, short)
      ensures err <==> AtEnd(|old(Ahead())|, want, short, early)
    {
      var n := |data| - pos;
      err := AtEnd(n, want, short, early);
      if n > want { n := want; }
      if n > short { n := short; }
      got := data[pos..pos + n];
      pos := pos + n;
    }

    /** io.ReadFull of a header. */
    method ReadHeader() returns (h: seq<Byte>, ok: bool)
      requires Valid()
      modifies this
      ensures Valid() && ok == (|old(Ahead())| >= 4)
      ensures ok ==> |h| == 4 && old(Ahead()) == h + Ahead()
      ensures !ok ==> Ahead() == []
    {
      ok := |data| - pos >= 4;
      if ok {
        h := data[pos..pos + 4];
        pos := pos + 4;
      } else {
        h := [];
        pos := |data|;
      }
    }
  }

  // ----- frameReader

  datatype Status = More | Eof | Failed

  /** How much one Read asks of the stream: the comparison is made on uint32(len(p)). */
  function ToRead(length: nat, remaining: nat): nat {
    if length % WORD > remaining then remaining else length
  }

  /** What one Read delivers and leaves: remaining is a uint32 and wraps. */
  datatype Reading = Reading(out: seq<Byte>, ahead: seq<Byte>, remaining: nat, done: bool, status: Status)

  function PayloadStep(ahead: seq<Byte>, remaining: nat, length: nat, short: nat, early: bool): Reading {
    var want := ToRead(length, remaining);
    var n := Amount(|ahead|, want, short);
    Reading(ahead[..n], ahead[n..], (remaining - n) % WORD, false,
            if AtEnd(|ahead|, want, short, early) then Failed else More)
  }

  function ReadStep(ahead: seq<Byte>, remaining: nat, done: bool, length: nat, short: nat, early: bool): Reading {
    if done then Reading([], ahead, remaining, true, Eof)
    else if remaining > 0 then PayloadStep(ahead, remaining, length, short, early)
    else if |ahead| < 4 then Reading([], [], 0, false, Failed)
    else
      var n := HeaderValue(ahead[..4]);
      if n == 0 then Reading([], ahead[4..], 0, true, Eof)
      else if n > MAX_FRAME then Reading([], ahead[4..], 0, false, Failed)
      else PayloadStep(ahead[4..], n, length, short, early)
  }

  class FrameReader {
    const r: Stream
    var remaining: nat
    var done: bool

    ghost predicate Valid()
      reads this, r
    {
      r.Valid() && remaining < WORD
    }

    constructor (r: Stream)
      requires r.Valid()
      ensures Valid() && this.r == r && !done && remaining == 0
    {
      this.r := r;
      remaining, done := 0, false;
    }

    method Read(length: nat, short: nat, early: bool) returns (out: seq<Byte>, status: Status)
      requires Valid() && short >= 1
      modifies this, r
      ensures Valid()
      ensures Reading(out, r.Ahead(), remaining, done, status)
           == ReadStep(old(r.Ahead()), old(remaining), old(done), length, short, early)
    {
      if done { return [], Eof; }
      if remaining == 0 {
        var h, ok := r.ReadHeader();
        if !ok { return [], Failed; }
        ghost var before := old(r.Ahead());
        assert before[..4] == h && before[4..] == r.Ahead();
        var n := HeaderValue(h);
        if n == 0 {
          done := true;
          return [], Eof;
        }
        if n > MAX_FRAME { return [], Failed; }
        remaining := n;
      }
      out, status := ReadPayload(length, short, early);
    }

    method ReadPayload(length: nat, short: nat, early: bool) returns (out: seq<Byte>, status: Status)
      requires Valid() && short >= 1 && !done && remaining > 0
      modifies this, r
      ensures Valid()
      ensures Reading(out, r.Ahead(), remaining, done, status)
           == PayloadStep(old(r.Ahead()), old(remaining), length, short, early)
    {
      var toRead := length;
      if toRead % WORD > remaining { toRead := remaining; }
      var err;
      out, err := r.Read(toRead, short, early);
      remaining := (remaining - |out|) % WORD;
      status := if err then Failed else More;
      ghost var ahead := old(r.Ahead());
      assert ahead[..|out|] == out && ahead[|out|..] == r.Ahead();
    }
  }

  // ----- What reads deliver

  /** What is still to come. */
  function Rest(ahead: seq<Byte>, remaining: nat, done: bool): Decoded {
    if done then Decoded([], ahead, Terminator) else Decode(ahead, remaining)
  }

  /** The buffer lengths that keep every read inside its frame: all below 2^32, and of the
      longer ones those whose low 32 bits exceed the largest frame. */
  predicate SafeLength(length: nat) { length < WORD || length % WORD > MAX_FRAME }

  /** With such a buffer, whatever the stream does, a read delivers the beginning of what is to
      come and leaves the rest; it reports EOF exactly at the terminator, and a failure only
      when all that can be had has been delivered. */
  ghost predicate Delivers(d: Decoded, q: Reading, length: nat) {
    && q.remaining <= MAX_FRAME
    && (q.status == More ==> d == Before(q.out, Rest(q.ahead, q.remaining, q.done)) && (length > 0 ==> q.out != []))
    && (q.status == Failed ==> d.payload == q.out && d.end != Terminator)
    && (q.status == Eof <==> d.payload == [] && d.end == Terminator)
    && (q.status == Eof ==> q.out == [] && q.done && q.ahead == d.rest)
  }

  lemma StepDelivers(ahead: seq<Byte>, remaining: nat, done: bool, length: nat, short: nat, early: bool)
    requires remaining <= MAX_FRAME && SafeLength(length) && short >= 1
    ensures Delivers(Rest(ahead, remaining, done), ReadStep(ahead, remaining, done, length, short, early), length)
  {
    if done {
    } else if remaining > 0 {
      hide Delivers;
      PayloadDelivers(ahead, remaining, length, short, early);
    } else if |ahead| >= 4 && 0 < HeaderValue(ahead[..4]) <= MAX_FRAME {
      hide Delivers, HeaderValue;
      PayloadDelivers(ahead[4..], HeaderValue(ahead[..4]), length, short, early);
    }
  }

  lemma PayloadDelivers(ahead: seq<Byte>, remaining: nat, length: nat, short: nat, early: bool)
    requires 0 < remaining <= MAX_FRAME && SafeLength(length) && short >= 1
    ensures Delivers(Decode(ahead, remaining), PayloadStep(ahead, remaining, length, short, early), length)
  {
    hide Decode, PayloadStep;
    var q := PayloadStep(ahead, remaining, length, short, early);
    StaysInside(ahead, remaining, length, short, early);
    DecodePart(ahead, remaining, q.out, q.ahead);
    MidFrame(ahead, remaining);
    if q.status == Failed {
      MidFrame([], q.remaining);
      assert q.out + [] == q.out;
    }
  }

  lemma StaysInside(ahead: seq<Byte>, remaining: nat, length: nat, short: nat, early: bool)
    requires 0 < remaining <= MAX_FRAME && SafeLength(length) && short >= 1
    ensures var q := PayloadStep(ahead, remaining, length, short, early);
      && ahead == q.out + q.ahead && |q.out| <= remaining && q.remaining == remaining - |q.out|
      && !q.done && (q.status == Failed || q.status == More)
      && (q.status == Failed ==> q.ahead == [])
      && (q.status == More && length > 0 ==> q.out != [])
      && (ahead == [] && length > 0 ==> q.status == Failed)
  {
    var want := ToRead(length, remaining);
    assert want <= remaining && (length > 0 ==> want > 0);
    var n := Amount(|ahead|, want, short);
    assert (remaining - n) % WORD == remaining - n;
  }

  lemma MidFrame(s: seq<Byte>, remaining: nat)
    ensures remaining > 0 && Decode(s, remaining).payload == [] ==> s == []
    ensures s == [] ==> Decode(s, remaining).payload == [] && Decode(s, remaining).end != Terminator
  {
    assert |s| >= remaining > 0 ==> s[..remaining] != [];
  }

  /** Delivering part of a frame leaves the rest of it to come. */
  lemma DecodePart(s: seq<Byte>, remaining: nat, out: seq<Byte>, after: seq<Byte>)
    requires s == out + after && |out| <= remaining && remaining > 0
    ensures Decode(s, remaining) == Before(out, Decode(after, remaining - |out|))
  {
    assert after == s[|out|..];
    if |s| >= remaining {
      assert s[..remaining] == out + after[..remaining - |out|];
      assert s[remaining..] == after[remaining - |out|..];
      assert remaining == |out| ==> s[..remaining] == out;
    }
  }

  /** Any other length overruns: there is a stream with one frame of which a read delivers one
      byte too many, and the count of remaining bytes wraps. */
  lemma Overruns(length: nat) returns (s: seq<Byte>)
    requires !SafeLength(length)
    ensures var q := ReadStep(s, 0, false, length, length, false);
      |q.out| == |Decode(s, 0).payload| + 1 && q.remaining == WORD - 1
  {
    hide Header, HeaderValue;
    var n := if length % WORD == 0 then 1 else length % WORD;
    var body: seq<Byte> := seq(n + 1, _ => 0);
    s := Header(n) + body;
    HeaderRoundTrip(n);
    assert s[..4] == Header(n) && s[4..] == body;
    assert ToRead(length, n) == length && Amount(n + 1, length, length) == n + 1;
    assert Decode(s, 0) == Decode(body, n) == Before(body[..n], Decode(body[n..], 0));
  }

  /** Reads with buffers of this length never deliver anything but payload, on any stream:
      exactly for the safe lengths, and 2^32 is not one. */
  lemma SafeExactly(length: nat)
    ensures SafeLength(length) <==>
      forall s, short: nat, early | short >= 1 ::
        ReadStep(s, 0, false, length, short, early).out <= Decode(s, 0).payload
    ensures !SafeLength(WORD)
  {
    hide ReadStep, Decode;
    if SafeLength(length) {
      forall s, short: nat, early | short >= 1
        ensures ReadStep(s, 0, false, length, short, early).out <= Decode(s, 0).payload
      {
        StepDelivers(s, 0, false, length, short, early);
      }
    } else {
      var s := Overruns(length);
    }
  }

  /** The frame reader drained by any caller: safe buffer lengths, short reads and early ends
      are arbitrary. */
  method ReadAll(fr: FrameReader, lengths: nat -> nat, shorts: nat -> nat, earlies: nat -> bool)
    returns (out: seq<Byte>, ok: bool)
    requires fr.Valid() && fr.remaining <= MAX_FRAME
    requires forall i :: lengths(i) > 0 && SafeLength(lengths(i)) && shorts(i) >= 1
    modifies fr, fr.r
    ensures fr.Valid()
    ensures var d := old(Rest(fr.r.Ahead(), fr.remaining, fr.done));
      && out == d.payload
      && (ok <==> d.end == Terminator)
      && (ok ==> fr.r.Ahead() == d.rest)
  {
    hide Decode, ReadStep;
    out := [];
    var i := 0;
    ghost var d := Rest(fr.r.Ahead(), fr.remaining, fr.done);
    BeforeTwice([], [], d);
    while true
      invariant fr.Valid() && fr.remaining <= MAX_FRAME
      invariant d == Before(out, Rest(fr.r.Ahead(), fr.remaining, fr.done))
      decreases |Rest(fr.r.Ahead(), fr.remaining, fr.done).payload|
    {
      StepDelivers(fr.r.Ahead(), fr.remaining, fr.done, lengths(i), shorts(i), earlies(i));
      var got, status := fr.Read(lengths(i), shorts(i), earlies(i));
      BeforeTwice(out, got, Rest(fr.r.Ahead(), fr.remaining, fr.done));
      assert status != More ==> d.payload == out + got && (status == Eof <==> d.end == Terminator);
      out := out + got;
      if status != More { return out, status == Eof; }
      i := i + 1;
    }
  }

  // ----- The whitespace before the frames

  predicate IsSpace(b: Byte) { b == 0x20 || b == 0x09 || b == 0x0A || b == 0x0D }

  method SkipLeadingWhitespace(s: Stream)
    requires s.Valid()
    modifies s
    ensures s.Valid() && old(s.pos) <= s.pos
    ensures forall i | old(s.pos) <= i < s.pos :: IsSpace(s.data[i])
    ensures s.pos < |s.data| ==> !IsSpace(s.data[s.pos])
    ensures s.pos < |s.data| ==> s.data[s.pos] !in {0x20, 0x09, 0x0A, 0x0D}
    ensures forall i | old(s.pos) <= i < s.pos :: s.data[i] in {0x20, 0x09, 0x0A, 0x0D}
  {
    while true
      invariant s.Valid() && old(s.pos) <= s.pos
      invariant forall i | old(s.pos) <= i < s.pos :: IsSpace(s.data[i])
      decreases |s.data| - s.pos
    {
      if s.pos == |s.data| { return; }
      var b := s.data[s.pos];
      s.pos := s.pos + 1;
      if !IsSpace(b) {
        s.pos := s.pos - 1;
        return;
      }
    }
  }

  /** A stream of frames begins with a byte of at most 4, which is not whitespace. */
  lemma {:induction false} FirstByte(chunks: seq<seq<Byte>>)
    requires ChunksFit(chunks)
    ensures Encode(chunks) != [] && Encode(chunks)[0] <= 4 && !IsSpace(Encode(chunks)[0])
  {
    if chunks != [] && chunks[0] == [] {
      FirstByte(chunks[1..]);
      assert Encode(chunks) == Encode(chunks[1..]) by { EmptyFrame(Frames(chunks[1..])); }
    } else if chunks != [] {
      assert |chunks[0]| % WORD == |chunks[0]|;
      assert Encode(chunks)[0] == Header(|chunks[0]|)[0];
    }
  }

  // ----- frameWriter

  class FrameWriter {
    var out: seq<Byte>

    constructor ()
      ensures out == []
    {
      out := [];
    }

    method Write(p: seq<Byte>)
      modifies this
      ensures out == old(out) + Frame(p)
    {
      if |p| == 0 { return; }
      out := out + Header(|p|);
      out := out + p;
    }

    method Close()
      modifies this
      ensures out == old(out) + Header(0)
    {
      out := out + Header(0);
    }
  }

  /** Write the chunks, put any JSON whitespace in front and any bytes behind, skip, read:
      the chunks come back and the stream stands just past the terminator. */
  method Transfer(chunks: seq<seq<Byte>>, space: seq<Byte>, tail: seq<Byte>,
                  lengths: nat -> nat, shorts: nat -> nat, earlies: nat -> bool)
    returns (payload: seq<Byte>, left: seq<Byte>, ok: bool)
    requires ChunksFit(chunks) && forall i | 0 <= i < |space| :: IsSpace(space[i])
    requires forall i :: lengths(i) > 0 && SafeLength(lengths(i)) && shorts(i) >= 1
    ensures ok && payload == Flatten(chunks) && left == tail
  {
    var bytes := WriteAll(chunks);
    var s := new Stream(space + bytes + tail);
    SkipLeadingWhitespace(s);
    FirstByte(chunks);
    assert s.data == space + (Encode(chunks) + tail);
    StopsAfterSpace(space, Encode(chunks) + tail, s.data, s.pos);
    hide Decode, Encode, Flatten, IsSpace;
    DecodeEncode(chunks, tail);
    var fr := new FrameReader(s);
    payload, ok := ReadAll(fr, lengths, shorts, earlies);
    left := s.data[s.pos..];
  }

  method WriteAll(chunks: seq<seq<Byte>>) returns (bytes: seq<Byte>)
    ensures bytes == Encode(chunks)
  {
    hide Frames, Frame, Header;
    var w := new FrameWriter();
    assert chunks[0..] == chunks && [] + Frames(chunks) == Frames(chunks);
    for i := 0 to |chunks|
      invariant Frames(chunks) == w.out + Frames(chunks[i..])
    {
      w.Write(chunks[i]);
      FramesStep(chunks, i);
    }
    FramesStep(chunks, |chunks|);
    w.Close();
    bytes := w.out;
  }

  lemma FramesStep(chunks: seq<seq<Byte>>, i: nat)
    requires i <= |chunks|
    ensures i < |chunks| ==> Frames(chunks[i..]) == Frame(chunks[i]) + Frames(chunks[i + 1..])
    ensures i == |chunks| ==> Frames(chunks[i..]) == []
  {
    assert i < |chunks| ==> chunks[i..][1..] == chunks[i + 1..];
  }

  lemma StopsAfterSpace(space: seq<Byte>, body: seq<Byte>, data: seq<Byte>, pos: nat)
    requires forall i | 0 <= i < |space| :: IsSpace(space[i])
    requires body != [] && !IsSpace(body[0]) && data == space + body && pos <= |data|
    requires (forall i | 0 <= i < pos :: IsSpace(data[i])) && (pos < |data| ==> !IsSpace(data[pos]))
    ensures pos == |space| && data[pos..] == body
  {
    assert data[|space|] == body[0];
    assert forall i | 0 <= i < |space| :: data[i] == space[i];
  }
}
