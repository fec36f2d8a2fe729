/** Length-prefixed frames over a byte stream (internal/transport/transport.go:60-90). */
module Frames {
  import opened Model

  datatype StreamError = EndOfInput | UnexpectedEnd | BadFrameSize(n: int) | FrameTooLarge | WriteFailed

  /** Big-endian, four bytes. */
  function Header(n: nat): (s: Bytes)
    requires n < 0x1_0000_0000
    ensures |s| == 4
  {
    [(n / 0x100_0000) as char, (n / 0x1_0000 % 0x100) as char, (n / 0x100 % 0x100) as char, (n % 0x100) as char]
  }

  function Number(s: Bytes): nat
    requires |s| == 4
  {
    s[0] as int * 0x100_0000 + s[1] as int * 0x1_0000 + s[2] as int * 0x100 + s[3] as int
  }

  lemma HeaderRoundTrip(n: nat)
    requires n < 0x1_0000_0000
    ensures Number(Header(n)) == n
  {
    var a, b := n / 0x100, n / 0x1_0000;
    assert n == 0x100 * a + n % 0x100;
    assert a == 0x100 * b + a % 0x100;
    assert b == 0x100 * (n / 0x100_0000) + b % 0x100;
  }

  predicate AllBytes(s: Bytes) {
    forall i :: 0 <= i < |s| ==> s[i] as int < 0x100
  }

  lemma NumberRoundTrip(s: Bytes)
    requires |s| == 4 && AllBytes(s)
    ensures Number(s) < 0x1_0000_0000 && Header(Number(s)) == s
  {
    assert s[0] as int < 0x100 && s[1] as int < 0x100 && s[2] as int < 0x100 && s[3] as int < 0x100;
    var n := Number(s);
    assert n / 0x100_0000 == s[0] as int;
    assert n / 0x1_0000 == s[0] as int * 0x100 + s[1] as int;
    assert n / 0x100 == s[0] as int * 0x1_0000 + s[1] as int * 0x100 + s[2] as int;
  }

  predicate Payload(data: Bytes, limit: nat) {
    0 < |data| <= limit
  }

  function Encode(data: Bytes): (s: Bytes)
    requires |data| < 0x1_0000_0000
    ensures |s| == 4 + |data|
  {
    Header(|data|) + data
  }

  /** io.ReadFull on input that ends after `rest`. */
  function Take(rest: Bytes, n: nat): Result<Bytes, StreamError> {
    if n <= |rest| then Ok(rest[..n])
    else if rest == [] then Err(EndOfInput)
    else Err(UnexpectedEnd)
  }

  function Drop(rest: Bytes, n: nat): Bytes {
    if n <= |rest| then rest[n..] else []
  }

  /** readFrame on input that ends after `rest`. */
  function Frame(rest: Bytes, limit: nat): Result<Bytes, StreamError> {
    match Take(rest, 4)
    case Err(x) => Err(x)
    case Ok(hd) =>
      if Number(hd) == 0 || Number(hd) > limit then Err(BadFrameSize(Number(hd)))
      else Take(rest[4..], Number(hd))
  }

  function AfterFrame(rest: Bytes, limit: nat): (s: Bytes)
    ensures |s| <= |rest| && (Frame(rest, limit).Ok? ==> |s| < |rest|)
  {
    match Take(rest, 4)
    case Err(_) => []
    case Ok(hd) => if Number(hd) == 0 || Number(hd) > limit then rest[4..] else Drop(rest[4..], Number(hd))
  }

  /** A connection as a reader meets it: each piece is what one Read may deliver, then end of input. */
  class Reader {
    var pieces: seq<Bytes>

    ghost function Rest(): Bytes reads this { Join(pieces) }

    constructor (pieces: seq<Bytes>)
      ensures this.pieces == pieces
    {
      this.pieces := pieces;
    }

    /** One Read: at most n bytes of the next piece. */
    method Read(n: nat) returns (b: Bytes, eof: bool)
      requires n > 0
      modifies this
      ensures |b| <= n && b + Rest() == old(Rest())
      ensures eof ==> b == [] && Rest() == []
      ensures !eof ==> |pieces| + |Rest()| < old(|pieces| + |Rest()|)
    {
      if pieces == [] {
        return [], true;
      }
      var p := pieces[0];
      if |p| <= n {
        b := p;
        pieces := pieces[1..];
      } else {
        b := p[..n];
        pieces := [p[n..]] + pieces[1..];
        assert p == p[..n] + p[n..];
      }
      eof := false;
    }

    /** io.ReadFull: the outcome depends only on the bytes, never on how they are cut into pieces. */
    method ReadFull(n: nat) returns (r: Result<Bytes, StreamError>)
      modifies this
      ensures r == Take(old(Rest()), n) && Rest() == Drop(old(Rest()), n)
    {
      ghost var all := Rest();
      var got: Bytes := [];
      while |got| < n
        invariant |got| <= n && got + Rest() == all
        decreases |pieces| + |Rest()|
      {
        var b, eof := Read(n - |got|);
        if eof {
          assert got == all;
          return Err(if got == [] then EndOfInput else UnexpectedEnd);
        }
        got := got + b;
      }
      assert all[..n] == got && all[n..] == Rest();
      return Ok(got);
    }

    method ReadFrame(limit: nat) returns (r: Result<Bytes, StreamError>)
      modifies this
      ensures r == Frame(old(Rest()), limit) && Rest() == AfterFrame(old(Rest()), limit)
    {
      var hd := ReadFull(4);
      if hd.Err? {
        return hd;
      }
      var n := Number(hd.value);
      if n == 0 || n > limit {
        return Err(BadFrameSize(n));
      }
      r := ReadFull(n);
    }

    /** Reading until something goes wrong. */
    method ReadFrames(limit: nat) returns (frames: seq<Bytes>, end: StreamError)
      modifies this
      ensures (frames, end) == Frames(old(Rest()), limit)
    {
      hide Frame, AfterFrame, Join;
      ghost var all := Rest();
      frames := [];
      assert [] + Frames(all, limit).0 == Frames(all, limit).0;
      while true
        invariant Frames(all, limit) == (frames + Frames(Rest(), limit).0, Frames(Rest(), limit).1)
        decreases |Rest()|
      {
        FramesUnfold(Rest(), limit, frames);
        hide Frames;
        var r := ReadFrame(limit);
        match r {
          case Err(x) => return frames, x;
          case Ok(b) => frames := frames + [b];
        }
      }
    }
  }

  lemma FramesUnfold(rest: Bytes, limit: nat, before: seq<Bytes>)
    ensures match Frame(rest, limit)
            case Err(x) => (before + Frames(rest, limit).0, Frames(rest, limit).1) == (before, x)
            case Ok(b) =>
              && |AfterFrame(rest, limit)| < |rest|
              && before + Frames(rest, limit).0 == before + [b] + Frames(AfterFrame(rest, limit), limit).0
              && Frames(rest, limit).1 == Frames(AfterFrame(rest, limit), limit).1
  {
    hide Frame, AfterFrame;
    assert before + [] == before;
    var r := Frame(rest, limit);
    if r.Ok? {
      var tail := Frames(AfterFrame(rest, limit), limit).0;
      assert before + ([r.value] + tail) == before + [r.value] + tail;
    }
  }

  function Join(pieces: seq<Bytes>): Bytes {
    if pieces == [] then [] else pieces[0] + Join(pieces[1..])
  }

  /** A connection as a writer meets it: it breaks after `room` more bytes. */
  class Writer {
    var out: Bytes
    var room: nat

    constructor (room: nat)
      ensures out == [] && this.room == room
    {
      out := [];
      this.room := room;
    }

    method Write(b: Bytes) returns (ok: bool)
      modifies this
      ensures ok <==> |b| <= old(room)
      ensures ok ==> out == old(out) + b && room == old(room) - |b|
      ensures !ok ==> out == old(out) + b[..old(room)] && room == 0
    {
      ok := |b| <= room;
      if ok {
        out := out + b;
        room := room - |b|;
      } else {
        out := out + b[..room];
        room := 0;
      }
    }

    /** A refused payload writes nothing; a broken connection gets a proper prefix of the frame. */
    method WriteFrame(data: Bytes, limit: nat) returns (r: Result<(), StreamError>)
      requires limit < 0x1_0000_0000
      modifies this
      ensures r == if !Payload(data, limit) then Err(FrameTooLarge)
                   else if 4 + |data| > old(room) then Err(WriteFailed) else Ok(())
      ensures r.Ok? ==> out == old(out) + Encode(data) && room == old(room) - |Encode(data)|
      ensures r == Err(FrameTooLarge) ==> out == old(out) && room == old(room)
      ensures r == Err(WriteFailed) ==> old(room) < |Encode(data)| && out == old(out) + Encode(data)[..old(room)] && room == 0
    {
      if |data| == 0 || |data| > limit {
        return Err(FrameTooLarge);
      }
      ghost var was := out;
      var ok := Write(Header(|data|));
      if ok {
        ok := Write(data);
      }
      if !ok {
        assert out == was + Encode(data)[..old(room)];
        return Err(WriteFailed);
      }
      assert out == was + Encode(data);
      return Ok(());
    }
  }

  /** Frames read until the first error, and that error. */
  function Frames(rest: Bytes, limit: nat): (seq<Bytes>, StreamError)
    decreases |rest|
  {
    match Frame(rest, limit)
    case Err(x) => ([], x)
    case Ok(b) => var tail := Frames(AfterFrame(rest, limit), limit); ([b] + tail.0, tail.1)
  }

  ghost predicate Payloads(ps: seq<Bytes>, limit: nat) {
    forall i :: 0 <= i < |ps| ==> Payload(ps[i], limit)
  }

  function Stream(ps: seq<Bytes>): Bytes
    requires forall i :: 0 <= i < |ps| ==> |ps[i]| < 0x1_0000_0000
  {
    if ps == [] then [] else Encode(ps[0]) + Stream(ps[1..])
  }

  /** A frame at the head of any input is read back, and nothing behind it is touched. */
  lemma FrameRoundTrip(data: Bytes, rest: Bytes, limit: nat)
    requires Payload(data, limit) && limit < 0x1_0000_0000
    ensures Frame(Encode(data) + rest, limit) == Ok(data)
    ensures AfterFrame(Encode(data) + rest, limit) == rest
  {
    var all := Encode(data) + rest;
    HeaderRoundTrip(|data|);
    hide Header, Number;
    assert all[..4] == Header(|data|);
    assert all[4..] == data + rest;
  }

  /** On arbitrary bytes, a frame that is read is the encoding that was there. */
  lemma FrameIsCanonical(rest: Bytes, limit: nat)
    requires AllBytes(rest) && limit < 0x1_0000_0000 && Frame(rest, limit).Ok?
    ensures var data := Frame(rest, limit).value;
            Payload(data, limit) && rest == Encode(data) + AfterFrame(rest, limit)
  {
    NumberRoundTrip(rest[..4]);
  }

  /** The same for everything that is read: the frames are what stands at the head of the input. */
  lemma {:induction false} FramesAreCanonical(rest: Bytes, limit: nat)
    requires AllBytes(rest) && limit < 0x1_0000_0000
    ensures Payloads(Frames(rest, limit).0, limit) && Stream(Frames(rest, limit).0) <= rest
    decreases |rest|
  {
    hide Header, Number, Frame, AfterFrame;
    if Frame(rest, limit).Ok? {
      FrameIsCanonical(rest, limit);
      var after := AfterFrame(rest, limit);
      assert forall i :: 0 <= i < |after| ==> after[i] == rest[|rest| - |after| + i];
      FramesAreCanonical(after, limit);
    }
  }

  /** What a reader can tell about input that stops within a frame: nothing when not a single byte of
      the header, or of the body, arrived. */
  function CutEnd(k: nat): StreamError {
    if k == 0 || k == 4 then EndOfInput else UnexpectedEnd
  }

  lemma CutFrame(data: Bytes, k: nat, limit: nat)
    requires Payload(data, limit) && limit < 0x1_0000_0000 && k < |Encode(data)|
    ensures Frame(Encode(data)[..k], limit) == Err(CutEnd(k))
  {
    var cut := Encode(data)[..k];
    HeaderRoundTrip(|data|);
    hide Header, Number;
    if k >= 4 {
      assert cut[..4] == Header(|data|);
      assert cut[4..] == data[..k - 4];
    }
  }

  /** How many whole frames fit into the first k bytes of a stream, and what is left over. */
  function Whole(ps: seq<Bytes>, k: nat): (r: (nat, nat))
    requires forall i :: 0 <= i < |ps| ==> |ps[i]| < 0x1_0000_0000
    ensures r.0 <= |ps| && r.1 <= k
    ensures k == |Stream(ps[..r.0])| + r.1
    ensures k <= |Stream(ps)| && r.0 < |ps| ==> r.1 < |Encode(ps[r.0])|
    ensures k <= |Stream(ps)| && r.0 == |ps| ==> r.1 == 0
  {
    if ps == [] || k < |Encode(ps[0])| then (0, k)
    else
      var r := Whole(ps[1..], k - |Encode(ps[0])|);
      assert ps[..r.0 + 1][1..] == ps[1..][..r.0];
      (r.0 + 1, r.1)
  }

  /** Every truncation of a written stream gives back exactly the frames it holds whole, then an error:
      a plain end of input exactly when the cut is at a frame boundary or right behind a header. */
  lemma {:induction false} TruncationIsPrefix(ps: seq<Bytes>, limit: nat, k: nat)
    requires Payloads(ps, limit) && limit < 0x1_0000_0000 && k <= |Stream(ps)|
    ensures var w := Whole(ps, k);
            Frames(Stream(ps)[..k], limit) == (ps[..w.0], CutEnd(w.1))
  {
    hide Encode, Frame, AfterFrame;
    if ps == [] {
      EmptyInput(limit);
    } else if k < |Encode(ps[0])| {
      assert Stream(ps)[..k] == Encode(ps[0])[..k];
      CutFrame(ps[0], k, limit);
    } else {
      var m := |Encode(ps[0])|;
      var tail := Stream(ps[1..])[..k - m];
      assert Stream(ps)[..k] == Encode(ps[0]) + tail;
      FrameRoundTrip(ps[0], tail, limit);
      TruncationIsPrefix(ps[1..], limit, k - m);
      var w := Whole(ps[1..], k - m);
      assert [ps[0]] + ps[1..][..w.0] == ps[..w.0 + 1];
    }
  }

  lemma EmptyInput(limit: nat)
    ensures Frame([], limit) == Err(EndOfInput)
  {}

  /** Writing any list of payloads and reading until end of input returns the list. */
  lemma StreamRoundTrip(ps: seq<Bytes>, limit: nat)
    requires Payloads(ps, limit) && limit < 0x1_0000_0000
    ensures Frames(Stream(ps), limit) == (ps, EndOfInput)
  {
    TruncationIsPrefix(ps, limit, |Stream(ps)|);
    assert Stream(ps)[..|Stream(ps)|] == Stream(ps);
    var w := Whole(ps, |Stream(ps)|);
    StreamGrows(ps, w.0);
    assert ps[..|ps|] == ps;
  }

  lemma {:induction false} StreamGrows(ps: seq<Bytes>, n: nat)
    requires n <= |ps| && forall i :: 0 <= i < |ps| ==> |ps[i]| < 0x1_0000_0000
    ensures |Stream(ps[..n])| <= |Stream(ps)|
    ensures n < |ps| ==> |Stream(ps[..n])| + |Encode(ps[n])| <= |Stream(ps)|
  {
    if n > 0 {
      StreamGrows(ps[1..], n - 1);
      assert ps[..n][1..] == ps[1..][..n - 1];
    }
  }
}
