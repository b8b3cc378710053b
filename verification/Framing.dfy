/** Length-prefixed frames over a byte stream (`codec.rs`). */
module Framing {
  import opened Bytes

  const MAX_FRAME: nat := 100 * 1024 * 1024

  /** One call of the decoder: a frame and what follows it, a wait for more bytes, or an error. */
  datatype Outcome = Frame(payload: bytes, rest: bytes) | Wait | Fail

  function Decode(src: bytes): Outcome {
    if |src| < 4 then Wait
    else
      var n: int := GetI32(src[..4]);
      if n < 0 || n > MAX_FRAME then Fail
      else if |src| < 4 + n then Wait
      else Frame(src[4..4 + n], src[4 + n..])
  }

  function Encode(payload: bytes): bytes { PutI32(WrapI32(|payload|)) + payload }

  function EncodeAll(frames: seq<bytes>): bytes {
    if frames == [] then [] else Encode(frames[0]) + EncodeAll(frames[1..])
  }

  /** Frames delivered, bytes still buffered, and whether the decoder has failed. */
  datatype Progress = Progress(frames: seq<bytes>, rest: bytes, failed: bool)

  /** Decoding one buffer until it waits or fails. */
  function Drain(src: bytes): Progress
    decreases |src|
  {
    match Decode(src)
    case Wait => Progress([], src, false)
    case Fail => Progress([], src, true)
    case Frame(payload, rest) =>
      var p := Drain(rest);
      p.(frames := [payload] + p.frames)
  }

  /** A chunk arrives: it is buffered and decoded. A failed decoder reads no more. */
  function Receive(p: Progress, chunk: bytes): Progress {
    if p.failed then p
    else
      var q := Drain(p.rest + chunk);
      q.(frames := p.frames + q.frames)
  }

  function ReceiveAll(chunks: seq<bytes>): Progress {
    if chunks == [] then Progress([], [], false)
    else Receive(ReceiveAll(chunks[..|chunks| - 1]), chunks[|chunks| - 1])
  }

  function Concat(chunks: seq<bytes>): bytes {
    if chunks == [] then [] else Concat(chunks[..|chunks| - 1]) + chunks[|chunks| - 1]
  }

  class KafkaFrameCodec {
    var src: bytes
    var failed: bool

    constructor ()
      ensures src == [] && !failed
    {
      src, failed := [], false;
    }

    method DecodeFrame() returns (r: Result<Option<bytes>>)
      modifies this`src
      ensures match Decode(old(src))
              case Wait => r == Ok(None) && src == old(src)
              case Fail => r.Err? && src == old(src)
              case Frame(payload, rest) => r == Ok(Some(payload)) && src == rest
    {
      if |src| < 4 { return Ok(None); }
      var frameLen: int := GetI32(src[..4]);
      if frameLen < 0 { return Err("Negative frame length"); }
      if frameLen > MAX_FRAME { return Err("Frame length exceeds maximum"); }
      var totalLen := 4 + frameLen;
      if |src| < totalLen { return Ok(None); }
      assert src[4..][..frameLen] == src[4..totalLen] && src[4..][frameLen..] == src[totalLen..];
      src := src[4..];
      var frame := src[..frameLen];
      src := src[frameLen..];
      return Ok(Some(frame));
    }

    /** The read loop around the decoder. */
    method ReceiveChunk(chunk: bytes) returns (frames: seq<bytes>)
      modifies this
      ensures Progress(frames, src, failed) == Receive(Progress([], old(src), old(failed)), chunk)
    {
      frames := [];
      if failed { return; }
      src := src + chunk;
      ghost var all := Drain(src);
      var waiting := false;
      while !waiting && !failed
        invariant var d := Drain(src);
                  !waiting && !failed ==> all == Progress(frames + d.frames, d.rest, d.failed)
        invariant waiting || failed ==> all == Progress(frames, src, failed)
        decreases if waiting || failed then 0 else 1, |src|
      {
        ghost var before, got := src, frames;
        var r := DecodeFrame();
        if r.Err? {
          failed := true;
          assert got + [] == got;
        } else if r.value.None? {
          waiting := true;
          assert got + [] == got;
        } else {
          frames := frames + [r.value.value];
          assert got + ([r.value.value] + Drain(src).frames) == frames + Drain(src).frames;
        }
      }
      assert [] + frames == frames;
    }
  }

  /** The writer, appending to a buffer. */
  method EncodeFrame(dst: bytes, payload: bytes) returns (out: bytes)
    ensures out == dst + Encode(payload)
  {
    out := dst + PutI32(WrapI32(|payload|));
    out := out + payload;
  }

  // ---------- chunking does not matter ----------

  lemma DecodeMore(a: bytes, b: bytes)
    ensures match Decode(a)
            case Wait => true
            case Fail => Decode(a + b) == Fail
            case Frame(payload, rest) => Decode(a + b) == Frame(payload, rest + b)
  {
    hide GetI32;
    if |a| >= 4 {
      assert (a + b)[..4] == a[..4];
      var n: int := GetI32(a[..4]);
      if 0 <= n <= MAX_FRAME && |a| >= 4 + n {
        assert (a + b)[4..4 + n] == a[4..4 + n] && (a + b)[4 + n..] == a[4 + n..] + b;
      }
    }
  }

  lemma DrainStep(a: bytes)
    ensures match Decode(a)
            case Wait => Drain(a) == Progress([], a, false)
            case Fail => Drain(a) == Progress([], a, true)
            case Frame(payload, rest) =>
              |rest| < |a| && Drain(a) == Drain(rest).(frames := [payload] + Drain(rest).frames)
  {
  }

  /** Draining what is there and then the rest is draining it all. */
  lemma {:induction false} DrainMore(a: bytes, b: bytes)
    ensures var p := Drain(a);
            Drain(a + b) == if p.failed then p.(rest := p.rest + b) else Receive(p, b)
    decreases |a|
  {
    hide Decode, Drain;
    DecodeMore(a, b);
    DrainStep(a);
    DrainStep(a + b);
    match Decode(a)
    case Frame(payload, rest) =>
      DrainMore(rest, b);
      ReceiveAfter(payload, Drain(rest), b);
    case Wait =>
      assert [] + Drain(a + b).frames == Drain(a + b).frames;
    case Fail =>
  }

  lemma ReceiveAfter(payload: bytes, p: Progress, b: bytes)
    ensures !p.failed ==>
              Receive(p.(frames := [payload] + p.frames), b)
              == Receive(p, b).(frames := [payload] + Receive(p, b).frames)
  {
    hide Drain;
    var q := Drain(p.rest + b);
    assert [payload] + (p.frames + q.frames) == [payload] + p.frames + q.frames;
  }

  /**
   * Whatever the stream holds and however it is cut, the frames delivered and whether decoding fails are those of the
   * whole stream; without failure so is the buffered rest.
   */
  lemma {:induction false} ChunkingIndependence(chunks: seq<bytes>)
    ensures var p, q := ReceiveAll(chunks), Drain(Concat(chunks));
            p.frames == q.frames && p.failed == q.failed && (!p.failed ==> p.rest == q.rest)
  {
    if chunks != [] {
      var front, last := chunks[..|chunks| - 1], chunks[|chunks| - 1];
      ChunkingIndependence(front);
      DrainMore(Concat(front), last);
    } else {
      assert Drain([]) == Progress([], [], false);
    }
  }

  // ---------- round trip ----------

  /** A frame comes back, whatever follows it, exactly when it is within the size limit. */
  lemma DecodeOfEncode(payload: bytes, t: bytes)
    ensures Decode(Encode(payload) + t) == Frame(payload, t) <==> |payload| <= MAX_FRAME
  {
    hide GetI32, PutI32, WrapI32;
    WrapI32Smaller(|payload|);
    var n := WrapI32(|payload|);
    var s := Encode(payload) + t;
    assert s[..4] == PutI32(n);
    if |payload| <= MAX_FRAME {
      assert s[4..4 + n] == payload && s[4 + n..] == t;
    } else {
      LongFrame(s, payload);
    }
  }

  lemma LongFrame(s: bytes, payload: bytes)
    requires |payload| > MAX_FRAME
    ensures Decode(s).Frame? ==> Decode(s).payload != payload
  {
    hide GetI32;
  }

  lemma {:induction false} DrainOfEncodeAll(frames: seq<bytes>, t: bytes)
    requires forall f :: f in frames ==> |f| <= MAX_FRAME
    ensures Drain(EncodeAll(frames) + t) == Progress(frames + Drain(t).frames, Drain(t).rest, Drain(t).failed)
  {
    hide Decode, Encode;
    if frames == [] {
      assert EncodeAll(frames) + t == t && frames + Drain(t).frames == Drain(t).frames;
    } else {
      var f, rest := frames[0], EncodeAll(frames[1..]) + t;
      assert Encode(f) + EncodeAll(frames[1..]) + t == Encode(f) + rest;
      DecodeOfEncode(f, rest);
      DrainOfEncodeAll(frames[1..], t);
      assert frames + Drain(t).frames == [f] + (frames[1..] + Drain(t).frames);
    }
  }

  /** Every list of frames within the limit, cut anywhere, arrives as that list; an incomplete tail stays buffered. */
  lemma FramesArrive(frames: seq<bytes>, tail: bytes, chunks: seq<bytes>)
    requires forall f :: f in frames ==> |f| <= MAX_FRAME
    requires Concat(chunks) == EncodeAll(frames) + tail && Decode(tail) == Wait
    ensures ReceiveAll(chunks) == Progress(frames, tail, false)
  {
    hide Decode, EncodeAll, ReceiveAll, Concat;
    ChunkingIndependence(chunks);
    DrainOfEncodeAll(frames, tail);
  }
}
