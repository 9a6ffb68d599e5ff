/** Frames on a byte stream: a big-endian length, then the body. */
module FrameStream {
  import opened Text
  import Frames

  const MAX_FRAME_BYTES := 64 * 1024 * 1024

  datatype Error = UnexpectedEof | ZeroLength | FrameTooLarge(size: nat) | NotSerializable | BadJson

  datatype Result<+T> = Ok(value: T) | Err(error: Error)

  /** JSON text: how an object's fields are printed, and how text is parsed. */
  datatype Codec = Codec(render: seq<Frames.Field> -> seq<Byte>, parse: seq<Byte> -> Option<seq<Frames.Field>>)

  // ----- lengths -----

  function WriteU32(n: Frames.U32): seq<Byte> {
    [n / 0x100_0000, n / 0x1_0000 % 0x100, n / 0x100 % 0x100, n % 0x100]
  }

  function ReadU32(b: seq<Byte>): (n: nat)
    requires |b| == 4
    ensures n < 0x1_0000_0000
  {
    var b0: int, b1: int, b2: int, b3: int := b[0], b[1], b[2], b[3];
    b0 * 0x100_0000 + b1 * 0x1_0000 + b2 * 0x100 + b3
  }

  lemma LengthReadsBack(n: Frames.U32)
    ensures ReadU32(WriteU32(n)) == n
    ensures var b := WriteU32(n);
      |b| == 4 && n == (b[0] as int) * 0x100_0000 + (b[1] as int) * 0x1_0000 + (b[2] as int) * 0x100 + b[3] as int
  {
    var b0, b1, b2, b3 := n / 0x100_0000, n / 0x1_0000 % 0x100, n / 0x100 % 0x100, n % 0x100;
    assert n / 0x100 == n / 0x1_0000 * 0x100 + b2;
    assert n / 0x1_0000 == b0 * 0x100 + b1;
  }

  // ----- one frame -----

  function Body(c: Codec, f: Frames.Frame): Option<seq<Byte>> {
    if Frames.Wire(f).None? then None else Some(c.render(Frames.Wire(f).value))
  }

  /** The error a frame is refused with, if it is. */
  function Refusal(c: Codec, f: Frames.Frame): Option<Error> {
    if Body(c, f).None? then Some(NotSerializable)
    else if |Body(c, f).value| > MAX_FRAME_BYTES then Some(FrameTooLarge(|Body(c, f).value|))
    else None
  }

  function FrameBytes(c: Codec, f: Frames.Frame): seq<Byte>
    requires Refusal(c, f).None?
  {
    WriteU32(|Body(c, f).value|) + Body(c, f).value
  }

  /** What is read from the front of `input`, and what is left. */
  function ReadFrame(c: Codec, input: seq<Byte>): (r: (Result<Frames.Frame>, seq<Byte>))
    ensures r.0.Ok? ==> |r.1| < |input|
  {
    if |input| < 4 then (Err(UnexpectedEof), [])
    else
      var len, rest := ReadU32(input[..4]), input[4..];
      if len == 0 then (Err(ZeroLength), rest)
      else if len > MAX_FRAME_BYTES then (Err(FrameTooLarge(len)), rest)
      else if |rest| < len then (Err(UnexpectedEof), [])
      else
        var fields := c.parse(rest[..len]);
        var f := if fields.None? then None else Frames.Dispatch(fields.value);
        (if f.None? then Err(BadJson) else Ok(f.value), rest[len..])
  }

  /** A byte stream: written at the end, read from the front. */
  class Pipe {
    var bytes: seq<Byte>

    constructor ()
      ensures bytes == []
    {
      bytes := [];
    }

    method WriteFrameSync(c: Codec, f: Frames.Frame) returns (r: Result<()>)
      modifies this
      ensures r == if Refusal(c, f).None? then Ok(()) else Err(Refusal(c, f).value)
      ensures bytes == if Refusal(c, f).None? then old(bytes) + FrameBytes(c, f) else old(bytes)
    {
      if Frames.Wire(f).None? { return Err(NotSerializable); }
      var body := c.render(Frames.Wire(f).value);
      if |body| > MAX_FRAME_BYTES { return Err(FrameTooLarge(|body|)); }
      bytes := bytes + WriteU32(|body|);
      bytes := bytes + body;
      return Ok(());
    }

    /** `read_exact`: all of `n` bytes, or an error once the stream has run dry. */
    method ReadExact(n: nat) returns (buf: Option<seq<Byte>>)
      modifies this
      ensures buf == if n <= |old(bytes)| then Some(old(bytes)[..n]) else None
      ensures bytes == if n <= |old(bytes)| then old(bytes)[n..] else []
    {
      if n <= |bytes| {
        buf, bytes := Some(bytes[..n]), bytes[n..];
      } else {
        buf, bytes := None, [];
      }
    }

    method ReadFrameSync(c: Codec) returns (r: Result<Frames.Frame>)
      modifies this
      ensures (r, bytes) == ReadFrame(c, old(bytes))
    {
      var header := ReadExact(4);
      if header.None? { return Err(UnexpectedEof); }
      var len := ReadU32(header.value);
      if len == 0 { return Err(ZeroLength); }
      if len > MAX_FRAME_BYTES { return Err(FrameTooLarge(len)); }
      var buf := ReadExact(len);
      if buf.None? { return Err(UnexpectedEof); }
      var fields := c.parse(buf.value);
      if fields.None? || Frames.Dispatch(fields.value).None? { return Err(BadJson); }
      return Ok(Frames.Dispatch(fields.value).value);
    }
  }

  // ----- a run of frames -----

  /** A frame that can be sent and recognised: legal size, text that parses back to
      the fields it was printed from, and no earlier variant hiding in it. */
  predicate Sendable(c: Codec, f: Frames.Frame) {
    && Frames.Proper(f) && Frames.Distinguishable(f) && Refusal(c, f).None?
    && Body(c, f).value != [] && c.parse(Body(c, f).value) == Frames.Wire(f)
  }

  predicate AllSendable(c: Codec, fs: seq<Frames.Frame>) {
    forall i :: 0 <= i < |fs| ==> Sendable(c, fs[i])
  }

  /** Frames written back to back. */
  function Stream(c: Codec, fs: seq<Frames.Frame>): seq<Byte>
    requires AllSendable(c, fs)
  {
    if fs == [] then [] else FrameBytes(c, fs[0]) + Stream(c, fs[1..])
  }

  /** Read frames until an error. */
  function ReadAll(c: Codec, input: seq<Byte>): (seq<Frames.Frame>, Error)
    decreases |input|
  {
    var (r, rest) := ReadFrame(c, input);
    if r.Err? then ([], r.error)
    else
      var (fs, e) := ReadAll(c, rest);
      ([r.value] + fs, e)
  }

  /** How many frames lie wholly in the first `k` bytes. */
  function Whole(c: Codec, fs: seq<Frames.Frame>, k: nat): (n: nat)
    requires AllSendable(c, fs)
    ensures n <= |fs|
  {
    if fs == [] || k < |FrameBytes(c, fs[0])| then 0 else 1 + Whole(c, fs[1..], k - |FrameBytes(c, fs[0])|)
  }

  lemma FrameReadsBack(c: Codec, f: Frames.Frame, rest: seq<Byte>)
    requires Sendable(c, f)
    ensures ReadFrame(c, FrameBytes(c, f) + rest) == (Ok(f), rest)
  {
    var body := Body(c, f).value;
    var input := FrameBytes(c, f) + rest;
    assert input[..4] == WriteU32(|body|);
    LengthReadsBack(|body|);
    assert input[4..] == body + rest;
    assert (body + rest)[..|body|] == body && (body + rest)[|body|..] == rest;
    Frames.RecoveredExactlyWhenDistinguishable(f);
  }

  lemma CutFrameIsEof(c: Codec, f: Frames.Frame, k: nat)
    requires Sendable(c, f) && k < |FrameBytes(c, f)|
    ensures ReadFrame(c, FrameBytes(c, f)[..k]) == (Err(UnexpectedEof), [])
  {
    var body := Body(c, f).value;
    if k >= 4 {
      assert FrameBytes(c, f)[..k][..4] == WriteU32(|body|);
      LengthReadsBack(|body|);
    }
  }

  lemma NothingToRead(c: Codec)
    ensures ReadAll(c, []) == ([], UnexpectedEof)
  {
  }

  /** Frames written back to back and cut off anywhere are read as exactly those that
      were written whole, in order, and then the end of the stream is reported. */
  lemma {:induction false} CutStreamReadsWholeFrames(c: Codec, fs: seq<Frames.Frame>, k: nat)
    requires AllSendable(c, fs) && k <= |Stream(c, fs)|
    ensures ReadAll(c, Stream(c, fs)[..k]) == (fs[..Whole(c, fs, k)], UnexpectedEof)
  {
    hide ReadFrame, FrameBytes;
    NothingToRead(c);
    if fs != [] {
      var first, rest := FrameBytes(c, fs[0]), Stream(c, fs[1..]);
      if k < |first| {
        assert Stream(c, fs)[..k] == first[..k];
        CutFrameIsEof(c, fs[0], k);
      } else {
        var n := k - |first|;
        assert Stream(c, fs)[..k] == first + rest[..n];
        FrameReadsBack(c, fs[0], rest[..n]);
        CutStreamReadsWholeFrames(c, fs[1..], n);
        var w := Whole(c, fs[1..], n);
        assert fs[..w + 1] == [fs[0]] + fs[1..][..w];
      }
    }
  }

  lemma {:induction false} WholeStream(c: Codec, fs: seq<Frames.Frame>)
    requires AllSendable(c, fs)
    ensures Whole(c, fs, |Stream(c, fs)|) == |fs|
  {
    if fs != [] { WholeStream(c, fs[1..]); }
  }

  /** Any run of frames is read back as the same run. */
  lemma StreamReadsBack(c: Codec, fs: seq<Frames.Frame>)
    requires AllSendable(c, fs)
    ensures ReadAll(c, Stream(c, fs)) == (fs, UnexpectedEof)
  {
    var s := Stream(c, fs);
    WholeStream(c, fs);
    CutStreamReadsWholeFrames(c, fs, |s|);
    assert s[..|s|] == s && fs[..|fs|] == fs;
  }

  /** A reader's limit never refuses what a writer let through, and what a writer
      refuses would have been refused. */
  lemma LimitsAgree(c: Codec, f: Frames.Frame, rest: seq<Byte>)
    requires Body(c, f).Some? && 0 < |Body(c, f).value| < 0x1_0000_0000
    ensures ReadFrame(c, WriteU32(|Body(c, f).value|) + Body(c, f).value + rest).0 == Err(FrameTooLarge(|Body(c, f).value|))
      <==> Refusal(c, f) == Some(FrameTooLarge(|Body(c, f).value|))
  {
    var body := Body(c, f).value;
    var input := WriteU32(|body|) + body + rest;
    assert input[..4] == WriteU32(|body|);
    LengthReadsBack(|body|);
  }

  /** What a reader answers to a header and what stands behind it, and where the next
      read begins. Neither an empty frame nor one whose body is no frame takes the
      reader out of step; one that is too large does, as its body is left to be read as
      headers. */
  lemma HeaderDecides(c: Codec, n: Frames.U32, behind: seq<Byte>)
    ensures var (r, rest) := ReadFrame(c, WriteU32(n) + behind);
      if n == 0 then r == Err(ZeroLength) && rest == behind
      else if n > 64 * 1024 * 1024 then r == Err(FrameTooLarge(n)) && rest == behind
      else if |behind| < n then r == Err(UnexpectedEof) && rest == []
      else
        && rest == behind[n..]
        && (r.Ok? <==> c.parse(behind[..n]).Some? && Frames.Dispatch(c.parse(behind[..n]).value).Some?)
        && (r.Err? ==> r == Err(BadJson))
        && (r.Ok? ==> Frames.Dispatch(c.parse(behind[..n]).value) == Some(r.value))
  {
    var input := WriteU32(n) + behind;
    LengthReadsBack(n);
    assert input[..4] == WriteU32(n) && input[4..] == behind;
  }

  /** A stream that ends inside a header says so. */
  lemma ShortHeader(c: Codec, input: seq<Byte>)
    requires |input| < 4
    ensures ReadFrame(c, input) == (Err(UnexpectedEof), [])
  {
  }

  /** A frame that is no frame does not keep those behind it from being read. */
  lemma BadFrameIsSkipped(c: Codec, body: seq<Byte>, fs: seq<Frames.Frame>)
    requires 0 < |body| <= MAX_FRAME_BYTES && AllSendable(c, fs)
    requires c.parse(body).None? || Frames.Dispatch(c.parse(body).value).None?
    ensures var (r, rest) := ReadFrame(c, WriteU32(|body|) + (body + Stream(c, fs)));
      r == Err(BadJson) && ReadAll(c, rest) == (fs, UnexpectedEof)
  {
    var behind := body + Stream(c, fs);
    HeaderDecides(c, |body|, behind);
    assert behind[..|body|] == body && behind[|body|..] == Stream(c, fs);
    StreamReadsBack(c, fs);
  }
}
