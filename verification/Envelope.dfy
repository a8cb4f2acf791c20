/** `parse_opus_envelope` in protocol.py, and the encoding that it inverts. */
module Envelope {
  import opened Prelude

  type Byte = b: nat | b < 256
  type Bytes = seq<Byte>

  datatype Packet = Packet(channels: int, samples: nat)

  /** The packet inspector: any function to a packet's sample count and channels, or an error code. */
  type Inspect = Bytes -> Result<Packet, string>

  datatype ParseLimits = ParseLimits(maxBody: int, maxFrame: int, maxFrames: int, maxSamples: int)

  datatype Parsed = Parsed(frames: seq<Bytes>, totalSamples: nat, preroll: int)

  // ---------------------------------------------------------------- the encoding

  /** `int.from_bytes(..., byteorder="big")` of two bytes. */
  function FrameLength(high: Byte, low: Byte): nat { 256 * high + low }

  function EncodeLength(n: nat): Bytes
    requires n < 65536
  {
    [n / 256, n % 256]
  }

  ghost predicate Encodable(frames: seq<Bytes>) {
    forall i :: 0 <= i < |frames| ==> |frames[i]| < 65536
  }

  /** Each frame behind its length in two bytes. */
  ghost function Encode(frames: seq<Bytes>): Bytes
    requires Encodable(frames)
  {
    if frames == [] then [] else EncodeLength(|frames[0]|) + frames[0] + Encode(frames[1..])
  }

  function SamplesIn(inspect: Inspect, frame: Bytes): nat {
    if inspect(frame).Ok? then inspect(frame).value.samples else 0
  }

  function SampleSum(inspect: Inspect, frames: seq<Bytes>): nat {
    if frames == [] then 0
    else SampleSum(inspect, frames[..|frames| - 1]) + SamplesIn(inspect, frames[|frames| - 1])
  }

  ghost predicate FrameWithinLimits(limits: ParseLimits, inspect: Inspect, frame: Bytes) {
    && 0 < |frame| <= limits.maxFrame && |frame| < 65536
    && inspect(frame).Ok? && inspect(frame).value.channels == 1
  }

  /** The frames that may be sent: none empty, none too long, each mono, within the totals. */
  ghost predicate WithinLimits(limits: ParseLimits, inspect: Inspect, frames: seq<Bytes>) {
    && (frames != [] ==> |frames| <= limits.maxFrames && SampleSum(inspect, frames) <= limits.maxSamples)
    && forall i :: 0 <= i < |frames| ==> FrameWithinLimits(limits, inspect, frames[i])
  }

  /** A whole number of 16 kHz samples, counted at 48 kHz. */
  predicate WholePreroll(preroll: int) { preroll >= 0 && preroll % 3 == 0 }

  /** The body is the encoding of the parsed frames, which are within the limits and add up to the
      total, and the pre-roll is a whole number of 16 kHz samples inside the first frame. */
  ghost predicate Accepts(body: Bytes, preroll: int, limits: ParseLimits, inspect: Inspect, p: Parsed) {
    && p.frames != [] && |body| <= limits.maxBody
    && WithinLimits(limits, inspect, p.frames) && Encode(p.frames) == body
    && p.totalSamples == SampleSum(inspect, p.frames)
    && p.preroll == preroll && WholePreroll(preroll) && preroll <= SamplesIn(inspect, p.frames[0])
  }

  // ---------------------------------------------------------------- decoding is determined

  lemma {:induction false} EncodeAppend(frames: seq<Bytes>, frame: Bytes)
    requires Encodable(frames) && |frame| < 65536
    ensures Encode(frames + [frame]) == Encode(frames) + EncodeLength(|frame|) + frame
  {
    if frames == [] {
      assert Encode([frame]) == EncodeLength(|frame|) + frame + [];
      assert frames + [frame] == [frame];
    } else {
      assert (frames + [frame])[1..] == frames[1..] + [frame];
      EncodeAppend(frames[1..], frame);
    }
  }

  lemma EncodedHead(frames: seq<Bytes>)
    requires Encodable(frames) && frames != []
    ensures var bytes, n := Encode(frames), |frames[0]|;
      && |bytes| >= 2 + n && FrameLength(bytes[0], bytes[1]) == n
      && bytes[2..2 + n] == frames[0] && bytes[2 + n..] == Encode(frames[1..])
  {
  }

  lemma EncodesToNothing(frames: seq<Bytes>)
    requires Encodable(frames)
    ensures Encode(frames) == [] <==> frames == []
  {
  }

  /** If the bytes read so far encode some frames, every decoding of the body starts with them. */
  lemma {:induction false} ReadFramesAreAPrefix(read: seq<Bytes>, all: seq<Bytes>, offset: nat)
    requires Encodable(read) && Encodable(all)
    requires offset <= |Encode(all)| && Encode(read) == Encode(all)[..offset]
    ensures read <= all && Encode(all)[offset..] == Encode(all[|read|..])
  {
    if read == [] {
      assert all[0..] == all;
    } else {
      var bytes, n := Encode(all), |read[0]|;
      var start := bytes[..offset];
      EncodedHead(read);
      EncodesToNothing(all);
      EncodedHead(all);
      assert start[0] == bytes[0] && start[1] == bytes[1];
      assert start[2..2 + n] == bytes[2..2 + n];
      assert start[2 + n..] == bytes[2 + n..][..offset - 2 - n];
      ReadFramesAreAPrefix(read[1..], all[1..], offset - 2 - n);
      assert bytes[offset..] == bytes[2 + n..][offset - 2 - n..];
      assert all[1..][|read| - 1..] == all[|read|..];
    }
  }

  lemma {:induction false} SampleSumGrows(inspect: Inspect, frames: seq<Bytes>, n: nat)
    requires n <= |frames|
    ensures SampleSum(inspect, frames[..n]) <= SampleSum(inspect, frames)
    decreases |frames|
  {
    if n < |frames| {
      SampleSumGrows(inspect, frames[..|frames| - 1], n);
      assert frames[..|frames| - 1][..n] == frames[..n];
    } else {
      assert frames[..n] == frames;
    }
  }

  /** What must stand at `offset` for the body to be acceptable at all. */
  ghost predicate FrameAt(body: Bytes, offset: nat, limits: ParseLimits, inspect: Inspect, frames: seq<Bytes>) {
    && offset + 2 <= |body|
    && var n := FrameLength(body[offset], body[offset + 1]);
       && offset + 2 + n <= |body| && |frames| < limits.maxFrames
       && FrameWithinLimits(limits, inspect, body[offset + 2..offset + 2 + n])
       && SampleSum(inspect, frames) + SamplesIn(inspect, body[offset + 2..offset + 2 + n]) <= limits.maxSamples
  }

  /** The first thing wrong with what stands at `offset`, after these frames. */
  function FrameFault(body: Bytes, offset: nat, limits: ParseLimits, inspect: Inspect, frames: seq<Bytes>): Option<string>
    requires offset <= |body|
  {
    if |body| - offset < 2 then Some("truncated_frame_length")
    else
      var n := FrameLength(body[offset], body[offset + 1]);
      if n == 0 then Some("empty_frame")
      else if n > limits.maxFrame then Some("frame_too_large")
      else if |frames| >= limits.maxFrames then Some("too_many_frames")
      else if |body| - offset - 2 < n then Some("truncated_frame")
      else
        var packet := inspect(body[offset + 2..offset + 2 + n]);
        if packet.Err? then Some(packet.error)
        else if packet.value.channels != 1 then Some("stereo_not_supported")
        else if SampleSum(inspect, frames) + packet.value.samples > limits.maxSamples then Some("duration_too_long")
        else None
  }

  /** Reading stops with this error behind these frames, each of which is acceptable. */
  ghost predicate StopsBehind(body: Bytes, preroll: int, limits: ParseLimits, inspect: Inspect, frames: seq<Bytes>, error: string) {
    && WithinLimits(limits, inspect, frames) && Encode(frames) <= body
    && if |Encode(frames)| < |body| then FrameFault(body, |Encode(frames)|, limits, inspect, frames) == Some(error)
       else error == "invalid_preroll" && frames != [] && preroll > SamplesIn(inspect, frames[0])
  }

  /** The error names the first thing that is wrong: with the body as a whole, with the pre-roll, or
      with what follows the acceptable frames at its front. */
  ghost predicate Explains(body: Bytes, preroll: int, limits: ParseLimits, inspect: Inspect, error: string) {
    if body == [] then error == "empty_body"
    else if |body| > limits.maxBody then error == "body_too_large"
    else if !WholePreroll(preroll) then error == "invalid_preroll"
    else exists frames :: StopsBehind(body, preroll, limits, inspect, frames, error)
  }

  /** What the next frame of an encoding puts at `offset`. */
  lemma EncodedAt(body: Bytes, offset: nat, frames: seq<Bytes>)
    requires Encodable(frames) && frames != [] && offset <= |body| && body[offset..] == Encode(frames)
    ensures offset + 2 <= |body|
    ensures var n := FrameLength(body[offset], body[offset + 1]);
      n == |frames[0]| && offset + 2 + n <= |body| && body[offset + 2..offset + 2 + n] == frames[0]
  {
    EncodedHead(frames);
    var rest, n := body[offset..], |frames[0]|;
    assert rest[0] == body[offset] && rest[1] == body[offset + 1];
    assert rest[2..2 + n] == body[offset + 2..offset + 2 + n];
  }

  lemma NextFrameFits(limits: ParseLimits, inspect: Inspect, all: seq<Bytes>, n: nat)
    requires WithinLimits(limits, inspect, all) && n < |all|
    ensures n < limits.maxFrames && FrameWithinLimits(limits, inspect, all[n])
    ensures SampleSum(inspect, all[..n]) + SamplesIn(inspect, all[n]) <= limits.maxSamples
  {
    SampleSumGrows(inspect, all, n + 1);
    assert all[..n + 1][..n] == all[..n];
  }

  lemma NextFrame(body: Bytes, preroll: int, limits: ParseLimits, inspect: Inspect, frames: seq<Bytes>, offset: nat, p: Parsed)
    requires Accepts(body, preroll, limits, inspect, p)
    requires Encodable(frames) && offset < |body| && Encode(frames) == body[..offset]
    ensures FrameAt(body, offset, limits, inspect, frames)
  {
    ReadFramesAreAPrefix(frames, p.frames, offset);
    var rest := p.frames[|frames|..];
    EncodesToNothing(rest);
    EncodedAt(body, offset, rest);
    NextFrameFits(limits, inspect, p.frames, |frames|);
    assert p.frames[..|frames|] == frames;
  }

  /** A body is the encoding of one list of frames at most. */
  lemma DecodingIsUnique(body: Bytes, preroll: int, limits: ParseLimits, inspect: Inspect, p: Parsed, q: Parsed)
    requires Accepts(body, preroll, limits, inspect, p) && Accepts(body, preroll, limits, inspect, q)
    ensures p == q
  {
    hide Encode, SampleSum;
    assert body[..|body|] == body;
    ReadFramesAreAPrefix(p.frames, q.frames, |body|);
    ReadFramesAreAPrefix(q.frames, p.frames, |body|);
    assert p.frames == q.frames;
  }

  // ---------------------------------------------------------------- the parser

  /** One round of the loop: the frame at `offset` with its samples, or what is wrong there. */
  method ReadFrame(body: Bytes, offset: nat, limits: ParseLimits, inspect: Inspect, frames: seq<Bytes>, total: nat)
    returns (read: Result<(Bytes, nat), string>)
    requires offset < |body| && total == SampleSum(inspect, frames)
    ensures read.Err? ==> FrameFault(body, offset, limits, inspect, frames) == Some(read.error)
    ensures read.Ok? ==>
              && FrameAt(body, offset, limits, inspect, frames)
              && read.value.0 == body[offset + 2..offset + 2 + FrameLength(body[offset], body[offset + 1])]
              && read.value.1 == SamplesIn(inspect, read.value.0)
  {
    hide SampleSum;
    if |body| - offset < 2 {
      return Err("truncated_frame_length");
    }
    var frameLength := FrameLength(body[offset], body[offset + 1]);
    var start := offset + 2;
    if frameLength == 0 {
      return Err("empty_frame");
    }
    if frameLength > limits.maxFrame {
      return Err("frame_too_large");
    }
    if |frames| >= limits.maxFrames {
      return Err("too_many_frames");
    }
    var frameEnd := start + frameLength;
    if frameEnd > |body| {
      return Err("truncated_frame");
    }
    var frame := body[start..frameEnd];
    var packet := inspect(frame);
    if packet.Err? {
      return Err(packet.error);
    }
    if packet.value.channels != 1 {
      return Err("stereo_not_supported");
    }
    if total + packet.value.samples > limits.maxSamples {
      return Err("duration_too_long");
    }
    return Ok((frame, packet.value.samples));
  }

  /** Every accepted body is the encoding of its result, and whatever frames within the limits are
      encoded, the parser gives them back with their sample sum: by `DecodingIsUnique` there is only
      one answer. An error means that there is none, and names the first thing that is wrong. */
  method Parse(body: Bytes, preroll: int, limits: ParseLimits, inspect: Inspect) returns (parsed: Result<Parsed, string>)
    ensures parsed.Ok? ==> Accepts(body, preroll, limits, inspect, parsed.value)
    ensures parsed.Err? ==> forall p :: !Accepts(body, preroll, limits, inspect, p)
    ensures parsed.Err? ==> Explains(body, preroll, limits, inspect, parsed.error)
  {
    if body == [] {
      return Err("empty_body");
    }
    if |body| > limits.maxBody {
      return Err("body_too_large");
    }
    if !WholePreroll(preroll) {
      return Err("invalid_preroll");
    }
    hide *;
    NothingRead(limits, inspect);
    var frames: seq<Bytes> := [];
    var frameSamples: seq<nat> := [];
    var total := 0;
    var offset := 0;
    while offset < |body|
      invariant 0 <= offset <= |body| && |frameSamples| == |frames| && (offset > 0 ==> frames != [])
      invariant WithinLimits(limits, inspect, frames) && Encode(frames) == body[..offset]
      invariant total == SampleSum(inspect, frames)
      invariant frames != [] ==> frameSamples[0] == SamplesIn(inspect, frames[0])
      decreases |body| - offset
    {
      var read := ReadFrame(body, offset, limits, inspect, frames, total);
      if read.Err? {
        FaultIsFinal(body, preroll, limits, inspect, frames, offset, read.error);
        return Err(read.error);
      }
      var (frame, samples) := read.value;
      FrameRead(body, offset, limits, inspect, frames, frame);
      offset := offset + 2 + |frame|;
      total := total + samples;
      frames := frames + [frame];
      frameSamples := frameSamples + [samples];
    }
    assert body[..offset] == body;
    if preroll > frameSamples[0] {
      PrerollIsFinal(body, preroll, limits, inspect, frames);
      return Err("invalid_preroll");
    }
    return Ok(Parsed(frames, total, preroll));
  }

  lemma NothingRead(limits: ParseLimits, inspect: Inspect)
    ensures WithinLimits(limits, inspect, []) && Encode([]) == [] && SampleSum(inspect, []) == 0
  {
  }

  /** Nothing acceptable can follow a faulty frame. */
  lemma FaultIsFinal(body: Bytes, preroll: int, limits: ParseLimits, inspect: Inspect, frames: seq<Bytes>, offset: nat, error: string)
    requires WithinLimits(limits, inspect, frames) && offset < |body| && Encode(frames) == body[..offset]
    requires FrameFault(body, offset, limits, inspect, frames) == Some(error)
    ensures forall p :: !Accepts(body, preroll, limits, inspect, p)
    ensures |body| <= limits.maxBody && WholePreroll(preroll) ==> Explains(body, preroll, limits, inspect, error)
  {
    forall p
      ensures !Accepts(body, preroll, limits, inspect, p)
    {
      if Accepts(body, preroll, limits, inspect, p) {
        NextFrame(body, preroll, limits, inspect, frames, offset, p);
      }
    }
    assert StopsBehind(body, preroll, limits, inspect, frames, error);
  }

  lemma PrerollIsFinal(body: Bytes, preroll: int, limits: ParseLimits, inspect: Inspect, frames: seq<Bytes>)
    requires WithinLimits(limits, inspect, frames) && Encode(frames) == body
    requires frames != [] && preroll > SamplesIn(inspect, frames[0])
    ensures forall p :: !Accepts(body, preroll, limits, inspect, p)
    ensures |body| <= limits.maxBody && WholePreroll(preroll) ==> Explains(body, preroll, limits, inspect, "invalid_preroll")
  {
    assert body[..|body|] == body;
    forall p
      ensures !Accepts(body, preroll, limits, inspect, p)
    {
      if Accepts(body, preroll, limits, inspect, p) {
        ReadFramesAreAPrefix(frames, p.frames, |body|);
      }
    }
    EncodesToNothing(frames);
    assert StopsBehind(body, preroll, limits, inspect, frames, "invalid_preroll");
  }

  lemma FrameRead(body: Bytes, offset: nat, limits: ParseLimits, inspect: Inspect, frames: seq<Bytes>, frame: Bytes)
    requires WithinLimits(limits, inspect, frames) && offset <= |body| && Encode(frames) == body[..offset]
    requires FrameAt(body, offset, limits, inspect, frames)
    requires frame == body[offset + 2..offset + 2 + FrameLength(body[offset], body[offset + 1])]
    ensures WithinLimits(limits, inspect, frames + [frame])
    ensures Encode(frames + [frame]) == body[..offset + 2 + |frame|]
    ensures SampleSum(inspect, frames + [frame]) == SampleSum(inspect, frames) + SamplesIn(inspect, frame)
  {
    EncodeAppend(frames, frame);
    assert (frames + [frame])[..|frames|] == frames;
    assert EncodeLength(|frame|) == body[offset..offset + 2];
    assert body[..offset] + body[offset..offset + 2] + frame == body[..offset + 2 + |frame|];
  }
}
