/** The window arithmetic of `trim_silence` in transcribers.py. Which frames are voiced is given. */
module Trim {
  import opened Prelude

  const TRIM_FRAME_MS := 20
  const MIN_TRIMMED_MS := 320
  const TRIM_DISABLED := -1

  datatype Window = Window(start: int, stop: int)

  function FrameSize(rate: int): int { rate * TRIM_FRAME_MS / 1000 }

  function Minimum(rate: int): int { MIN_TRIMMED_MS * rate / 1000 }

  /** A pad in samples; an end whose pad is off is left alone. */
  function PadSamples(pad: int, rate: int): int { pad * rate / 1000 }

  /** Where the `i`-th frame starts, and so where the one before it ends. */
  function FrameStart(rate: int, i: int): int { i * FrameSize(rate) }

  /** The window around the voiced frames that keeps each pad, cut off at the ends of the clip. */
  function Padded(size: int, rate: int, headPad: int, tailPad: int, first: int, last: int): Window {
    Window(if headPad >= 0 then Max(0, FrameStart(rate, first) - PadSamples(headPad, rate)) else 0,
           if tailPad >= 0 then Min(size, FrameStart(rate, last + 1) + PadSamples(tailPad, rate)) else size)
  }

  /** A window too short to decode is grown about its centre and clamped to the clip. */
  function Grown(size: int, minimum: int, w: Window): Window {
    if w.stop - w.start >= minimum then w
    else
      var start := Max(0, w.start - (minimum - (w.stop - w.start)) / 2);
      var stop := Min(size, start + minimum);
      Window(Max(0, stop - minimum), stop)
  }

  /** Growing and clamping loses nothing of the window, and reaches exactly the minimum. */
  lemma GrownContains(size: int, minimum: int, w: Window)
    requires 0 <= w.start <= w.stop <= size && 0 <= minimum <= size
    ensures var g := Grown(size, minimum, w);
      && 0 <= g.start <= w.start && w.stop <= g.stop <= size
      && g.stop - g.start == Max(w.stop - w.start, minimum)
  {
  }

  /** The loudness test of the source: no frame where the clip is too quiet or nothing is voiced. */
  type Voiced = seq<bool>

  /** `first` and `last` are the ends of `np.flatnonzero(...)`. */
  predicate Ends(voiced: Voiced, first: int, last: int) {
    && 0 <= first <= last < |voiced| && voiced[first] && voiced[last]
    && forall i :: 0 <= i < |voiced| && voiced[i] ==> first <= i <= last
  }

  method VoicedEnds(voiced: Voiced) returns (ends: Option<(int, int)>)
    ensures ends.Some? ==> Ends(voiced, ends.value.0, ends.value.1)
    ensures ends == None ==> forall i :: 0 <= i < |voiced| ==> !voiced[i]
  {
    var first, last := -1, -1;
    for i := 0 to |voiced|
      invariant first == -1 <==> last == -1
      invariant first == -1 ==> forall j :: 0 <= j < i ==> !voiced[j]
      invariant first != -1 ==> Ends(voiced[..i], first, last)
    {
      if voiced[i] {
        if first == -1 { first := i; }
        last := i;
      }
    }
    assert voiced[..|voiced|] == voiced;
    ends := if first == -1 then None else Some((first, last));
  }

  /** Every voiced frame lies inside the window. */
  ghost predicate KeepsVoiced(rate: int, voiced: Voiced, window: Window) {
    forall i :: 0 <= i < |voiced| && voiced[i] ==> window.start <= FrameStart(rate, i) && FrameStart(rate, i + 1) <= window.stop
  }

  /** What trimming should leave, given the ends of the voiced stretch. */
  function Kept(size: int, rate: int, headPad: int, tailPad: int, first: int, last: int): Window {
    Grown(size, Minimum(rate), Padded(size, rate, headPad, tailPad, first, last))
  }

  /** The head of a slice that was not grown: the start of the clip where that end is off, and otherwise
      the head pad before the first voiced frame, or the start of the clip if that comes sooner. Times
      are in milliseconds, 20 to a frame, and samples are counted at `rate` per second. */
  predicate HeadAt(rate: int, headPad: int, first: int, start: int) {
    var voicedFrom := first * (rate * 20 / 1000);
    if headPad < 0 then start == 0
    else start >= 0 && start <= voicedFrom && voicedFrom - start <= headPad * rate / 1000
         && (start == 0 || voicedFrom - start == headPad * rate / 1000)
  }

  /** The tail, likewise. */
  predicate TailAt(size: int, rate: int, tailPad: int, last: int, stop: int) {
    var voicedTo := (last + 1) * (rate * 20 / 1000);
    if tailPad < 0 then stop == size
    else stop <= size && voicedTo <= stop && stop - voicedTo <= tailPad * rate / 1000
         && (stop == size || stop - voicedTo == tailPad * rate / 1000)
  }

  /** A slice that was grown has exactly the minimum length. It takes half of what was missing from
      before the head, rounded down, and the rest from behind the tail, unless one end of the clip is in
      the way and the other end has to give more. */
  predicate GrownAbout(size: int, minimum: int, start: int, stop: int, w: Window) {
    var before := (minimum - (stop - start)) / 2;
    && stop - start < minimum && w.stop - w.start == minimum
    && 0 <= w.start <= start <= stop <= w.stop <= size
    && (start - w.start == before || (start - w.start < before && w.start == 0) || (start - w.start > before && w.stop == size))
  }

  /** Where trimming begins and ends, in terms of the pads and the voiced frames alone. */
  ghost predicate TrimmedTo(size: int, rate: int, headPad: int, tailPad: int, first: int, last: int, w: Window) {
    var minimum := 320 * rate / 1000;
    exists start, stop ::
      && HeadAt(rate, headPad, first, start) && TailAt(size, rate, tailPad, last, stop)
      && if stop - start >= minimum then w == Window(start, stop) else GrownAbout(size, minimum, start, stop, w)
  }

  /** The three conditions leave one window. */
  lemma TrimmedToOne(size: int, rate: int, headPad: int, tailPad: int, first: int, last: int, w: Window, v: Window)
    requires TrimmedTo(size, rate, headPad, tailPad, first, last, w) && TrimmedTo(size, rate, headPad, tailPad, first, last, v)
    ensures w == v
  {
  }

  lemma PaddedEnds(size: nat, rate: int, headPad: int, tailPad: int, voiced: Voiced, first: int, last: int)
    requires FrameSize(rate) > 0 && |voiced| == size / FrameSize(rate) && Ends(voiced, first, last)
    ensures var w := Padded(size, rate, headPad, tailPad, first, last);
      && HeadAt(rate, headPad, first, w.start) && TailAt(size, rate, tailPad, last, w.stop)
      && 0 <= w.start <= w.stop <= size
  {
    SamplesAreNotNegative(rate, headPad);
    SamplesAreNotNegative(rate, tailPad);
    FrameFits(size, rate, |voiced|, first);
    FrameFits(size, rate, |voiced|, last);
    FramesAscend(rate, first, last + 1);
    hide Ends;
    assert FrameStart(rate, first) == first * (rate * 20 / 1000);
    assert FrameStart(rate, last + 1) == (last + 1) * (rate * 20 / 1000);
    hide FrameStart, FrameSize;
  }

  lemma KeptIsTrimmedTo(size: nat, rate: int, headPad: int, tailPad: int, voiced: Voiced, first: int, last: int)
    requires FrameSize(rate) > 0 && |voiced| == size / FrameSize(rate) && size > Minimum(rate) && Ends(voiced, first, last)
    ensures TrimmedTo(size, rate, headPad, tailPad, first, last, Kept(size, rate, headPad, tailPad, first, last))
  {
    hide HeadAt, TailAt, Padded, Ends, FrameSize;
    var padded := Padded(size, rate, headPad, tailPad, first, last);
    PaddedEnds(size, rate, headPad, tailPad, voiced, first, last);
    SamplesAreNotNegative(rate, headPad);
    GrownContains(size, Minimum(rate), padded);
  }

  /** The slice of the clip that is decoded. The whole clip comes back when both ends are off, when it
      is already short, and when no frame is voiced. */
  method TrimWindow(size: nat, rate: int, headPad: int, tailPad: int, voiced: Voiced) returns (window: Option<Window>)
    requires FrameSize(rate) > 0 ==> |voiced| == size / FrameSize(rate)
    ensures window == None <==> headPad < TRIM_DISABLED || tailPad < TRIM_DISABLED
    ensures window.Some? && window.value != Window(0, size) ==>
              FrameSize(rate) > 0 && size > Minimum(rate) && (headPad >= 0 || tailPad >= 0)
    ensures window.Some? && FrameSize(rate) > 0 && size > Minimum(rate) && size >= 3 * FrameSize(rate) && (headPad >= 0 || tailPad >= 0) ==>
              forall first, last :: Ends(voiced, first, last) ==> TrimmedTo(size, rate, headPad, tailPad, first, last, window.value)
    ensures window.Some? && window.value != Window(0, size) ==> exists first, last :: Ends(voiced, first, last)
    ensures window.Some? ==> 0 <= window.value.start <= window.value.stop <= size
    ensures window.Some? ==> window.value == Window(0, size) || window.value.stop - window.value.start >= Minimum(rate)
    ensures window.Some? && FrameSize(rate) > 0 ==> KeepsVoiced(rate, voiced, window.value)
  {
    hide FrameSize, Minimum, FrameStart, PadSamples, KeepsVoiced, TrimmedTo;
    if headPad < TRIM_DISABLED || tailPad < TRIM_DISABLED {
      return None;
    }
    WholeKeepsVoiced(size, rate, voiced);
    if headPad < 0 && tailPad < 0 {
      return Some(Window(0, size));
    }
    var frame, minimum := FrameSize(rate), Minimum(rate);
    if frame <= 0 || size <= minimum || size < frame * 3 {
      return Some(Window(0, size));
    }
    var ends := VoicedEnds(voiced);
    if ends == None {
      return Some(Window(0, size));
    }
    var (first, last) := ends.value;
    var start := 0;
    if headPad >= 0 {
      start := Max(0, FrameStart(rate, first) - PadSamples(headPad, rate));
    }
    var stop := size;
    if tailPad >= 0 {
      stop := Min(size, FrameStart(rate, last + 1) + PadSamples(tailPad, rate));
    }
    if stop - start < minimum {
      start := Max(0, start - (minimum - (stop - start)) / 2);
      stop := Min(size, start + minimum);
      start := Max(0, stop - minimum);
    }
    assert Window(start, stop) == Kept(size, rate, headPad, tailPad, first, last);
    SamplesAreNotNegative(rate, headPad);
    KeptKeepsVoiced(size, rate, headPad, tailPad, voiced, first, last);
    KeptIsTrimmedTo(size, rate, headPad, tailPad, voiced, first, last);
    window := Some(if stop - start >= size then Window(0, size) else Window(start, stop));
  }

  lemma WholeKeepsVoiced(size: nat, rate: int, voiced: Voiced)
    requires FrameSize(rate) > 0 ==> |voiced| == size / FrameSize(rate)
    ensures FrameSize(rate) > 0 ==> KeepsVoiced(rate, voiced, Window(0, size))
  {
    if FrameSize(rate) > 0 {
      forall i | 0 <= i < |voiced| && voiced[i]
        ensures 0 <= FrameStart(rate, i) && FrameStart(rate, i + 1) <= size
      {
        FrameFits(size, rate, |voiced|, i);
      }
    }
  }

  /** A trimmed clip is an in-range slice that contains every voiced frame and the pads around the
      voiced stretch, and it is as long as they are or as the minimum, whichever is more: also when
      the window had to be grown and clamped. */
  lemma KeptKeepsVoiced(size: nat, rate: int, headPad: int, tailPad: int, voiced: Voiced, first: int, last: int)
    requires FrameSize(rate) > 0 && |voiced| == size / FrameSize(rate) && size > Minimum(rate) && Ends(voiced, first, last)
    ensures var padded, kept := Padded(size, rate, headPad, tailPad, first, last), Kept(size, rate, headPad, tailPad, first, last);
      && 0 <= kept.start <= padded.start <= padded.stop <= kept.stop <= size
      && kept.stop - kept.start == Max(padded.stop - padded.start, Minimum(rate))
      && KeepsVoiced(rate, voiced, padded) && KeepsVoiced(rate, voiced, kept)
  {
    var padded := Padded(size, rate, headPad, tailPad, first, last);
    SamplesAreNotNegative(rate, headPad);
    SamplesAreNotNegative(rate, tailPad);
    FrameFits(size, rate, |voiced|, first);
    FrameFits(size, rate, |voiced|, last);
    forall i | 0 <= i < |voiced| && voiced[i]
      ensures FrameStart(rate, first) <= FrameStart(rate, i) <= FrameStart(rate, i + 1) <= FrameStart(rate, last + 1)
    {
      FramesAscend(rate, first, i);
      FramesAscend(rate, i, i + 1);
      FramesAscend(rate, i + 1, last + 1);
    }
    assert KeepsVoiced(rate, voiced, padded);
    GrownContains(size, Minimum(rate), padded);
  }

  lemma FramesAscend(rate: int, i: int, j: int)
    requires FrameSize(rate) > 0 && i <= j
    ensures FrameStart(rate, i) <= FrameStart(rate, j)
  {
    var k := j - i;
    assert k * FrameSize(rate) >= 0;
    assert FrameStart(rate, j) == FrameStart(rate, i) + k * FrameSize(rate);
  }

  lemma FrameFits(size: nat, rate: int, n: nat, i: int)
    requires FrameSize(rate) > 0 && n == size / FrameSize(rate) && 0 <= i < n
    ensures 0 <= FrameStart(rate, i) && FrameStart(rate, i + 1) <= size
  {
    FramesAscend(rate, 0, i);
    FramesAscend(rate, i + 1, n);
  }

  lemma SamplesAreNotNegative(rate: int, pad: int)
    requires FrameSize(rate) > 0
    ensures pad >= 0 ==> PadSamples(pad, rate) >= 0
    ensures Minimum(rate) >= 0
  {
    assert rate >= 0;
    if pad >= 0 { assert pad * rate >= 0; }
  }
}
