/**
 * A model of the deterministic rules inside fake.py, the virtual-webcam
 * compositor of Linux-Fake-Background-Webcam.
 *
 * Pixels are integers held in H x W x C arrays (`array3<int>`); masks and
 * blend weights are exact reals.  The segmentation model, the sigmoid, OpenCV
 * resizing, the devices and the clock are outside the model: what they produce
 * is taken as an input.
 */
module Fake {

  // ---------------------------------------------------------------------------
  // Small shared definitions
  // ---------------------------------------------------------------------------

  datatype Option<T> = None | Some(value: T)

  /** The exceptions fake.py raises along the modelled paths. */
  datatype Error =
    | CameraDimensions   // resize_image on a zero camera width or height
    | EmptyVideo         // read_frame gets no frame even after rewinding
    | ZeroFrameRate      // next_frame divides by a zero current frame rate
    | FrameUnbound       // next_frame yields before it has read any frame

  datatype Result<T> = Ok(value: T) | Err(error: Error)

  function Min(a: int, b: int): int { if a <= b then a else b }
  function Max(a: int, b: int): int { if a >= b then a else b }
  function MinR(a: real, b: real): real { if a <= b then a else b }
  function MaxR(a: real, b: real): real { if a >= b then a else b }

  predicate InBounds3<T>(a: array3<T>, y: int, x: int, c: int)
  {
    0 <= y < a.Length0 && 0 <= x < a.Length1 && 0 <= c < a.Length2
  }

  predicate SameDims<S, T>(a: array3<S>, b: array3<T>)
  {
    a.Length0 == b.Length0 && a.Length1 == b.Length1 && a.Length2 == b.Length2
  }

  // ---------------------------------------------------------------------------
  // Integer helpers (getNextOddNumber, getPercentage)
  // ---------------------------------------------------------------------------

  /** The blur kernel size: the least odd number that is not below n. */
  function NextOddNumber(n: int): (r: int)
    ensures r % 2 == 1
    ensures n <= r <= n + 1
  {
    if n % 2 == 0 then n + 1 else n
  }

  /** The mask update speed clamped to a percentage. */
  function Percentage(n: int): (r: int)
    ensures 0 <= r <= 100
    ensures 0 <= n <= 100 ==> r == n
    ensures n < 0 ==> r == 0
    ensures n > 100 ==> r == 100
  {
    Min(Max(n, 0), 100)
  }

  lemma PercentageIdempotent(n: int)
    ensures Percentage(Percentage(n)) == Percentage(n)
  {
  }

  /**
   * The smoothing coefficient FakeCam receives from the command line: the
   * speed is clamped by main and divided by 100 by the constructor.
   */
  function MaskAlphaFromSpeed(speed: int): (alpha: real)
    ensures 0.0 <= alpha <= 1.0
    ensures alpha == 1.0 <==> speed >= 100
    ensures alpha == 0.0 <==> speed <= 0
  {
    Percentage(speed) as real / 100.0
  }

  // ---------------------------------------------------------------------------
  // Consumer lifecycle: inotify flags and the consumer count
  // ---------------------------------------------------------------------------

  datatype Flag = Create | Open | CloseNoWrite | CloseWrite

  /** What one flag of an event does to the consumer count. */
  function FlagDelta(f: Flag): int
  {
    match f
    case Open => 1
    case CloseNoWrite => -1
    case CloseWrite => -1
    case Create => 0
  }

  /** The net change the flags of one event make, applied left to right. */
  function Delta(flags: seq<Flag>): int
  {
    if flags == [] then 0 else Delta(flags[..|flags| - 1]) + FlagDelta(flags[|flags| - 1])
  }

  function Occurrences(flags: seq<Flag>, f: Flag): (k: nat)
    ensures k <= |flags|
    ensures k == 0 <==> f !in flags
  {
    if flags == [] then 0 else (if flags[0] == f then 1 else 0) + Occurrences(flags[1..], f)
  }

  lemma {:induction false} DeltaAppend(a: seq<Flag>, b: seq<Flag>)
    ensures Delta(a + b) == Delta(a) + Delta(b)
    decreases |b|
  {
    if b == [] {
      assert a + b == a;
    } else {
      var b' := b[..|b| - 1];
      assert (a + b)[..|a + b| - 1] == a + b';
      assert (a + b)[|a + b| - 1] == b[|b| - 1];
      DeltaAppend(a, b');
    }
  }

  /** An event's net change is its OPEN flags minus its CLOSE flags; CREATE does not count. */
  lemma {:induction false} DeltaCountsFlags(flags: seq<Flag>)
    ensures Delta(flags) == Occurrences(flags, Open)
                            - Occurrences(flags, CloseNoWrite) - Occurrences(flags, CloseWrite)
  {
    if flags != [] {
      DeltaCountsFlags(flags[1..]);
      DeltaAppend([flags[0]], flags[1..]);
      assert [flags[0]] + flags[1..] == flags;
      assert Delta([flags[0]]) == FlagDelta(flags[0]) by {
        assert [flags[0]][..0] == [];
      }
    }
  }

  /** The consumer count after one event: the flags are applied, then the count is clamped at 0. */
  function ConsumersAfter(c: int, flags: seq<Flag>): (r: int)
    ensures r >= 0
    ensures r > 0 <==> c + Delta(flags) > 0
    ensures r > 0 ==> r == c + Delta(flags)
  {
    var n := c + Delta(flags);
    if n > 0 then n else 0
  }

  /** OPEN adds one consumer, either CLOSE removes one but never below zero, CREATE changes nothing. */
  lemma SingleFlagEvents(c: int)
    requires c >= 0
    ensures ConsumersAfter(c, [Open]) == c + 1
    ensures ConsumersAfter(c, [CloseNoWrite]) == Max(c - 1, 0)
    ensures ConsumersAfter(c, [CloseWrite]) == Max(c - 1, 0)
    ensures ConsumersAfter(c, [Create]) == c
  {
    assert [Open][..0] == [CloseNoWrite][..0] == [CloseWrite][..0] == [Create][..0] == [];
  }

  /** The consumer count after a batch of events, clamped after every event. */
  function Replay(c: int, events: seq<seq<Flag>>): int
    decreases |events|
  {
    if events == [] then c else Replay(ConsumersAfter(c, events[0]), events[1..])
  }

  /** How many of the events in a batch reload the images (those that leave a consumer). */
  function ReplayReloads(c: int, events: seq<seq<Flag>>): (k: nat)
    decreases |events|
    ensures k <= |events|
  {
    if events == [] then 0
    else (if ConsumersAfter(c, events[0]) > 0 then 1 else 0)
         + ReplayReloads(ConsumersAfter(c, events[0]), events[1..])
  }

  /** An event with neither CLOSE flag. */
  predicate NoClose(flags: seq<Flag>)
  {
    CloseNoWrite !in flags && CloseWrite !in flags
  }

  /** An event without a CLOSE flag never lowers the count. */
  lemma DeltaNoClose(flags: seq<Flag>)
    requires NoClose(flags)
    ensures Delta(flags) == Occurrences(flags, Open) >= 0
  {
    DeltaCountsFlags(flags);
  }

  /**
   * From at least one consumer, a batch in which nothing closes keeps a consumer
   * after every event, so every event reloads the images and none lowers the count.
   */
  lemma {:induction false} ReloadsWithoutClose(c: int, events: seq<seq<Flag>>)
    requires c >= 1
    requires forall i :: 0 <= i < |events| ==> NoClose(events[i])
    ensures ReplayReloads(c, events) == |events|
    ensures Replay(c, events) >= c
    decreases |events|
  {
    if events != [] {
      DeltaNoClose(events[0]);
      ReloadsWithoutClose(ConsumersAfter(c, events[0]), events[1..]);
    }
  }

  /** All the flags of a batch in order. */
  function Flatten(events: seq<seq<Flag>>): seq<Flag>
  {
    if events == [] then [] else events[0] + Flatten(events[1..])
  }

  /** Every event of the batch leaves the unclamped count non-negative. */
  predicate NeverNegative(c: int, events: seq<seq<Flag>>)
    decreases |events|
  {
    events == [] || (c + Delta(events[0]) >= 0 && NeverNegative(c + Delta(events[0]), events[1..]))
  }

  /** A non-empty batch leaves a non-negative count. */
  lemma {:induction false} ReplayNonNegative(c: int, events: seq<seq<Flag>>)
    requires c >= 0 || events != []
    decreases |events|
    ensures Replay(c, events) >= 0
  {
    if events != [] {
      ReplayNonNegative(ConsumersAfter(c, events[0]), events[1..]);
    }
  }

  /**
   * When no event ever closes more than was opened, the clamp never fires and
   * the count is the start plus the OPENs minus the CLOSEs of the whole batch.
   */
  lemma {:induction false} ReplayWithoutClamp(c: int, events: seq<seq<Flag>>)
    requires NeverNegative(c, events)
    ensures Replay(c, events) == c + Delta(Flatten(events))
    decreases |events|
  {
    if events != [] {
      ReplayWithoutClamp(c + Delta(events[0]), events[1..]);
      DeltaAppend(events[0], Flatten(events[1..]));
    }
  }

  /** Clamping after every event never gives a smaller count than applying the whole batch first. */
  lemma {:induction false} ReplayDominatesBatch(c: int, events: seq<seq<Flag>>)
    ensures Replay(c, events) >= c + Delta(Flatten(events))
    decreases |events|
  {
    if events != [] {
      var c' := ConsumersAfter(c, events[0]);
      ReplayDominatesBatch(c', events[1..]);
      DeltaAppend(events[0], Flatten(events[1..]));
    }
  }

  /**
   * A close then an open, in two events, from no consumers: the per-event clamp
   * ends with one consumer, where a clamp once per batch would end with none.
   */
  lemma CloseThenOpenLeavesOne()
    ensures Replay(0, [[CloseNoWrite], [Open]]) == 1
    ensures 0 + Delta(Flatten([[CloseNoWrite], [Open]])) == 0
  {
    SingleFlagEvents(0);
    SingleFlagEvents(1);
    var events := [[CloseNoWrite], [Open]];
    assert events[1..] == [[Open]] && events[1..][1..] == [];
    assert Flatten(events) == [CloseNoWrite, Open];
    DeltaAppend([CloseNoWrite], [Open]);
    assert [CloseNoWrite] + [Open] == [CloseNoWrite, Open];
  }

  // ---------------------------------------------------------------------------
  // Masks and blending
  // ---------------------------------------------------------------------------

  type Mask = seq<seq<real>>

  predicate MaskShape(m: Mask, height: int, width: int)
  {
    |m| == height && forall y :: 0 <= y < |m| ==> |m[y]| == width
  }

  predicate SameShape(a: Mask, b: Mask)
  {
    |a| == |b| && forall y :: 0 <= y < |a| ==> |a[y]| == |b[y]|
  }

  predicate InUnitRange(m: Mask)
  {
    forall y, x :: 0 <= y < |m| && 0 <= x < |m[y]| ==> 0.0 <= m[y][x] <= 1.0
  }

  /**
   * The weighted mix `a*w + b*(1-w)` used for the mask average, the background
   * replacement and the foreground overlay.  For a weight in [0,1] it lies
   * between its two operands; weight 1 gives a and weight 0 gives b.
   */
  function Mix(a: real, b: real, w: real): (r: real)
    ensures 0.0 <= w <= 1.0 ==> MinR(a, b) <= r <= MaxR(a, b)
    ensures w == 1.0 ==> r == a
    ensures w == 0.0 ==> r == b
  {
    MixBetween(a, b, w);
    a * w + b * (1.0 - w)
  }

  lemma MixBetween(a: real, b: real, w: real)
    ensures a * w + b * (1.0 - w) - b == w * (a - b)
    ensures 0.0 <= w <= 1.0 ==> MinR(a, b) <= a * w + b * (1.0 - w) <= MaxR(a, b)
  {
    if 0.0 <= w <= 1.0 {
      if a >= b {
        MulNonNegative(w, a - b);
        MulNonNegative(1.0 - w, a - b);
      } else {
        MulNonNegative(w, b - a);
        MulNonNegative(1.0 - w, b - a);
      }
    }
  }

  lemma MulNonNegative(x: real, y: real)
    requires x >= 0.0 && y >= 0.0
    ensures x * y >= 0.0
  {
  }

  /** The elementwise mix of two masks of one shape. */
  function MixMask(a: Mask, b: Mask, w: real): (m: Mask)
    requires SameShape(a, b)
    ensures SameShape(m, a)
    ensures forall y, x :: 0 <= y < |m| && 0 <= x < |m[y]| ==> m[y][x] == Mix(a[y][x], b[y][x], w)
    ensures 0.0 <= w <= 1.0 && InUnitRange(a) && InUnitRange(b) ==> InUnitRange(m)
  {
    seq(|a|, y requires 0 <= y < |a| =>
      seq(|a[y]|, x requires 0 <= x < |a[y]| => Mix(a[y][x], b[y][x], w)))
  }

  /**
   * The exponential average compose_frame stores in old_mask: the raw mask when
   * there is no previous one or alpha is 1, the previous one when alpha is 0,
   * and `raw*alpha + previous*(1-alpha)` otherwise.
   */
  function SmoothMask(prev: Option<Mask>, raw: Mask, alpha: real): (m: Mask)
    requires prev.Some? ==> SameShape(prev.value, raw)
    ensures SameShape(m, raw)
    ensures prev.None? || alpha == 1.0 ==> m == raw
    ensures prev.Some? && alpha == 0.0 ==> m == prev.value
    ensures 0.0 <= alpha <= 1.0 && InUnitRange(raw) && (prev.Some? ==> InUnitRange(prev.value))
            ==> InUnitRange(m)
  {
    if prev.None? || alpha == 1.0 then raw
    else if alpha != 0.0 then MixMask(raw, prev.value, alpha)
    else prev.value
  }

  /** Whatever branch compose_frame takes, every stored pixel is the plain mix of raw and previous. */
  lemma SmoothMaskPointwise(prev: Mask, raw: Mask, alpha: real, y: int, x: int)
    requires SameShape(prev, raw)
    requires 0 <= y < |raw| && 0 <= x < |raw[y]|
    ensures SmoothMask(Some(prev), raw, alpha)[y][x] == Mix(raw[y][x], prev[y][x], alpha)
  {
  }

  /** The stored mask after n updates with one raw mask, starting from a stored mask first. */
  function IterSmooth(first: Mask, raw: Mask, alpha: real, n: nat): (m: Mask)
    requires SameShape(first, raw)
    ensures SameShape(m, raw)
    decreases n
  {
    if n == 0 then first else SmoothMask(Some(IterSmooth(first, raw, alpha, n - 1)), raw, alpha)
  }

  /** Each pixel of the iterated mask follows the scalar recurrence Smoothed. */
  lemma {:induction false} IterSmoothPixel(first: Mask, raw: Mask, alpha: real, n: nat, y: int, x: int)
    requires SameShape(first, raw)
    requires 0 <= y < |raw| && 0 <= x < |raw[y]|
    ensures IterSmooth(first, raw, alpha, n)[y][x] == Smoothed(first[y][x], raw[y][x], alpha, n)
    decreases n
  {
    if n > 0 {
      IterSmoothPixel(first, raw, alpha, n - 1, y, x);
      SmoothMaskPointwise(IterSmooth(first, raw, alpha, n - 1), raw, alpha, y, x);
    }
  }

  /** Each UpdateMask step with a constant raw mask brings every pixel no further from the raw pixel. */
  lemma IterSmoothMonotone(first: Mask, raw: Mask, alpha: real, n: nat, y: int, x: int)
    requires SameShape(first, raw) && 0.0 <= alpha <= 1.0
    requires 0 <= y < |raw| && 0 <= x < |raw[y]|
    ensures Dist(IterSmooth(first, raw, alpha, n + 1)[y][x], raw[y][x])
            <= Dist(IterSmooth(first, raw, alpha, n)[y][x], raw[y][x])
  {
    IterSmoothPixel(first, raw, alpha, n, y, x);
    IterSmoothPixel(first, raw, alpha, n + 1, y, x);
    SmoothedMonotone(first[y][x], raw[y][x], alpha, n);
  }

  /** v lies (1-alpha)^n times as far from raw as prev does, on the same side. */
  predicate OffsetScaled(v: real, prev: real, raw: real, alpha: real, n: nat)
  {
    v - raw == Pow(1.0 - alpha, n) * (prev - raw)
  }

  /**
   * After n UpdateMask steps with a constant raw mask, every pixel's offset from
   * the raw pixel is (1-alpha)^n times its first offset, a factor in [0,1] and at
   * most 1/(1 + n*alpha).
   */
  lemma IterSmoothConverges(first: Mask, raw: Mask, alpha: real, n: nat, y: int, x: int)
    requires SameShape(first, raw) && 0.0 <= alpha <= 1.0
    requires 0 <= y < |raw| && 0 <= x < |raw[y]|
    ensures OffsetScaled(IterSmooth(first, raw, alpha, n)[y][x], first[y][x], raw[y][x], alpha, n)
    ensures 0.0 <= Pow(1.0 - alpha, n) <= 1.0
    ensures Pow(1.0 - alpha, n) * (1.0 + n as real * alpha) <= 1.0
  {
    IterSmoothPixel(first, raw, alpha, n, y, x);
    SmoothedOffsetScaled(IterSmooth(first, raw, alpha, n)[y][x], first[y][x], raw[y][x], alpha, n);
    PowUnit(alpha, n);
    PowBound(alpha, n);
  }

  /** SmoothedConverges for a value known to equal Smoothed. */
  lemma SmoothedOffsetScaled(v: real, prev: real, raw: real, alpha: real, n: nat)
    requires 0.0 <= alpha <= 1.0 && v == Smoothed(prev, raw, alpha, n)
    ensures OffsetScaled(v, prev, raw, alpha, n)
  {
    SmoothedConverges(prev, raw, alpha, n);
  }

  function Pow(b: real, n: nat): real
    decreases n
  {
    if n == 0 then 1.0 else b * Pow(b, n - 1)
  }

  /** A pixel after n updates `raw*alpha + old*(1-alpha)` towards a constant raw value. */
  function Smoothed(prev: real, raw: real, alpha: real, n: nat): real
    decreases n
  {
    if n == 0 then prev else raw * alpha + Smoothed(prev, raw, alpha, n - 1) * (1.0 - alpha)
  }

  /** After n updates the distance to the raw value has shrunk by the factor (1-alpha)^n. */
  lemma {:induction false} SmoothedDistance(prev: real, raw: real, alpha: real, n: nat)
    ensures Smoothed(prev, raw, alpha, n) - raw == Pow(1.0 - alpha, n) * (prev - raw)
    decreases n
  {
    if n > 0 {
      SmoothedDistance(prev, raw, alpha, n - 1);
      UnfoldStep(prev, raw, alpha, n);
      OffsetStep(Smoothed(prev, raw, alpha, n), Smoothed(prev, raw, alpha, n - 1), raw, alpha,
                 Pow(1.0 - alpha, n - 1), Pow(1.0 - alpha, n), prev - raw);
    }
  }

  /** One more update scales the offset from the raw value, and the power, by 1-alpha. */
  lemma UnfoldStep(prev: real, raw: real, alpha: real, n: nat)
    requires n > 0
    ensures Smoothed(prev, raw, alpha, n) - raw == (1.0 - alpha) * (Smoothed(prev, raw, alpha, n - 1) - raw)
    ensures Pow(1.0 - alpha, n) == (1.0 - alpha) * Pow(1.0 - alpha, n - 1)
  {
    StepOffset(raw, Smoothed(prev, raw, alpha, n - 1), alpha);
  }

  /** On plain numbers: one update scales an offset of p*d by 1-alpha, giving ((1-alpha)*p)*d. */
  lemma OffsetStep(next: real, s: real, raw: real, alpha: real, p: real, p': real, d: real)
    requires next - raw == (1.0 - alpha) * (s - raw)
    requires s - raw == p * d
    requires p' == (1.0 - alpha) * p
    ensures next - raw == p' * d
  {
    MulAssoc(1.0 - alpha, p, d);
  }

  /** One update is offset from the raw value by (1-alpha) times the old offset. */
  lemma StepOffset(raw: real, s: real, alpha: real)
    ensures raw * alpha + s * (1.0 - alpha) - raw == (1.0 - alpha) * (s - raw)
  {
  }

  lemma MulAssoc(x: real, y: real, z: real)
    ensures x * (y * z) == (x * y) * z
  {
  }

  /** For 0 <= alpha <= 1, (1-alpha)^n lies in [0,1]. */
  lemma {:induction false} PowUnit(alpha: real, n: nat)
    requires 0.0 <= alpha <= 1.0
    ensures 0.0 <= Pow(1.0 - alpha, n) <= 1.0
    decreases n
  {
    if n > 0 {
      PowUnit(alpha, n - 1);
      var p := Pow(1.0 - alpha, n - 1);
      MulNonNegative(1.0 - alpha, p);
      MulLessEq(1.0 - alpha, 1.0, p);
    }
  }

  /** For 0 <= alpha <= 1, (1-alpha)^n is at most 1/(1 + n*alpha). */
  lemma {:induction false} PowBound(alpha: real, n: nat)
    requires 0.0 <= alpha <= 1.0
    ensures Pow(1.0 - alpha, n) * (1.0 + n as real * alpha) <= 1.0
    decreases n
  {
    if n > 0 {
      PowBound(alpha, n - 1);
      PowUnit(alpha, n - 1);
      PowStep(alpha, Pow(1.0 - alpha, n - 1), (n - 1) as real);
    }
  }

  /** The inductive step of PowBound on plain numbers: p*(1+k*alpha) <= 1 gives (1-alpha)*p*(1+(k+1)*alpha) <= 1. */
  lemma PowStep(alpha: real, p: real, k: real)
    requires 0.0 <= alpha <= 1.0 && 0.0 <= p <= 1.0
    requires p * (1.0 + k * alpha) <= 1.0
    ensures (1.0 - alpha) * p * (1.0 + (k + 1.0) * alpha) <= 1.0
  {
    MulNonNegative(alpha, p);
    MulNonNegative(alpha, 1.0 - p);
    MulNonNegative(alpha * alpha, p);
    calc {
      (1.0 - alpha) * p * (1.0 + (k + 1.0) * alpha);
      == (1.0 - alpha) * (p * (1.0 + k * alpha) + alpha * p);
      <= { MulLessEq(p * (1.0 + k * alpha) + alpha * p, 1.0 + alpha * p, 1.0 - alpha); }
         (1.0 - alpha) * (1.0 + alpha * p);
      == 1.0 - alpha * (1.0 - p) - alpha * alpha * p;
      <= 1.0;
    }
  }

  /** Each further update with a constant raw value brings the stored value no further from it. */
  lemma SmoothedMonotone(prev: real, raw: real, alpha: real, n: nat)
    requires 0.0 <= alpha <= 1.0
    ensures Dist(Smoothed(prev, raw, alpha, n + 1), raw) <= Dist(Smoothed(prev, raw, alpha, n), raw)
  {
    var s := Smoothed(prev, raw, alpha, n);
    StepOffset(raw, s, alpha);
    StepCloser(Smoothed(prev, raw, alpha, n + 1) - raw, s - raw, 1.0 - alpha);
  }

  /** On plain numbers: an offset scaled by a factor in [0,1] is no larger in absolute value. */
  lemma StepCloser(e: real, d: real, q: real)
    requires 0.0 <= q <= 1.0 && e == q * d
    ensures Abs(e) <= Abs(d)
  {
    var a := Abs(d);
    AbsScale(q, d);
    MulLessEq(q, 1.0, a);
    calc {
      Abs(e);
      == q * a;
      <= 1.0 * a;
      == Abs(d);
    }
  }

  /**
   * After n updates with a constant raw value the offset from it is (1-alpha)^n
   * times the first offset, and that factor lies in [0,1] and is at most
   * 1/(1 + n*alpha): for alpha in (0,1] the stored value converges to the raw value.
   */
  lemma SmoothedConverges(prev: real, raw: real, alpha: real, n: nat)
    requires 0.0 <= alpha <= 1.0
    ensures Smoothed(prev, raw, alpha, n) - raw == Pow(1.0 - alpha, n) * (prev - raw)
    ensures 0.0 <= Pow(1.0 - alpha, n) <= 1.0
    ensures Pow(1.0 - alpha, n) * (1.0 + n as real * alpha) <= 1.0
  {
    SmoothedDistance(prev, raw, alpha, n);
    PowUnit(alpha, n);
    PowBound(alpha, n);
  }

  function Abs(v: real): real
  {
    if v >= 0.0 then v else -v
  }

  function Dist(a: real, b: real): real
  {
    Abs(a - b)
  }

  lemma AbsScale(p: real, d: real)
    requires p >= 0.0
    ensures Abs(p * d) == p * Abs(d)
  {
    if d >= 0.0 {
      MulNonNegative(p, d);
    } else {
      MulNonNegative(p, -d);
    }
  }

  lemma MulLessEq(x: real, y: real, z: real)
    requires x <= y && z >= 0.0
    ensures x * z <= y * z
  {
    MulNonNegative(y - x, z);
  }

  /**
   * Background replacement: per channel, `live*s + background*(1-s)` with s
   * the sigmoid of the mask at that pixel, written to a real-valued frame.
   */
  method ReplaceBackground(frame: array3<int>, background: array3<int>, sig: Mask)
    returns (out: array3<real>)
    requires SameDims(frame, background)
    requires MaskShape(sig, frame.Length0, frame.Length1)
    ensures fresh(out) && SameDims(out, frame)
    ensures forall y, x, c :: InBounds3(out, y, x, c) ==>
              out[y, x, c] == Mix(frame[y, x, c] as real, background[y, x, c] as real, sig[y][x])
  {
    out := new real[frame.Length0, frame.Length1, frame.Length2];
    for c := 0 to frame.Length2
      invariant forall y, x, k :: InBounds3(out, y, x, k) && k < c ==>
                  out[y, x, k] == Mix(frame[y, x, k] as real, background[y, x, k] as real, sig[y][x])
    {
      forall y, x | 0 <= y < frame.Length0 && 0 <= x < frame.Length1 {
        out[y, x, c] := Mix(frame[y, x, c] as real, background[y, x, c] as real, sig[y][x]);
      }
    }
  }

  /**
   * The foreground overlay: per channel, `frame*(1-m) + foreground*m` with m the
   * normalised foreground mask, written over the frame.
   */
  method ApplyForeground(frame: array3<real>, foreground: array3<int>, fgMask: Mask)
    requires SameDims(frame, foreground)
    requires MaskShape(fgMask, frame.Length0, frame.Length1)
    modifies frame
    ensures forall y, x, c :: InBounds3(frame, y, x, c) ==>
              frame[y, x, c] == Mix(foreground[y, x, c] as real, old(frame[y, x, c]), fgMask[y][x])
  {
    for c := 0 to frame.Length2
      invariant forall y, x, k :: InBounds3(frame, y, x, k) && k < c ==>
                  frame[y, x, k] == Mix(foreground[y, x, k] as real, old(frame[y, x, k]), fgMask[y][x])
      invariant forall y, x, k :: InBounds3(frame, y, x, k) && c <= k ==>
                  frame[y, x, k] == old(frame[y, x, k])
    {
      forall y, x | 0 <= y < frame.Length0 && 0 <= x < frame.Length1 {
        frame[y, x, c] := Mix(foreground[y, x, c] as real, frame[y, x, c], fgMask[y][x]);
      }
    }
  }

  /** The loaded foreground image and its normalised single-channel mask. */
  datatype Overlay = Overlay(image: array3<int>, mask: Mask)

  // ---------------------------------------------------------------------------
  // The FakeCam object: consumer count, pause flag, reloads and the stored mask
  // ---------------------------------------------------------------------------

  class FakeCam {
    const ondemand: bool
    const maskAlpha: real
    var consumers: int
    var paused: bool
    /** How many times load_images has run. */
    var reloads: nat
    var oldMask: Option<Mask>

    ghost predicate Valid()
      reads this
    {
      consumers >= 0
    }

    constructor (ondemand: bool, maskUpdateSpeed: int)
      ensures Valid()
      ensures this.ondemand == ondemand && maskAlpha == maskUpdateSpeed as real / 100.0
      ensures consumers == 0 && !paused && reloads == 0 && oldMask == None
    {
      this.ondemand := ondemand;
      maskAlpha := maskUpdateSpeed as real / 100.0;
      consumers := 0;
      paused := false;
      reloads := 0;
      oldMask := None;
    }

    /** The start of run: the images are loaded, and an on-demand camera starts paused. */
    method Start()
      requires Valid()
      modifies this`paused, this`reloads
      ensures Valid()
      ensures reloads == old(reloads) + 1
      ensures paused == (ondemand || old(paused))
    {
      reloads := reloads + 1;
      if ondemand {
        paused := true;
      }
    }

    /**
     * One inotify event: its flags move the count one by one (it may pass below
     * zero), then a positive count unpauses and reloads the images, and any
     * other count is reset to zero and pauses.
     */
    method HandleEvent(flags: seq<Flag>)
      requires Valid()
      modifies this`consumers, this`paused, this`reloads
      ensures Valid()
      ensures consumers == ConsumersAfter(old(consumers), flags)
      ensures paused == (consumers == 0)
      ensures reloads == old(reloads) + (if consumers > 0 then 1 else 0)
    {
      for i := 0 to |flags|
        invariant consumers == old(consumers) + Delta(flags[..i])
        invariant reloads == old(reloads)
      {
        assert flags[..i + 1][..i] == flags[..i];
        var flag := flags[i];
        if flag == CloseNoWrite || flag == CloseWrite {
          consumers := consumers - 1;
        }
        if flag == Open {
          consumers := consumers + 1;
        }
      }
      assert flags[..|flags|] == flags;
      if consumers > 0 {
        paused := false;
        reloads := reloads + 1;
      } else {
        consumers := 0;
        paused := true;
      }
    }

    /** One poll of the output device: every event of the batch is handled in order, on demand only. */
    method PollEvents(events: seq<seq<Flag>>)
      requires Valid()
      modifies this`consumers, this`paused, this`reloads
      ensures Valid()
      ensures !ondemand || events == [] ==>
                consumers == old(consumers) && paused == old(paused) && reloads == old(reloads)
      ensures ondemand ==> consumers == Replay(old(consumers), events)
      ensures ondemand ==> reloads == old(reloads) + ReplayReloads(old(consumers), events)
      ensures ondemand && events != [] ==> paused == (consumers == 0)
    {
      if ondemand {
        for i := 0 to |events|
          invariant Valid()
          invariant Replay(consumers, events[i..]) == Replay(old(consumers), events)
          invariant reloads + ReplayReloads(consumers, events[i..])
                    == old(reloads) + ReplayReloads(old(consumers), events)
          invariant i == 0 ==> consumers == old(consumers) && paused == old(paused)
          invariant i > 0 ==> paused == (consumers == 0)
        {
          assert events[i..][1..] == events[i + 1..];
          HandleEvent(events[i]);
        }
        assert events[|events|..] == [];
      }
    }

    /** The manual pause toggle: flips paused and reloads the images when it resumes. */
    method TogglePause()
      requires Valid()
      modifies this`paused, this`reloads
      ensures Valid()
      ensures paused == !old(paused) && consumers == old(consumers)
      ensures reloads == old(reloads) + (if paused then 0 else 1)
    {
      paused := !paused;
      if !paused {
        reloads := reloads + 1;
      }
    }

    /** The mask update at the head of compose_frame; it returns the mask the frame is blended with. */
    method UpdateMask(raw: Mask) returns (mask: Mask)
      requires oldMask.Some? ==> SameShape(oldMask.value, raw)
      modifies this`oldMask
      ensures oldMask == Some(SmoothMask(old(oldMask), raw, maskAlpha))
      ensures mask == oldMask.value
    {
      if oldMask.None? || maskAlpha == 1.0 {
        oldMask := Some(raw);
      } else if maskAlpha != 0.0 {
        oldMask := Some(MixMask(raw, oldMask.value, maskAlpha));
      }
      mask := oldMask.value;
    }

    /**
     * compose_frame without the hologram: smooth the mask, replace the
     * background using the sigmoid of the smoothed mask, then lay the
     * foreground over the result when one is loaded.
     */
    method ComposeFrame(frame: array3<int>, raw: Mask, background: array3<int>,
                        sigmoid: real -> real, overlay: Option<Overlay>)
      returns (out: array3<real>)
      requires MaskShape(raw, frame.Length0, frame.Length1)
      requires oldMask.Some? ==> SameShape(oldMask.value, raw)
      requires SameDims(frame, background)
      requires overlay.Some? ==> SameDims(overlay.value.image, frame)
                                 && MaskShape(overlay.value.mask, frame.Length0, frame.Length1)
      modifies this`oldMask
      ensures oldMask == Some(SmoothMask(old(oldMask), raw, maskAlpha))
      ensures fresh(out) && SameDims(out, frame)
      ensures forall y, x, c :: InBounds3(out, y, x, c) ==>
                var blended := Mix(frame[y, x, c] as real, background[y, x, c] as real,
                                   sigmoid(oldMask.value[y][x]));
                out[y, x, c] == (if overlay.None? then blended
                                 else Mix(overlay.value.image[y, x, c] as real, blended,
                                          overlay.value.mask[y][x]))
    {
      var mask := UpdateMask(raw);
      var sig := seq(|mask|, y requires 0 <= y < |mask| =>
                   seq(|mask[y]|, x requires 0 <= x < |mask[y]| => sigmoid(mask[y][x])));
      out := ReplaceBackground(frame, background, sig);
      if overlay.Some? {
        ApplyForeground(out, overlay.value.image, overlay.value.mask);
      }
    }
  }

  // ---------------------------------------------------------------------------
  // shift_image: translate with zero fill
  // ---------------------------------------------------------------------------

  /**
   * Along one axis of length n, the input index that output index i shows after
   * a shift by d, or None where the shift exposes i: the first d indices when
   * d > 0, the last -d indices when d < 0.
   */
  function ShiftSource(n: nat, d: int, i: int): (r: Option<int>)
    requires 0 <= i < n
    ensures r.Some? ==> 0 <= r.value < n && r.value + d == i
    ensures r.None? <==> Exposed(n, d, i)
  {
    if 0 <= i - d < n then Some(i - d) else None
  }

  /** The indices fake.py zero-fills: `[:d]` for d > 0 and `[d:]` for d < 0. */
  predicate Exposed(n: int, d: int, i: int)
  {
    (d > 0 && i < d) || (d < 0 && i >= n + d)
  }

  lemma ShiftByZero(n: nat, i: int)
    requires 0 <= i < n
    ensures ShiftSource(n, 0, i) == Some(i)
  {
  }

  function ShiftedPixel(img: array3<int>, dx: int, dy: int, y: int, x: int, c: int): int
    requires InBounds3(img, y, x, c)
    reads img
  {
    match (ShiftSource(img.Length0, dy, y), ShiftSource(img.Length1, dx, x))
    case (Some(sy), Some(sx)) => img[sy, sx, c]
    case _ => 0
  }

  /** A shift by zero in both directions shows every pixel of the input where it was. */
  lemma ShiftedPixelByZero(img: array3<int>, y: int, x: int, c: int)
    requires InBounds3(img, y, x, c)
    ensures ShiftedPixel(img, 0, 0, y, x, c) == img[y, x, c]
  {
    ShiftByZero(img.Length0, y);
    ShiftByZero(img.Length1, x);
  }

  /** np.roll along rows by dy and along columns by dx, into a new array. */
  method Roll(img: array3<int>, dx: int, dy: int) returns (out: array3<int>)
    ensures fresh(out) && SameDims(out, img)
    ensures forall y, x, c :: InBounds3(out, y, x, c) ==>
              out[y, x, c] == img[(y - dy) % img.Length0, (x - dx) % img.Length1, c]
  {
    var h, w := img.Length0, img.Length1;
    out := new int[h, w, img.Length2];
    forall y, x, c | 0 <= y < h && 0 <= x < w && 0 <= c < img.Length2 {
      out[y, x, c] := img[(y - dy) % h, (x - dx) % w, c];
    }
  }

  /** `img[:dy, :] = 0` for dy > 0, `img[dy:, :] = 0` for dy < 0. */
  method ZeroRows(img: array3<int>, dy: int)
    modifies img
    ensures forall y, x, c :: InBounds3(img, y, x, c) ==>
              img[y, x, c] == if Exposed(img.Length0, dy, y) then 0 else old(img[y, x, c])
  {
    if dy > 0 {
      forall y, x, c | 0 <= y < img.Length0 && 0 <= x < img.Length1 && 0 <= c < img.Length2 && y < dy {
        img[y, x, c] := 0;
      }
    } else if dy < 0 {
      forall y, x, c | 0 <= y < img.Length0 && 0 <= x < img.Length1 && 0 <= c < img.Length2 && img.Length0 + dy <= y {
        img[y, x, c] := 0;
      }
    }
  }

  /** `img[:, :dx] = 0` for dx > 0, `img[:, dx:] = 0` for dx < 0. */
  method ZeroColumns(img: array3<int>, dx: int)
    modifies img
    ensures forall y, x, c :: InBounds3(img, y, x, c) ==>
              img[y, x, c] == if Exposed(img.Length1, dx, x) then 0 else old(img[y, x, c])
  {
    if dx > 0 {
      forall y, x, c | 0 <= y < img.Length0 && 0 <= x < img.Length1 && 0 <= c < img.Length2 && x < dx {
        img[y, x, c] := 0;
      }
    } else if dx < 0 {
      forall y, x, c | 0 <= y < img.Length0 && 0 <= x < img.Length1 && 0 <= c < img.Length2 && img.Length1 + dx <= x {
        img[y, x, c] := 0;
      }
    }
  }

  /**
   * shift_image: roll the image by dy rows and dx columns, then zero the rows
   * and columns the roll brought round from the other edge.
   */
  method ShiftImage(img: array3<int>, dx: int, dy: int) returns (out: array3<int>)
    ensures fresh(out) && SameDims(out, img)
    ensures forall y, x, c :: InBounds3(out, y, x, c) ==> out[y, x, c] == ShiftedPixel(img, dx, dy, y, x, c)
    ensures dx == 0 && dy == 0 ==> forall y, x, c :: InBounds3(out, y, x, c) ==> out[y, x, c] == img[y, x, c]
  {
    out := Roll(img, dx, dy);
    ZeroRows(out, dy);
    ZeroColumns(out, dx);
    forall y, x, c | InBounds3(out, y, x, c)
      ensures out[y, x, c] == ShiftedPixel(img, dx, dy, y, x, c)
    {
      if ShiftSource(img.Length0, dy, y).Some? && ShiftSource(img.Length1, dx, x).Some? {
        ModUnique(y - dy, img.Length0, 0, y - dy);
        ModUnique(x - dx, img.Length1, 0, x - dx);
      }
    }
    if dx == 0 && dy == 0 {
      forall y, x, c | InBounds3(out, y, x, c)
        ensures out[y, x, c] == img[y, x, c]
      {
        ShiftedPixelByZero(img, y, x, c);
      }
    }
  }

  // ---------------------------------------------------------------------------
  // Static background: tiling and the keep-aspect crop
  // ---------------------------------------------------------------------------

  /**
   * The repeat count along one axis, `(target - 1) // size + 1`: the least
   * number of copies of size that covers target.
   */
  function TileReps(size: nat, target: nat): (reps: nat)
    requires size >= 1
    ensures reps * size >= target
    ensures (reps - 1) * size < target
  {
    CeilDiv(size, target);
    (target - 1) / size + 1
  }

  lemma CeilDiv(size: nat, target: nat)
    requires size >= 1
    ensures (target - 1) / size >= -1
    ensures ((target - 1) / size + 1) * size >= target
    ensures ((target - 1) / size) * size < target
  {
    var q, r := (target - 1) / size, (target - 1) % size;
    assert target - 1 == q * size + r && 0 <= r < size;
    assert (q + 1) * size == q * size + size;
  }

  /**
   * The tiling branch of load_images: np.tile repeats the image repy x repx
   * times, and the slice keeps exactly height x width of it.
   */
  method TileAndCrop(bg: array3<int>, height: nat, width: nat) returns (out: array3<int>)
    requires bg.Length0 >= 1 && bg.Length1 >= 1
    ensures fresh(out)
    ensures out.Length0 == height && out.Length1 == width && out.Length2 == bg.Length2
    ensures forall y, x, c :: InBounds3(out, y, x, c) ==>
              out[y, x, c] == bg[y % bg.Length0, x % bg.Length1, c]
  {
    var sizey, sizex := bg.Length0, bg.Length1;
    var repx := TileReps(sizex, width);
    var repy := TileReps(sizey, height);
    var tiled := new int[repy * sizey, repx * sizex, bg.Length2];
    forall y, x, c | 0 <= y < tiled.Length0 && 0 <= x < tiled.Length1 && 0 <= c < tiled.Length2 {
      tiled[y, x, c] := bg[y % sizey, x % sizex, c];
    }
    out := new int[height, width, bg.Length2];
    forall y, x, c | 0 <= y < out.Length0 && 0 <= x < out.Length1 && 0 <= c < out.Length2 {
      out[y, x, c] := tiled[y, x, c];
    }
  }

  /** A crop window `img[y0:y0+h, x0:x0+w]`. */
  datatype Window = Window(x0: int, y0: int, w: int, h: int)

  predicate WindowInside(win: Window, ih: int, iw: int)
  {
    0 <= win.x0 && 0 <= win.w && win.x0 + win.w <= iw &&
    0 <= win.y0 && 0 <= win.h && win.y0 + win.h <= ih
  }

  /**
   * The keep-aspect crop of resize_image: the scale that lets the image cover
   * the camera frame, the window of camera size divided by that scale, and
   * its offsets centred with the floor taken.
   */
  function CropWindow(height: nat, width: nat, ih: nat, iw: nat): (win: Window)
    requires height >= 1 && width >= 1 && ih >= 1 && iw >= 1
    ensures WindowInside(win, ih, iw)
    ensures win.w == iw || win.h == ih
    ensures win.x0 == (iw - win.w) / 2 && win.y0 == (ih - win.h) / 2
    ensures width * ih >= height * iw ==> win.w == iw && win.h == (height * iw) / width
    ensures width * ih <= height * iw ==> win.h == ih && win.w == (width * ih) / height
  {
    var sx, sy := width as real / iw as real, height as real / ih as real;
    var scale := MaxR(sx, sy);
    ScaledFits(width, iw, scale);
    ScaledFits(height, ih, scale);
    RatioOrder(width, iw, height, ih);
    ScaledAcross(width, iw, height);
    ScaledAcross(height, ih, width);
    var nw := (width as real / scale).Floor;
    var nh := (height as real / scale).Floor;
    CenteredOffset(iw, nw);
    CenteredOffset(ih, nh);
    Window((0.5 * iw as real - 0.5 * nw as real).Floor, (0.5 * ih as real - 0.5 * nh as real).Floor, nw, nh)
  }

  /** Divided by a scale at least target/size, the target fits in size, exactly so at that scale. */
  lemma ScaledFits(target: nat, size: nat, scale: real)
    requires target >= 1 && size >= 1 && scale >= target as real / size as real
    ensures 0.0 < target as real / scale <= size as real
    ensures 0 <= (target as real / scale).Floor <= size
    ensures scale == target as real / size as real ==> (target as real / scale).Floor == size
  {
    var t, s := target as real, size as real;
    assert t / s > 0.0;
    assert scale * s >= t;
    var q := t / scale;
    assert q * scale == t;
    if scale == t / s {
      assert q == s;
    }
  }

  /** Comparing the two scale factors is comparing the cross products. */
  lemma RatioOrder(a: nat, b: nat, c: nat, d: nat)
    requires b >= 1 && d >= 1
    ensures a as real / b as real >= c as real / d as real <==> a * d >= c * b
  {
    var x, y, k := a as real / b as real, c as real / d as real, (b * d) as real;
    assert k > 0.0;
    assert x * k == (a * d) as real;
    assert y * k == (c * b) as real;
    if x >= y {
      MulLessEq(y, x, k);
    } else {
      MulLessEq(x, y, k);
      assert x * k != y * k;
    }
  }

  /** Dividing o by the scale t/s and flooring gives the integer quotient (o*s) / t. */
  lemma ScaledAcross(t: nat, s: nat, o: nat)
    requires t >= 1 && s >= 1
    ensures (o as real / (t as real / s as real)).Floor == (o * s) / t
  {
    assert o as real / (t as real / s as real) == (o * s) as real / t as real;
    FloorDiv(o * s, t);
  }

  /** The floor of an exact quotient of naturals is their integer quotient. */
  lemma FloorDiv(a: nat, b: nat)
    requires b >= 1
    ensures (a as real / b as real).Floor == a / b
  {
    var q, r := a / b, a % b;
    assert a as real == q as real * b as real + r as real;
    assert a as real / b as real == q as real + r as real / b as real;
    assert 0.0 <= r as real / b as real < 1.0;
  }

  /** Half the margin, floored, as the real arithmetic of resize_image computes it. */
  lemma CenteredOffset(size: int, part: int)
    requires 0 <= part <= size
    ensures (0.5 * size as real - 0.5 * part as real).Floor == (size - part) / 2
  {
    var k := size - part;
    var q := k / 2;
    assert k == 2 * q + k % 2;
    assert 0.5 * size as real - 0.5 * part as real == q as real + 0.5 * (k % 2) as real;
  }

  /** What load_images does to a still background image before it is repeated forever. */
  datatype Plan =
    | ResizeWhole                            // cv2.resize to the camera size
    | CropAndResize(window: Window)          // crop, then cv2.resize
    | TileAndCropTo(repy: nat, repx: nat)    // np.tile, then slice

  /** resize_image: an error on a zero camera dimension, else a crop when keeping the aspect. */
  function ResizeImage(keepAspect: bool, ih: nat, iw: nat, height: nat, width: nat): (r: Result<Plan>)
    requires ih >= 1 && iw >= 1
    ensures r.Err? <==> width == 0 || height == 0
    ensures r.Err? ==> r.error == CameraDimensions
    ensures r.Ok? ==> (r.value.CropAndResize? <==> keepAspect) && (r.value.ResizeWhole? <==> !keepAspect)
    ensures r.Ok? && keepAspect ==> WindowInside(r.value.window, ih, iw)
    ensures r.Ok? && keepAspect ==>
              r.value.window.x0 == (iw - r.value.window.w) / 2 && r.value.window.y0 == (ih - r.value.window.h) / 2
    ensures r.Ok? && keepAspect && width * ih >= height * iw ==>
              r.value.window.w == iw && r.value.window.h == (height * iw) / width
    ensures r.Ok? && keepAspect && width * ih <= height * iw ==>
              r.value.window.h == ih && r.value.window.w == (width * ih) / height
  {
    if width == 0 || height == 0 then Err(CameraDimensions)
    else if keepAspect then Ok(CropAndResize(CropWindow(height, width, ih, iw)))
    else Ok(ResizeWhole)
  }

  /**
   * The still-image branch of load_images.  Tiling never fails and tiles unless
   * the image is larger than the camera frame in both axes.
   */
  function PlanStaticBackground(tiling: bool, keepAspect: bool, ih: nat, iw: nat, height: nat, width: nat)
    : (r: Result<Plan>)
    requires ih >= 1 && iw >= 1
    ensures !tiling ==> r == ResizeImage(keepAspect, ih, iw, height, width)
    ensures tiling ==> r.Ok? && (r.value.TileAndCropTo? <==> !(iw > width && ih > height))
    ensures tiling && r.value.TileAndCropTo? ==>
              r.value.repy * ih >= height && (r.value.repy - 1) * ih < height &&
              r.value.repx * iw >= width && (r.value.repx - 1) * iw < width
  {
    if !tiling then ResizeImage(keepAspect, ih, iw, height, width)
    else if iw > width && ih > height then Ok(ResizeWhole)
    else Ok(TileAndCropTo(TileReps(ih, height), TileReps(iw, width)))
  }

  // ---------------------------------------------------------------------------
  // Video background: frame-rate-adapted advance
  // ---------------------------------------------------------------------------

  /** Python's round on a float: the nearest integer, ties to the even one. */
  function RoundHalfEven(v: real): (r: int)
    ensures -0.5 <= r as real - v <= 0.5
    ensures (r as real - v == 0.5 || v - r as real == 0.5) ==> r % 2 == 0
  {
    var f := v.Floor;
    var d := v - f as real;
    if d < 0.5 then f
    else if d > 0.5 then f + 1
    else if f % 2 == 0 then f else f + 1
  }

  /** Only one integer is within 1/2 of v and even on a tie, so RoundHalfEven is that integer. */
  lemma RoundHalfEvenUnique(v: real, k: int)
    requires -0.5 <= k as real - v <= 0.5
    requires (k as real - v == 0.5 || v - k as real == 0.5) ==> k % 2 == 0
    ensures k == RoundHalfEven(v)
  {
    var r := RoundHalfEven(v);
    assert -1.0 <= (k - r) as real <= 1.0;
  }

  /**
   * The frames next_frame advances: with rate bg_fps / current_fps below 1,
   * one frame when the uniform draw u is below the rate and none otherwise;
   * from 1 up, the rate rounded half to even. The draw is uniform on [0,1).
   */
  function AdvanceCount(bgFps: real, currentFps: real, u: real): (n: nat)
    requires bgFps >= 0.0 && currentFps > 0.0 && 0.0 <= u < 1.0
    ensures bgFps / currentFps < 1.0 ==> n <= 1 && (n == 1 <==> u < bgFps / currentFps)
    ensures bgFps / currentFps >= 1.0 ==> n >= 1 && n == RoundHalfEven(bgFps / currentFps)
    ensures bgFps / currentFps >= 1.0 ==> -0.5 <= n as real - bgFps / currentFps <= 0.5
  {
    var rate := bgFps / currentFps;
    if rate < 1.0 then (if u < rate then 1 else 0)
    else RoundHalfEven(rate)
  }

  /** A video at 30 fps in a 10 fps pipeline moves 3 frames a call; at 10 fps in a 30 fps one, 0 or 1. */
  lemma AdvanceCadence(u: real)
    requires 0.0 <= u < 1.0
    ensures AdvanceCount(30.0, 10.0, u) == 3
    ensures AdvanceCount(10.0, 30.0, u) == (if u < 1.0 / 3.0 then 1 else 0)
  {
    RoundHalfEvenUnique(3.0, 3);
  }

  /** At the start current_fps equals bg_fps, so the first call reads exactly one frame. */
  lemma FirstAdvanceReadsOne(bgFps: real, u: real)
    requires bgFps > 0.0 && 0.0 <= u < 1.0
    ensures AdvanceCount(bgFps, bgFps, u) == 1
  {
    assert bgFps / bgFps == 1.0;
    RoundHalfEvenUnique(1.0, 1);
  }

  lemma MulAtLeast(n: int, k: int)
    requires n >= 1 && k >= 1
    ensures n * k >= n
  {
  }

  lemma Distribute(n: int, q: int, q': int)
    ensures n * q - n * q' == n * (q - q')
  {
  }

  /** Euclidean division leaves one remainder: a == n*q + r with 0 <= r < n fixes a % n. */
  lemma ModUnique(a: int, n: int, q: int, r: int)
    requires n >= 1 && a == n * q + r && 0 <= r < n
    ensures a % n == r
  {
    var q' := a / n;
    Distribute(n, q, q');
    if q > q' {
      MulAtLeast(n, q - q');
    } else if q < q' {
      MulAtLeast(n, q' - q);
      Distribute(n, q', q);
    }
  }

  /** Stepping past a frame index and wrapping agrees with stepping the unwrapped count. */
  lemma ModSucc(a: int, n: int)
    requires n >= 1
    ensures ((a % n) + 1) % n == (a + 1) % n
  {
    var q, r := a / n, a % n;
    if r + 1 < n {
      ModUnique(r + 1, n, 0, r + 1);
      ModUnique(a + 1, n, q, r + 1);
    } else {
      ModUnique(r + 1, n, 1, 0);
      ModUnique(a + 1, n, q + 1, 0);
    }
  }

  /**
   * The state of the next_frame generator over a looping video: the capture's
   * read position, the last frame it yielded, and the rates FakeCam keeps.
   * Frames are named by their index in the video.
   */
  class VideoBackground {
    const frameCount: nat
    const bgFps: real
    var currentFps: real
    var advRate: int
    /** Index of the frame the capture reads next. */
    var pos: nat
    /** The generator's local `frame`. */
    var frame: Option<nat>

    ghost predicate Valid()
      reads this
    {
      pos <= frameCount && bgFps >= 0.0 && currentFps >= 0.0
    }

    constructor (frameCount: nat, bgFps: real)
      requires bgFps >= 0.0
      ensures Valid()
      ensures this.frameCount == frameCount && this.bgFps == bgFps && currentFps == bgFps
      ensures pos == 0 && frame == None && advRate == 0
    {
      this.frameCount := frameCount;
      this.bgFps := bgFps;
      currentFps := bgFps;
      advRate := 0;
      pos := 0;
      frame := None;
    }

    /** The measured pipeline rate run stores once a reporting period has passed. */
    method ReportFps(frames: nat, elapsed: real)
      requires Valid()
      requires frames >= 1 && elapsed > 1.0
      modifies this`currentFps
      ensures Valid()
      ensures currentFps == frames as real / elapsed && currentFps > 0.0
    {
      currentFps := frames as real / elapsed;
    }

    /** read_frame: read the next frame, rewinding to frame 0 at the end of the video. */
    method ReadFrame() returns (r: Result<nat>)
      requires Valid()
      modifies this`pos
      ensures Valid()
      ensures frameCount == 0 ==> r == Err(EmptyVideo) && pos == old(pos)
      ensures frameCount > 0 ==> r == Ok(old(pos) % frameCount) && pos == r.value + 1
    {
      if pos >= frameCount {
        pos := 0;
      }
      if pos < frameCount {
        r := Ok(pos);
        pos := pos + 1;
      } else {
        r := Err(EmptyVideo);
      }
    }

    /**
     * One step of next_frame: compute the advance from the two rates and the
     * draw u, read that many frames, and yield the last frame read (the
     * previous one when the advance is 0).
     */
    method NextFrame(u: real) returns (r: Result<nat>)
      requires Valid() && 0.0 <= u < 1.0
      modifies this`pos, this`frame, this`advRate
      ensures Valid()
      ensures old(currentFps) == 0.0 ==>
                r == Err(ZeroFrameRate) && pos == old(pos) && frame == old(frame) && advRate == old(advRate)
      ensures currentFps > 0.0 ==> advRate == AdvanceCount(bgFps, currentFps, u)
      ensures currentFps > 0.0 && advRate == 0 ==>
                pos == old(pos) && frame == old(frame)
                && r == (if frame.Some? then Ok(frame.value) else Err(FrameUnbound))
      ensures currentFps > 0.0 && advRate > 0 && frameCount == 0 ==>
                r == Err(EmptyVideo) && pos == old(pos) && frame == old(frame)
      ensures currentFps > 0.0 && advRate > 0 && frameCount > 0 ==>
                r == Ok((old(pos) + advRate - 1) % frameCount)
                && frame == Some(r.value) && pos == r.value + 1
    {
      if currentFps == 0.0 {
        return Err(ZeroFrameRate);
      }
      advRate := AdvanceCount(bgFps, currentFps, u);
      var i := 0;
      while i < advRate
        invariant Valid()
        invariant advRate == AdvanceCount(bgFps, currentFps, u)
        invariant 0 <= i <= advRate
        invariant i == 0 ==> pos == old(pos) && frame == old(frame)
        invariant i > 0 ==> frameCount > 0
        invariant i > 0 ==> frame == Some((old(pos) + i - 1) % frameCount) && pos == frame.value + 1
      {
        var f := ReadFrame();
        if f.Err? {
          return f;
        }
        if i > 0 {
          ModSucc(old(pos) + i - 1, frameCount);
        }
        frame := Some(f.value);
        i := i + 1;
      }
      r := if frame.Some? then Ok(frame.value) else Err(FrameUnbound);
    }
  }

  // ---------------------------------------------------------------------------
  // Hologram halftone bands
  // ---------------------------------------------------------------------------

  const BandLength: nat := 3
  const BandGap: nat := 4

  /** The rows the halftone darkens: the first 3 of every 7. */
  predicate InBand(y: nat)
  {
    y % (BandLength + BandGap) < BandLength
  }

  /** numpy's float-to-integer cast, toward zero. */
  function Trunc(v: real): int
  {
    if v >= 0.0 then v.Floor else -((-v).Floor)
  }

  /** A pixel value scaled by the row's random factor and cast back to an integer. */
  function Darken(p: int, factor: real): (r: int)
    ensures 0 <= p && 0.0 <= factor <= 1.0 ==> 0 <= r <= p
  {
    var v := p as real * factor;
    if 0 <= p && 0.0 <= factor <= 1.0 then
      MulNonNegative(p as real, factor);
      MulLessEq(factor, 1.0, p as real);
      assert 0.0 <= v <= p as real;
      Trunc(v)
    else
      Trunc(v)
  }

  /** The halftone loop of hologram_effect: every band row is scaled by its own draw. */
  method Halftone(holo: array3<int>, factors: seq<real>)
    requires |factors| == holo.Length0
    modifies holo
    ensures forall y, x, c :: InBounds3(holo, y, x, c) ==>
              holo[y, x, c] == if InBand(y) then Darken(old(holo[y, x, c]), factors[y]) else old(holo[y, x, c])
  {
    for y := 0 to holo.Length0
      invariant forall y', x, c :: InBounds3(holo, y', x, c) && y' < y ==>
                  holo[y', x, c] == if InBand(y') then Darken(old(holo[y', x, c]), factors[y']) else old(holo[y', x, c])
      invariant forall y', x, c :: InBounds3(holo, y', x, c) && y <= y' ==> holo[y', x, c] == old(holo[y', x, c])
    {
      if InBand(y) {
        forall x, c | 0 <= x < holo.Length1 && 0 <= c < holo.Length2 {
          holo[y, x, c] := Darken(holo[y, x, c], factors[y]);
        }
      }
    }
  }

  /** The number of band rows among the first n rows, which the closed form PeriodCount gives. */
  function BandRows(n: nat): (k: nat)
    ensures k == PeriodCount(n)
  {
    if n == 0 then 0
    else
      RowStep(n - 1);
      BandRows(n - 1) + (if InBand(n - 1) then 1 else 0)
  }

  /** 3 band rows per full period of 7 rows, plus up to 3 from the partial period. */
  function PeriodCount(n: nat): nat
  {
    3 * (n / 7) + Min(n % 7, 3)
  }

  /** Moving down one row adds one to the closed form exactly when the row is a band row. */
  lemma RowStep(m: nat)
    ensures PeriodCount(m + 1) == PeriodCount(m) + (if InBand(m) then 1 else 0)
  {
    var q, r := m / 7, m % 7;
    if r < 6 {
      ModUnique(m + 1, 7, q, r + 1);
      assert (m + 1) / 7 == q;
    } else {
      ModUnique(m + 1, 7, q + 1, 0);
      assert (m + 1) / 7 == q + 1;
    }
  }

  /** Every full period of 7 rows holds exactly 3 band rows. */
  lemma BandRowsPeriod(k: nat)
    ensures BandRows(7 * k) == 3 * k
  {
    ModUnique(7 * k, 7, k, 0);
  }
}
