/** The transforms of the bot's image-processing module: channel extraction,
    the argument rules of blur, sharpen, threshold and rotate, and the
    repeated filtering loop of sharpen. OpenCV's own routines (colour
    conversion, box blur, filter2D, threshold) are opaque function
    parameters; only the code around them is modelled. */
module ImgProc {
  import opened Wrappers
  import opened Text
  import opened Pattern
  import opened Grid

  type Byte = b: int | 0 <= b < 256

  /** A decoded image: a 2-D array of samples, or a 3-D array whose third
      axis holds each pixel's channels in B, G, R order. */
  datatype Frame =
    | Plane(samples: seq<seq<Byte>>)
    | Pixels(pixels: seq<seq<seq<Byte>>>)

  // ---------------------------------------------------------------- channels

  /** Every pixel of the colour frame has more than k channels. */
  predicate HasChannel(p: seq<seq<seq<Byte>>>, k: nat) {
    forall i, j :: 0 <= i < |p| && 0 <= j < |p[i]| ==> k < |p[i][j]|
  }

  /** out is channel k of the colour frame f, verbatim, at the same height and width. */
  predicate IsChannelOf(out: Frame, f: Frame, k: nat)
    requires f.Pixels? && HasChannel(f.pixels, k)
  {
    && out.Plane?
    && |out.samples| == |f.pixels|
    && (forall i :: 0 <= i < |f.pixels| ==> |out.samples[i]| == |f.pixels[i]|)
    && (forall i, j :: 0 <= i < |f.pixels| && 0 <= j < |f.pixels[i]| ==> out.samples[i][j] == f.pixels[i][j][k])
  }

  /** frame[:, :, k]: the k-th channel as a plane of the same height and
      width; indexing a 2-D frame with three indices, or past the last
      channel, raises IndexError. */
  function Channel(f: Frame, k: nat): (r: Result<Frame>)
    ensures r.Ok? <==> f.Pixels? && HasChannel(f.pixels, k)
    ensures r.Err? ==> r.error == IndexError
    ensures r.Ok? ==> IsChannelOf(r.value, f, k)
  {
    match f
    case Plane(_) => Err(IndexError)
    case Pixels(p) =>
      if HasChannel(p, k) then
        Ok(Plane(seq(|p|, i requires 0 <= i < |p| =>
          seq(|p[i]|, j requires 0 <= j < |p[i]| => p[i][j][k]))))
      else Err(IndexError)
  }

  /** red = frame[:, :, 2] */
  function Red(f: Frame): (r: Result<Frame>)
    ensures r.Ok? <==> f.Pixels? && HasChannel(f.pixels, 2)
    ensures r.Ok? ==> IsChannelOf(r.value, f, 2)
  {
    Channel(f, 2)
  }

  /** green = frame[:, :, 1] */
  function Green(f: Frame): (r: Result<Frame>)
    ensures r.Ok? <==> f.Pixels? && HasChannel(f.pixels, 1)
    ensures r.Ok? ==> IsChannelOf(r.value, f, 1)
  {
    Channel(f, 1)
  }

  /** blue = frame[:, :, 0] */
  function Blue(f: Frame): (r: Result<Frame>)
    ensures r.Ok? <==> f.Pixels? && HasChannel(f.pixels, 0)
    ensures r.Ok? ==> IsChannelOf(r.value, f, 0)
  {
    Channel(f, 0)
  }

  /** On a three-channel frame the blue, green and red planes together hold
      every pixel: nothing is lost by splitting. */
  lemma ChannelsRebuildPixel(f: Frame, i: nat, j: nat)
    requires f.Pixels? && i < |f.pixels| && j < |f.pixels[i]|
    requires forall a, b :: 0 <= a < |f.pixels| && 0 <= b < |f.pixels[a]| ==> |f.pixels[a][b]| == 3
    ensures Blue(f).Ok? && Green(f).Ok? && Red(f).Ok?
    ensures f.pixels[i][j] ==
      [Blue(f).value.samples[i][j], Green(f).value.samples[i][j], Red(f).value.samples[i][j]]
  {
  }

  /** hue, sat, val = hsv(frame)[:, :, k], where hsv is cv2.cvtColor(frame, COLOR_BGR2HSV). */
  function HsvChannel(f: Frame, hsv: Frame -> Result<Frame>, k: nat): (r: Result<Frame>)
    ensures hsv(f).Err? ==> r == Err(hsv(f).error)
    ensures hsv(f).Ok? ==> r == Channel(hsv(f).value, k)
  {
    match hsv(f)
    case Err(e) => Err(e)
    case Ok(h) => Channel(h, k)
  }

  function Hue(f: Frame, hsv: Frame -> Result<Frame>): Result<Frame> { HsvChannel(f, hsv, 0) }
  function Sat(f: Frame, hsv: Frame -> Result<Frame>): Result<Frame> { HsvChannel(f, hsv, 1) }
  function Val(f: Frame, hsv: Frame -> Result<Frame>): Result<Frame> { HsvChannel(f, hsv, 2) }

  // ---------------------------------------------------------------- blur

  /** The side of get_blur's square kernel: int(ksize), where the default
      ksize is the integer 3. A token int() rejects is an error, not the default. */
  function BlurSize(ksize: Option<string>): Result<int> {
    match ksize
    case None => Ok(3)
    case Some(s) => ParseInt(s)
  }

  /** The kernel is 3 by default and n for the numeral of n. */
  lemma BlurSizeOfNumeral(n: int)
    ensures BlurSize(None) == Ok(3)
    ensures BlurSize(Some(ShowInt(n))) == Ok(n)
  {
    IntOfStr(n);
  }

  /** A token without any digit raises ValueError. */
  lemma BlurSizeNeedsDigit(s: string)
    requires forall i :: 0 <= i < |s| ==> !IsDigit(s[i])
    ensures BlurSize(Some(s)) == Err(ValueError)
  {
    if ParseInt(s).Ok? { ParseNeedsDigit(s); }
  }

  /** get_blur(frame, ksize) = cv2.blur(frame, (k, k)). */
  function GetBlur<I>(frame: I, ksize: Option<string>, blur: (I, int, int) -> I): (r: Result<I>)
    ensures r.Ok? <==> BlurSize(ksize).Ok?
    ensures r.Ok? ==> r.value == blur(frame, BlurSize(ksize).value, BlurSize(ksize).value)
  {
    match BlurSize(ksize)
    case Err(e) => Err(e)
    case Ok(k) => Ok(blur(frame, k, k))
  }

  // ---------------------------------------------------------------- repeated filtering

  /** x after n applications of f. */
  function Iterate<I>(f: I -> I, x: I, n: nat): I {
    if n == 0 then x else f(Iterate(f, x, n - 1))
  }

  /** len(range(lo, hi)). */
  function RangeLength(lo: int, hi: int): nat {
    if lo < hi then hi - lo else 0
  }

  /** for _ in range(1, lvl): img = filter(img), where filter is
      cv2.filter2D(img, -1, kernel) with the fixed 3x3 sharpening kernel. */
  method FilterPasses<I>(frame: I, lvl: int, filter: I -> I) returns (img: I)
    ensures img == Iterate(filter, frame, RangeLength(1, lvl))
  {
    img := frame;
    var k := 1;
    while k < lvl
      invariant 1 <= k <= if lvl < 1 then 1 else lvl
      invariant img == Iterate(filter, frame, k - 1)
    {
      img := filter(img);
      k := k + 1;
    }
  }

  /** lvl = int(i), then lowered to 10 when above; the default i is 1. */
  function SharpLevel(i: Option<string>): Result<int> {
    match i
    case None => Ok(1)
    case Some(s) =>
      match ParseInt(s)
      case Err(e) => Err(e)
      case Ok(n) => Ok(if n > 10 then 10 else n)
  }

  /** get_sharp applies the filter max(0, min(n, 10) - 1) times for the numeral
      of n: never more than nine times, and not at all for n <= 1 or by default. */
  lemma SharpPassCount(n: int)
    ensures SharpLevel(Some(ShowInt(n))).Ok?
    ensures var lvl := SharpLevel(Some(ShowInt(n))).value;
      RangeLength(1, lvl) == (if n > 10 then 9 else if n > 1 then n - 1 else 0)
    ensures SharpLevel(None) == Ok(1) && RangeLength(1, 1) == 0
  {
    IntOfStr(n);
  }

  lemma SharpAtMostNine(i: Option<string>)
    requires SharpLevel(i).Ok?
    ensures RangeLength(1, SharpLevel(i).value) <= 9
  {
  }

  /** get_sharp(frame, i). */
  method GetSharp<I>(frame: I, i: Option<string>, filter: I -> I) returns (r: Result<I>)
    ensures r.Ok? <==> SharpLevel(i).Ok?
    ensures r.Ok? ==> r.value == Iterate(filter, frame, RangeLength(1, SharpLevel(i).value))
    ensures r.Ok? && SharpLevel(i).value <= 1 ==> r.value == frame
  {
    match SharpLevel(i)
    case Err(e) => r := Err(e);
    case Ok(lvl) =>
      var img := FilterPasses(frame, lvl, filter);
      r := Ok(img);
  }

  // ---------------------------------------------------------------- threshold

  /** cv2.THRESH_BINARY .. cv2.THRESH_TOZERO_INV. */
  datatype ThreshMode = Binary | BinaryInv | Trunc | ToZero | ToZeroInv

  /** The integer value of each OpenCV constant. */
  function ModeCode(m: ThreshMode): nat {
    match m
    case Binary => 0
    case BinaryInv => 1
    case Trunc => 2
    case ToZero => 3
    case ToZeroInv => 4
  }

  /** The pattern table of get_threshold, in its order. */
  const ThreshTypes: seq<(Pattern, ThreshMode)> := [
    (AtStart("bin"), Binary),
    (Anywhere("bininv"), BinaryInv),
    (Anywhere("trunc"), Trunc),
    (AtStart("tozero"), ToZero),
    (Anywhere("tozeroinv"), ToZeroInv)
  ]

  const Cutoff := 127
  const MaxValue := 255

  /** The variable thresh_type: the argument text until a pattern matches,
      then the integer constant of the matched mode. */
  datatype ThreshVar = Text(text: string) | Code(mode: ThreshMode)

  /** str(thresh_type). */
  function Str(v: ThreshVar): string {
    match v
    case Text(s) => s
    case Code(m) => ShowInt(ModeCode(m))
  }

  /** The mode of the earliest table entry whose pattern matches s. */
  function FirstMode(types: seq<(Pattern, ThreshMode)>, s: string): Option<ThreshMode>
    decreases |types|
  {
    if types == [] then None
    else
      var earlier := FirstMode(types[..|types| - 1], s);
      if earlier.Some? then earlier
      else if Search(types[|types| - 1].0, s) then Some(types[|types| - 1].1)
      else None
  }

  /** FirstMode picks the entry with the smallest index that matches. */
  lemma {:induction false} FirstModeIsEarliest(types: seq<(Pattern, ThreshMode)>, s: string)
    ensures FirstMode(types, s).None? <==> forall k :: 0 <= k < |types| ==> !Search(types[k].0, s)
    ensures FirstMode(types, s).Some? ==>
              exists k :: (0 <= k < |types| && Search(types[k].0, s)
                && types[k].1 == FirstMode(types, s).value
                && forall j :: 0 <= j < k ==> !Search(types[j].0, s))
    decreases |types|
  {
    if types != [] {
      var init := types[..|types| - 1];
      FirstModeIsEarliest(init, s);
      assert forall k :: 0 <= k < |init| ==> init[k] == types[k];
      if FirstMode(init, s).Some? {
        var k :| 0 <= k < |init| && Search(init[k].0, s) && init[k].1 == FirstMode(init, s).value
                 && forall j :: 0 <= j < k ==> !Search(init[j].0, s);
        assert Search(types[k].0, s);
      }
    }
  }

  /** The entry at k decides when it matches and no earlier one does. */
  lemma FirstModeAt(types: seq<(Pattern, ThreshMode)>, s: string, k: nat)
    requires k < |types| && Search(types[k].0, s)
    requires forall j :: 0 <= j < k ==> !Search(types[j].0, s)
    ensures FirstMode(types, s) == Some(types[k].1)
  {
    FirstModeIsEarliest(types, s);
  }

  /** The mode get_threshold passes to cv2.threshold: BINARY when the
      argument is None, else the earliest matching entry; None when nothing
      matches (the text itself is then passed on, and OpenCV rejects it). */
  function ThresholdMode(threshType: Option<string>): Option<ThreshMode> {
    match threshType
    case None => Some(Binary)
    case Some(s) => FirstMode(ThreshTypes, s)
  }

  /** A mode's integer constant, once stored, matches none of the patterns. */
  lemma CodesMatchNothing(m: ThreshMode, k: nat)
    requires k < |ThreshTypes|
    ensures !Search(ThreshTypes[k].0, ShowInt(ModeCode(m)))
  {
    assert |ShowInt(ModeCode(m))| == 1;
    ShortTextNeverMatches(ThreshTypes[k].0, ShowInt(ModeCode(m)));
  }

  /** get_threshold(frame, thresh_type) = cv2.threshold(grey(frame), 127, 255, mode).
      The loop tests every entry against str(thresh_type); after the first
      match the variable holds an integer whose decimal form matches no
      entry, so the earliest match decides. An argument that matches nothing
      is passed through as text, which cv2.threshold rejects with TypeError. */
  method GetThreshold<I, J>(frame: I, threshType: Option<string>, grey: I -> J,
                            threshold: (J, int, int, ThreshMode) -> J) returns (r: Result<J>)
    ensures r.Ok? <==> ThresholdMode(threshType).Some?
    ensures r.Err? ==> r.error == TypeError
    ensures r.Ok? ==> r.value == threshold(grey(frame), Cutoff, MaxValue, ThresholdMode(threshType).value)
  {
    var v: ThreshVar;
    if threshType.None? {
      v := Code(Binary);
    } else {
      var s := threshType.value;
      v := Text(s);
      for k := 0 to |ThreshTypes|
        invariant v == match FirstMode(ThreshTypes[..k], s) { case None => Text(s) case Some(m) => Code(m) }
      {
        assert ThreshTypes[..k + 1][..k] == ThreshTypes[..k];
        if Search(ThreshTypes[k].0, Str(v)) {
          if v.Code? { CodesMatchNothing(v.mode, k); }
          v := Code(ThreshTypes[k].1);
        } else if v.Code? {
          CodesMatchNothing(v.mode, k);
        }
      }
      assert ThreshTypes[..|ThreshTypes|] == ThreshTypes;
    }
    match v
    case Text(_) => r := Err(TypeError);
    case Code(m) => r := Ok(threshold(grey(frame), Cutoff, MaxValue, m));
  }

  /** The default argument selects BINARY. */
  lemma ThresholdDefault()
    ensures ThresholdMode(None) == Some(Binary)
  {
  }

  /** "bininv" starts with "bin", so the earliest entry decides: BINARY, not BINARY_INV. */
  lemma ThresholdBininv()
    ensures ThresholdMode(Some("bininv")) == Some(Binary)
  {
    FirstModeAt(ThreshTypes, "bininv", 0);
  }

  // The worked examples below name their text s and fix it with
  // `requires s == "..."`, so that the proof works from a few facts about s
  // instead of unfolding the literal into every clause; this keeps them cheap.
  /** "tozeroinv" is caught by "^tozero" before "tozeroinv" is tried. */
  lemma TozeroinvMatches(s: string)
    requires s == "tozeroinv"
    ensures !Search(AtStart("bin"), s) && !Search(Anywhere("bininv"), s)
    ensures !Search(Anywhere("trunc"), s) && Search(AtStart("tozero"), s)
  {
    assert Lower(s) == s;
    NotAtStart("bin", s);
    LetterAbsent("bininv", s, 0);
    LetterAbsent("trunc", s, 2);
    StartsWithIsPrefix("tozero", s);
  }

  lemma ThresholdTozeroinv(s: string)
    requires s == "tozeroinv"
    ensures ThresholdMode(Some(s)) == Some(ToZero)
  {
    TozeroinvMatches(s);
    forall j | 0 <= j < 3 ensures !Search(ThreshTypes[j].0, s) {
      if j == 0 {} else if j == 1 {} else {}
    }
    FirstModeAt(ThreshTypes, s, 3);
  }

  /** Without a leading "bin" the unanchored "bininv" entry is reached. */
  lemma ThresholdXbininv(s: string)
    requires s == "xbininv"
    ensures ThresholdMode(Some(s)) == Some(BinaryInv)
  {
    assert Lower(s) == s;
    NotAtStart("bin", s);
    FoundAt("bininv", s, 1);
    forall j | 0 <= j < 1 ensures !Search(ThreshTypes[j].0, s) {
    }
    FirstModeAt(ThreshTypes, s, 1);
  }

  /** Matching ignores case. */
  lemma ThresholdUpperCase()
    ensures ThresholdMode(Some("TRUNC")) == Some(Trunc)
  {
    assert Lower("TRUNC") == "trunc";
    assert !Search(ThreshTypes[0].0, "TRUNC") && !Search(ThreshTypes[1].0, "TRUNC");
    assert Search(ThreshTypes[2].0, "TRUNC");
    FirstModeAt(ThreshTypes, "TRUNC", 2);
  }

  /** A text no entry matches yields no mode. */
  lemma ThresholdUnknown()
    ensures ThresholdMode(Some("otsu")) == None
  {
    assert forall k :: 0 <= k < |ThreshTypes| ==> !Search(ThreshTypes[k].0, "otsu");
    FirstModeIsEarliest(ThreshTypes, "otsu");
  }

  // ---------------------------------------------------------------- rotation

  const RotCw := Either(Anywhere("right"), AtStart("cw"))
  const RotCcw := Either(Anywhere("left"), AtStart("ccw"))

  /** The turn get_rotated asks cv2.rotate for: clockwise for "right"
      anywhere or a text starting with "cw" (tested first), counter-clockwise
      for "left" anywhere or a text starting with "ccw", none otherwise; the
      default argument is "cw". */
  function RotationFor(x: Option<string>): Option<Rotation> {
    var t := if x.None? then "cw" else x.value;
    if Search(RotCw, t) then Some(Clockwise)
    else if Search(RotCcw, t) then Some(CounterClockwise)
    else None
  }

  /** get_rotated(frame, x) on an h-by-w frame; None when no direction matched. */
  function GetRotated<T>(g: seq<seq<T>>, h: nat, w: nat, x: Option<string>): (r: Option<seq<seq<T>>>)
    requires IsGrid(g, h, w)
    ensures r.Some? <==> RotationFor(x).Some?
    ensures r.Some? ==> IsGrid(r.value, w, h)
    ensures r.Some? ==> r.value == Turn(g, h, w, RotationFor(x).value)
  {
    match RotationFor(x)
    case None => None
    case Some(d) => Some(Turn(g, h, w, d))
  }

  /** Rotating by the default and then by "ccw" gives the frame back. */
  lemma RotateThereAndBack<T>(g: seq<seq<T>>, h: nat, w: nat)
    requires IsGrid(g, h, w)
    ensures GetRotated(g, h, w, None).Some?
    ensures GetRotated(GetRotated(g, h, w, None).value, w, h, Some("ccw")) == Some(g)
  {
    assert Lower("cw") == "cw" && Lower("ccw") == "ccw";
    assert Search(RotCw, "cw");
    LetterAbsent("right", "ccw", 0);
    assert !Search(RotCw, "ccw");
    assert Search(RotCcw, "ccw");
    TurnRoundTrip(g, h, w);
  }

  /** "Right" turns clockwise, whatever its case. */
  lemma RotateRight(s: string)
    requires s == "Right"
    ensures RotationFor(Some(s)) == Some(Clockwise)
  {
    assert Lower(s) == "right";
    FoundAt("right", s, 0);
  }

  /** "LEFT" turns counter-clockwise. */
  lemma RotateLeft(s: string)
    requires s == "LEFT"
    ensures RotationFor(Some(s)) == Some(CounterClockwise)
  {
    assert Lower(s) == "left";
    LetterAbsent("right", s, 0);
    NotAtStart("cw", s);
    FoundAt("left", s, 0);
  }

  /** "xccw" holds neither "left" nor a leading "ccw" (nor "right" or a
      leading "cw"), so it selects no turn. */
  lemma RotateNowhere(s: string)
    requires s == "xccw"
    ensures RotationFor(Some(s)) == None
  {
    assert Lower(s) == s;
    LetterAbsent("right", s, 0);
    NotAtStart("cw", s);
    LetterAbsent("left", s, 0);
    NotAtStart("ccw", s);
  }

  /** Counter-clockwise exactly when neither clockwise alternative matches
      and one of the counter-clockwise ones does. */
  lemma CounterClockwiseIff(s: string)
    ensures RotationFor(Some(s)) == Some(CounterClockwise) <==>
      !Search(Anywhere("right"), s) && !Search(AtStart("cw"), s) &&
      (Search(Anywhere("left"), s) || Search(AtStart("ccw"), s))
  {
  }
}
