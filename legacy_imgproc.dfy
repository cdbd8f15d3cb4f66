/** The older copy of the image-processing module. Its transforms take an
    optional args value and read args[0]; the channel lambdas and the
    spectrum code are the same as in the newer copy and are shared (ImgProc's
    channels, Spectrum). What differs is modelled here: the blur and sharpen
    argument rules and the rotation regexes. */
module LegacyImgProc {
  import opened Wrappers
  import opened Text
  import opened Pattern
  import opened Grid
  import opened ImgProc

  /** What args can be: a list of argument strings, or a bare string, whose
      first element is its first character. */
  datatype Args = Items(items: seq<string>) | Word(word: string)

  /** args[0]; IndexError on an empty list or an empty string. */
  function First(args: Args): (r: Result<string>)
    ensures r.Err? <==> (args.Items? && args.items == []) || (args.Word? && args.word == "")
    ensures r.Err? ==> r.error == IndexError
    ensures r.Ok? && args.Items? ==> r.value == args.items[0]
    ensures r.Ok? && args.Word? ==> |r.value| == 1 && r.value[0] == args.word[0]
  {
    match args
    case Items(xs) => if xs == [] then Err(IndexError) else Ok(xs[0])
    case Word(s) => if s == "" then Err(IndexError) else Ok([s[0]])
  }

  /** int(args[0]) when args is given. */
  function FirstInt(args: Args): Result<int> {
    match First(args)
    case Err(e) => Err(e)
    case Ok(t) => ParseInt(t)
  }

  // ---------------------------------------------------------------- blur

  /** ksize = int(args[0]) if args is not None else 3. */
  function LegacyBlurSize(args: Option<Args>): Result<int> {
    if args.None? then Ok(3) else FirstInt(args.value)
  }

  /** The default is 3; a list holding the numeral of n gives n; a bare
      string gives the value of its first character only, so "15" gives 1. */
  lemma LegacyBlurSizes(n: int)
    ensures LegacyBlurSize(None) == Ok(3)
    ensures LegacyBlurSize(Some(Items([ShowInt(n)]))) == Ok(n)
    ensures LegacyBlurSize(Some(Word("15"))) == Ok(1)
    ensures LegacyBlurSize(Some(Items([]))) == Err(IndexError)
  {
    IntOfStr(n);
    assert First(Word("15")) == Ok("1");
    IntOfStr(1);
    assert ShowInt(1) == "1";
  }

  /** A bare numeral string contributes its leading digit alone. */
  lemma LegacyBlurFirstDigit(d: nat, rest: string)
    requires d < 10
    ensures LegacyBlurSize(Some(Word([DigitChar(d)] + rest))) == Ok(d)
  {
    assert First(Word([DigitChar(d)] + rest)) == Ok([DigitChar(d)]);
    IntOfStr(d);
    assert ShowInt(d) == [DigitChar(d)];
  }

  /** get_blur(frame, args) = cv2.blur(frame, (k, k)). */
  function LegacyGetBlur<I>(frame: I, args: Option<Args>, blur: (I, int, int) -> I): (r: Result<I>)
    ensures r.Ok? <==> LegacyBlurSize(args).Ok?
    ensures r.Ok? ==> r.value == blur(frame, LegacyBlurSize(args).value, LegacyBlurSize(args).value)
    ensures r.Err? ==> r.error == LegacyBlurSize(args).error
  {
    match LegacyBlurSize(args)
    case Err(e) => Err(e)
    case Ok(k) => Ok(blur(frame, k, k))
  }

  // ---------------------------------------------------------------- sharpen

  /** i = int(args[0]) if args is not None else 1, then i = 10 if i > 100. */
  function LegacySharpCount(args: Option<Args>): Result<int> {
    match (if args.None? then Ok(1) else FirstInt(args.value))
    case Err(e) => Err(e)
    case Ok(i) => Ok(if i > 100 then 10 else i)
  }

  /** The number of filter passes for the numeral of n: n - 1 up to 100,
      then nine; none for n <= 1 and none by default. */
  lemma LegacySharpPasses(n: int)
    ensures LegacySharpCount(Some(Items([ShowInt(n)]))).Ok?
    ensures RangeLength(1, LegacySharpCount(Some(Items([ShowInt(n)]))).value) ==
      (if n > 100 then 9 else if n > 1 then n - 1 else 0)
    ensures LegacySharpCount(None) == Ok(1) && RangeLength(1, 1) == 0
  {
    IntOfStr(n);
  }

  /** The pass count is not monotone: any count above 100 (101, say)
      filters fewer times than any count from 11 to 100. */
  lemma LegacySharpNotMonotone(m: int, n: int)
    requires 10 < m <= 100 < n
    ensures RangeLength(1, LegacySharpCount(Some(Items([ShowInt(n)]))).value) <
            RangeLength(1, LegacySharpCount(Some(Items([ShowInt(m)]))).value)
  {
    LegacySharpPasses(m);
    LegacySharpPasses(n);
  }

  /** get_sharp(frame, args): the fixed kernel applied by the repeated
      filtering loop. */
  method LegacyGetSharp<I>(frame: I, args: Option<Args>, filter: I -> I) returns (r: Result<I>)
    ensures r.Ok? <==> LegacySharpCount(args).Ok?
    ensures r.Ok? ==> r.value == Iterate(filter, frame, RangeLength(1, LegacySharpCount(args).value))
    ensures r.Ok? ==> RangeLength(1, LegacySharpCount(args).value) <= 99
    ensures args.None? ==> r == Ok(frame)
  {
    match LegacySharpCount(args)
    case Err(e) => r := Err(e);
    case Ok(i) =>
      var img := FilterPasses(frame, i, filter);
      r := Ok(img);
  }

  // ---------------------------------------------------------------- rotation

  const LegacyCw := Either(Anywhere("right"), Anywhere("cw"))
  const LegacyCcw := Either(Anywhere("left"), Anywhere("ccw"))

  /** The turn get_rotated asks for: args defaults to ["cw"]; clockwise when
      args[0] contains "right" or "cw" (tested first), counter-clockwise when
      it contains "left" or "ccw", none otherwise. */
  function LegacyRotationFor(args: Option<Args>): Result<Option<Rotation>> {
    var a := if args.None? then Items(["cw"]) else args.value;
    match First(a)
    case Err(e) => Err(e)
    case Ok(t) =>
      if Search(LegacyCw, t) then Ok(Some(Clockwise))
      else if Search(LegacyCcw, t) then Ok(Some(CounterClockwise))
      else Ok(None)
  }

  /** Every text containing "ccw" contains "cw", so the counter-clockwise
      branch is taken only for "left" without "right" or "cw". */
  lemma {:induction false} LegacyCounterClockwiseIff(t: string)
    ensures LegacyRotationFor(Some(Items([t]))) == Ok(Some(CounterClockwise)) <==>
      Search(Anywhere("left"), t) && !Search(Anywhere("right"), t) && !Search(Anywhere("cw"), t)
  {
    if Search(Anywhere("ccw"), t) {
      FoundWithin("cw", "ccw", t);
    }
  }

  /** The default and "ccw" both turn clockwise; "left" turns
      counter-clockwise; "up" selects nothing. */
  lemma LegacyRotationExamples()
    ensures LegacyRotationFor(None) == Ok(Some(Clockwise))
    ensures LegacyRotationFor(Some(Items(["ccw"]))) == Ok(Some(Clockwise))
    ensures LegacyRotationFor(Some(Items(["LEFT"]))) == Ok(Some(CounterClockwise))
    ensures LegacyRotationFor(Some(Items(["up"]))) == Ok(None)
  {
    assert Lower("ccw") == "ccw";
    assert Search(Anywhere("cw"), "ccw");
    assert Lower("LEFT") == "left";
    LetterAbsent("right", "LEFT", 0);
    LetterAbsent("cw", "LEFT", 0);
    assert Search(Anywhere("left"), "LEFT");
  }

  /** get_rotated(frame, args) on an h-by-w frame; None when no direction matched. */
  function LegacyGetRotated<T>(g: seq<seq<T>>, h: nat, w: nat, args: Option<Args>): (r: Result<Option<seq<seq<T>>>>)
    requires IsGrid(g, h, w)
    ensures r.Err? <==> LegacyRotationFor(args).Err?
    ensures r.Ok? ==> (r.value.Some? <==> LegacyRotationFor(args).value.Some?)
    ensures r.Ok? && r.value.Some? ==> IsGrid(r.value.value, w, h)
    ensures r.Ok? && r.value.Some? ==> r.value.value == Turn(g, h, w, LegacyRotationFor(args).value.value)
  {
    match LegacyRotationFor(args)
    case Err(e) => Err(e)
    case Ok(None) => Ok(None)
    case Ok(Some(d)) => Ok(Some(Turn(g, h, w, d)))
  }

  /** Unlike the newer copy, "ccw" cannot undo the default turn: the
      default and "ccw" both give the clockwise turn. */
  lemma LegacyNoUndo<T>(g: seq<seq<T>>, h: nat, w: nat)
    requires IsGrid(g, h, w)
    ensures LegacyGetRotated(g, h, w, None) == Ok(Some(TurnClockwise(g, h, w)))
    ensures LegacyGetRotated(g, h, w, Some(Items(["ccw"]))) == Ok(Some(TurnClockwise(g, h, w)))
  {
    LegacyRotationExamples();
  }
}
