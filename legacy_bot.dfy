/** Command handling of the older bot: one if/elif chain tested against the
    whole caption or reply text, where the first branch whose pattern matches
    decides, followed by that branch's own use of the text (the blur size,
    the sharpen count, the rotate direction). The photo is a decoded frame;
    OpenCV's colour conversions, box blur, filter2D and rotate are function
    parameters, and sending a frame is reported as an outcome. */
module LegacyBot {
  import opened Wrappers
  import opened Text
  import opened Pattern
  import ImgProc
  import Grid

  // ---------------------------------------------------------------- patterns

  const GrayRe := Either(Anywhere("grey"), Anywhere("gray"))
  const HsvRe := Anywhere("hsv")
  const RedRe := Anywhere("red")
  const GreenRe := Anywhere("green")
  const BlueRe := Anywhere("blue")
  const HueRe := Anywhere("hue")
  const SatRe := Anywhere("sat")
  const ValRe := Anywhere("val")
  const BlurRe := Anywhere("blur")
  const SharpRe := Anywhere("sharp")
  const RotateRe := Anywhere("rot")
  const RotCwRe := Either(Anywhere("right"), Anywhere("cw"))
  const RotCcwRe := Either(Anywhere("left"), Anywhere("ccw"))

  // ---------------------------------------------------------------- the chain

  /** The branches of the chain, in order. */
  datatype Branch = Grey | Hsv | Red | Green | Blue | Hue | Sat | Val | Blur | Sharp | Rotate

  /** The branch the chain enters for cmd. The hue, saturation and value
      branches also test that the HSV frame exists and fall through to the
      next test when it does not; the other branches are entered on their
      pattern alone. */
  function Select(cmd: string, hasHsv: bool): Option<Branch> {
    if Search(GrayRe, cmd) then Some(Grey)
    else if Search(HsvRe, cmd) then Some(Hsv)
    else if Search(RedRe, cmd) then Some(Red)
    else if Search(GreenRe, cmd) then Some(Green)
    else if Search(BlueRe, cmd) then Some(Blue)
    else if Search(HueRe, cmd) && hasHsv then Some(Hue)
    else if Search(SatRe, cmd) && hasHsv then Some(Sat)
    else if Search(ValRe, cmd) && hasHsv then Some(Val)
    else if Search(BlurRe, cmd) then Some(Blur)
    else if Search(SharpRe, cmd) then Some(Sharp)
    else if Search(RotateRe, cmd) then Some(Rotate)
    else None
  }

  /** One test of the chain as a table row: its pattern, its branch, and
      whether the branch also needs the HSV frame. */
  datatype Rule = Rule(pattern: Pattern, branch: Branch, needsHsv: bool)

  /** The chain written as a table, in the order of its tests. */
  const Chain: seq<Rule> := [
    Rule(GrayRe, Grey, false),
    Rule(HsvRe, Hsv, false),
    Rule(RedRe, Red, false),
    Rule(GreenRe, Green, false),
    Rule(BlueRe, Blue, false),
    Rule(HueRe, Hue, true),
    Rule(SatRe, Sat, true),
    Rule(ValRe, Val, true),
    Rule(BlurRe, Blur, false),
    Rule(SharpRe, Sharp, false),
    Rule(RotateRe, Rotate, false)
  ]

  predicate Fires(r: Rule, cmd: string, hasHsv: bool) {
    Search(r.pattern, cmd) && (hasHsv || !r.needsHsv)
  }

  /** The branch of the first row that fires: the reference reading of an
      if/elif chain. */
  function FirstFiring(rules: seq<Rule>, cmd: string, hasHsv: bool): Option<Branch>
    decreases |rules|
  {
    if rules == [] then None
    else if Fires(rules[0], cmd, hasHsv) then Some(rules[0].branch)
    else FirstFiring(rules[1..], cmd, hasHsv)
  }

  /** FirstFiring is None exactly when no row fires, and otherwise names a
      row that fires with no firing row before it. */
  lemma {:induction false} FirstFiringIsEarliest(rules: seq<Rule>, cmd: string, hasHsv: bool)
    ensures FirstFiring(rules, cmd, hasHsv).None? <==>
      forall k :: 0 <= k < |rules| ==> !Fires(rules[k], cmd, hasHsv)
    ensures FirstFiring(rules, cmd, hasHsv).Some? ==>
      exists k :: (0 <= k < |rules| && Fires(rules[k], cmd, hasHsv)
        && rules[k].branch == FirstFiring(rules, cmd, hasHsv).value
        && forall j :: 0 <= j < k ==> !Fires(rules[j], cmd, hasHsv))
    decreases |rules|
  {
    if rules != [] && !Fires(rules[0], cmd, hasHsv) {
      var tail := rules[1..];
      FirstFiringIsEarliest(tail, cmd, hasHsv);
      assert forall k :: 0 <= k < |tail| ==> tail[k] == rules[k + 1];
      if FirstFiring(tail, cmd, hasHsv).Some? {
        var k :| 0 <= k < |tail| && Fires(tail[k], cmd, hasHsv)
                 && tail[k].branch == FirstFiring(tail, cmd, hasHsv).value
                 && forall j :: 0 <= j < k ==> !Fires(tail[j], cmd, hasHsv);
        assert Fires(rules[k + 1], cmd, hasHsv);
        forall j | 0 <= j < k + 1 ensures !Fires(rules[j], cmd, hasHsv) {
          if j > 0 { assert rules[j] == tail[j - 1]; }
        }
      }
    }
  }

  /** The chain selects the branch of the first firing row of the table. */
  lemma SelectFollowsChain(cmd: string, hasHsv: bool)
    ensures Select(cmd, hasHsv) == FirstFiring(Chain, cmd, hasHsv)
  {
    FirstFiringIsEarliest(Chain, cmd, hasHsv);
    if FirstFiring(Chain, cmd, hasHsv).Some? {
      var k :| 0 <= k < |Chain| && Fires(Chain[k], cmd, hasHsv)
               && Chain[k].branch == FirstFiring(Chain, cmd, hasHsv).value
               && forall j :: 0 <= j < k ==> !Fires(Chain[j], cmd, hasHsv);
      ChainPrefixQuiet(cmd, hasHsv, k);
    } else {
      ChainPrefixQuiet(cmd, hasHsv, |Chain|);
    }
  }

  /** When no row before k fires, the chain passes every test before k, and
      enters row k's branch if that row fires. */
  lemma ChainPrefixQuiet(cmd: string, hasHsv: bool, k: nat)
    requires k <= |Chain|
    requires forall j :: 0 <= j < k ==> !Fires(Chain[j], cmd, hasHsv)
    ensures k < |Chain| && Fires(Chain[k], cmd, hasHsv) ==> Select(cmd, hasHsv) == Some(Chain[k].branch)
    ensures k == |Chain| ==> Select(cmd, hasHsv) == None
  {
    if k > 0 { assert !Fires(Chain[0], cmd, hasHsv); }
    if k > 1 { assert !Fires(Chain[1], cmd, hasHsv); }
    if k > 2 { assert !Fires(Chain[2], cmd, hasHsv); }
    if k > 3 { assert !Fires(Chain[3], cmd, hasHsv); }
    if k > 4 { assert !Fires(Chain[4], cmd, hasHsv); }
    if k > 5 { assert !Fires(Chain[5], cmd, hasHsv); }
    if k > 6 { assert !Fires(Chain[6], cmd, hasHsv); }
    if k > 7 { assert !Fires(Chain[7], cmd, hasHsv); }
    if k > 8 { assert !Fires(Chain[8], cmd, hasHsv); }
    if k > 9 { assert !Fires(Chain[9], cmd, hasHsv); }
    if k > 10 { assert !Fires(Chain[10], cmd, hasHsv); }
  }

  /** Nothing is selected exactly when no test succeeds; otherwise the
      selected branch is that of a succeeding test with none before it. */
  lemma {:induction false} SelectIsFirstMatch(cmd: string, hasHsv: bool)
    ensures Select(cmd, hasHsv).None? <==> forall k :: 0 <= k < |Chain| ==> !Fires(Chain[k], cmd, hasHsv)
    ensures Select(cmd, hasHsv).Some? ==>
      exists k :: (0 <= k < |Chain| && Fires(Chain[k], cmd, hasHsv)
        && Chain[k].branch == Select(cmd, hasHsv).value
        && forall j :: 0 <= j < k ==> !Fires(Chain[j], cmd, hasHsv))
  {
    SelectFollowsChain(cmd, hasHsv);
    FirstFiringIsEarliest(Chain, cmd, hasHsv);
  }

  // ---------------------------------------------------------------- branch arguments

  /** The number of filter passes the sharpen branch asks for: int(token 1)
      lowered to 100 when above, when the text holds a space; 1 otherwise. */
  function SharpCount(cmd: string): Result<int> {
    if ' ' in cmd then
      var command := Split(cmd, ' ');
      SplitHasSecondField(cmd, ' ');
      match ParseInt(command[1])
      case Err(e) => Err(e)
      case Ok(i) => Ok(if i > 100 then 100 else i)
    else Ok(1)
  }

  /** The turn of the rotate branch: clockwise when neither direction
      pattern matches or when the clockwise one does (tested first),
      counter-clockwise otherwise. */
  function Direction(cmd: string): Grid.Rotation {
    if !(Search(RotCwRe, cmd) || Search(RotCcwRe, cmd)) then Grid.Clockwise
    else if Search(RotCwRe, cmd) then Grid.Clockwise
    else Grid.CounterClockwise
  }

  // ---------------------------------------------------------------- outcome

  /** What handling a command does: send one frame, send nothing, or stop
      on an exception. */
  datatype Outcome = Silent | Sent(frame: ImgProc.Frame) | Failed(error: Error)

  /** The OpenCV routines the handler calls: grey and HSV conversion, box
      blur, one filter2D pass with the sharpening kernel, and the turn. */
  datatype Ops = Ops(
    grey: ImgProc.Frame -> ImgProc.Frame,
    hsv: ImgProc.Frame -> Result<ImgProc.Frame>,
    blur: (ImgProc.Frame, int, int) -> ImgProc.Frame,
    filter: ImgProc.Frame -> ImgProc.Frame,
    rotate: (ImgProc.Frame, Grid.Rotation) -> ImgProc.Frame)

  /** len(frame.shape): a plane has two axes, a colour frame three. */
  function Dims(f: ImgProc.Frame): nat {
    if f.Plane? then 2 else 3
  }

  function Deliver(r: Result<ImgProc.Frame>): Outcome {
    if r.Ok? then Sent(r.value) else Failed(r.error)
  }

  /** The channel index of a channel branch: 2 for red, 1 for green, 0 for
      blue, and the same indices into the HSV frame for hue, saturation and
      value. */
  function ChannelIndex(b: Branch): nat
    requires b in {Red, Green, Blue, Hue, Sat, Val}
  {
    match b
    case Red => 2
    case Green => 1
    case Blue => 0
    case Hue => 0
    case Sat => 1
    case Val => 2
  }

  /** The body of the branch b for command cmd on frame bgr, where hsv is the
      HSV frame when one was computed. */
  function Effect(b: Branch, cmd: string, bgr: ImgProc.Frame, hsv: Option<ImgProc.Frame>, ops: Ops): Outcome
    requires b in {Hue, Sat, Val} ==> hsv.Some?
  {
    match b
    case Grey => if Dims(bgr) > 1 then Sent(ops.grey(bgr)) else Silent
    case Hsv => if hsv.Some? then Sent(hsv.value) else Silent
    case Red => if Dims(bgr) > 1 then Deliver(ImgProc.Channel(bgr, 2)) else Silent
    case Green => if Dims(bgr) > 1 then Deliver(ImgProc.Channel(bgr, 1)) else Silent
    case Blue => if Dims(bgr) > 1 then Deliver(ImgProc.Channel(bgr, 0)) else Silent
    case Hue => Deliver(ImgProc.Channel(hsv.value, 0))
    case Sat => Deliver(ImgProc.Channel(hsv.value, 1))
    case Val => Deliver(ImgProc.Channel(hsv.value, 2))
    case Blur =>
      var command := Split(cmd, ' ');
      if |command| < 2 then Failed(IndexError)
      else
        (match ParseInt(command[1])
         case Err(e) => Failed(e)
         case Ok(k) => Sent(ops.blur(bgr, k, k)))
    case Sharp =>
      (match SharpCount(cmd)
       case Err(e) => Failed(e)
       case Ok(i) => Sent(ImgProc.Iterate(ops.filter, bgr, ImgProc.RangeLength(1, i))))
    case Rotate => Sent(ops.rotate(bgr, Direction(cmd)))
  }

  /** callback_cv after the photo has been read into bgr: the HSV frame is
      computed first when the frame has more than one axis, a failing
      conversion stops everything, and then the chain runs. */
  function Respond(cmd: string, bgr: ImgProc.Frame, ops: Ops): Outcome {
    if Dims(bgr) > 1 && ops.hsv(bgr).Err? then Failed(ops.hsv(bgr).error)
    else
      var hsv := if Dims(bgr) > 1 then Some(ops.hsv(bgr).value) else None;
      match Select(cmd, hsv.Some?)
      case None => Silent
      case Some(b) => Effect(b, cmd, bgr, hsv, ops)
  }

  /** The handler itself, with the sharpen branch's filtering loop. */
  method Callback(cmd: string, bgr: ImgProc.Frame, ops: Ops) returns (out: Outcome)
    ensures out == Respond(cmd, bgr, ops)
  {
    var hsv: Option<ImgProc.Frame> := None;
    if Dims(bgr) > 1 {
      var converted := ops.hsv(bgr);
      if converted.Err? {
        ShapeGuardsPass(cmd, bgr, ops);
        return Failed(converted.error);
      }
      hsv := Some(converted.value);
    }
    RespondByBranch(cmd, bgr, ops, hsv);
    var branch := Select(cmd, hsv.Some?);
    if branch == Some(Sharp) {
      SharpEffect(cmd, bgr, hsv, ops);
      match SharpCount(cmd)
      case Err(e) => out := Failed(e);
      case Ok(i) =>
        var img := ImgProc.FilterPasses(bgr, i, ops.filter);
        out := Sent(img);
    } else if branch.Some? {
      out := Effect(branch.value, cmd, bgr, hsv, ops);
    } else {
      out := Silent;
    }
  }

  lemma SharpEffect(cmd: string, bgr: ImgProc.Frame, hsv: Option<ImgProc.Frame>, ops: Ops)
    ensures SharpCount(cmd).Err? ==> Effect(Sharp, cmd, bgr, hsv, ops) == Failed(SharpCount(cmd).error)
    ensures SharpCount(cmd).Ok? ==>
      Effect(Sharp, cmd, bgr, hsv, ops) == Sent(ImgProc.Iterate(ops.filter, bgr, ImgProc.RangeLength(1, SharpCount(cmd).value)))
  {
  }

  /** Once the HSV frame is settled, the outcome is the selected branch's
      body; a branch that needs the HSV frame is only selected with one. */
  lemma RespondByBranch(cmd: string, bgr: ImgProc.Frame, ops: Ops, hsv: Option<ImgProc.Frame>)
    requires !(Dims(bgr) > 1 && ops.hsv(bgr).Err?)
    requires hsv == if Dims(bgr) > 1 then Some(ops.hsv(bgr).value) else None
    ensures Select(cmd, hsv.Some?).Some? && Select(cmd, hsv.Some?).value in {Hue, Sat, Val} ==> hsv.Some?
    ensures Respond(cmd, bgr, ops) ==
      match Select(cmd, hsv.Some?)
      case None => Silent
      case Some(b) => Effect(b, cmd, bgr, hsv, ops)
  {
  }

  // ---------------------------------------------------------------- properties

  /** Every frame has more than one axis, so the shape guards always pass:
      the HSV frame is computed before any branch, and once it exists the
      hue, saturation and value tests never fall through. */
  lemma ShapeGuardsPass(cmd: string, bgr: ImgProc.Frame, ops: Ops)
    ensures ops.hsv(bgr).Err? ==> Respond(cmd, bgr, ops) == Failed(ops.hsv(bgr).error)
    ensures ops.hsv(bgr).Ok? ==>
      Respond(cmd, bgr, ops) ==
        match Select(cmd, true)
        case None => Silent
        case Some(b) => Effect(b, cmd, bgr, Some(ops.hsv(bgr).value), ops)
    ensures (ops.hsv(bgr).Ok? && Select(cmd, true).Some?) ==> Respond(cmd, bgr, ops) != Silent
  {
  }

  /** A text that no test matches produces nothing. */
  lemma UnmatchedIsSilent(cmd: string, bgr: ImgProc.Frame, ops: Ops)
    requires ops.hsv(bgr).Ok?
    requires forall k :: 0 <= k < |Chain| ==> !Search(Chain[k].pattern, cmd)
    ensures Respond(cmd, bgr, ops) == Silent
  {
    SelectIsFirstMatch(cmd, true);
  }

  /** The channel branches send the channel of their index verbatim, or stop
      with IndexError when the frame lacks it. */
  lemma ChannelBranchSends(cmd: string, bgr: ImgProc.Frame, ops: Ops)
    requires ops.hsv(bgr).Ok?
    requires Select(cmd, true).Some? && Select(cmd, true).value in {Red, Green, Blue, Hue, Sat, Val}
    ensures var b := Select(cmd, true).value;
      var src := if b in {Red, Green, Blue} then bgr else ops.hsv(bgr).value;
      var k := ChannelIndex(b);
      && (src.Pixels? && ImgProc.HasChannel(src.pixels, k) ==>
            Respond(cmd, bgr, ops).Sent? && ImgProc.IsChannelOf(Respond(cmd, bgr, ops).frame, src, k))
      && (!(src.Pixels? && ImgProc.HasChannel(src.pixels, k)) ==> Respond(cmd, bgr, ops) == Failed(IndexError))
  {
    ShapeGuardsPass(cmd, bgr, ops);
  }

  /** Blur has no default size: a text without a space stops with IndexError. */
  lemma BlurNeedsSecondToken(cmd: string, bgr: ImgProc.Frame, ops: Ops)
    requires ops.hsv(bgr).Ok? && Select(cmd, true) == Some(Blur) && ' ' !in cmd
    ensures Respond(cmd, bgr, ops) == Failed(IndexError)
  {
    SplitHasSecondField(cmd, ' ');
  }

  /** "<word> <n>" blurs with an n-by-n kernel. */
  lemma BlurTakesSecondToken(a: string, n: int, bgr: ImgProc.Frame, ops: Ops)
    requires ' ' !in a && ops.hsv(bgr).Ok? && Select(a + " " + ShowInt(n), true) == Some(Blur)
    ensures Respond(a + " " + ShowInt(n), bgr, ops) == Sent(ops.blur(bgr, n, n))
  {
    var cmd := a + " " + ShowInt(n);
    NumeralIsSecondField(a, n);
    BlurSecondToken(cmd, bgr, Some(ops.hsv(bgr).value), ops, n);
    ShapeGuardsPass(cmd, bgr, ops);
  }

  lemma BlurSecondToken(cmd: string, bgr: ImgProc.Frame, hsv: Option<ImgProc.Frame>, ops: Ops, k: int)
    requires |Split(cmd, ' ')| >= 2 && ParseInt(Split(cmd, ' ')[1]) == Ok(k)
    ensures Effect(Blur, cmd, bgr, hsv, ops) == Sent(ops.blur(bgr, k, k))
  {
  }

  /** "<word> <n>" splits into the word and the numeral of n, which int()
      reads back as n. */
  lemma NumeralIsSecondField(a: string, n: int)
    requires ' ' !in a
    ensures Split(a + " " + ShowInt(n), ' ') == [a, ShowInt(n)]
    ensures ' ' in a + " " + ShowInt(n)
    ensures ParseInt(ShowInt(n)) == Ok(n)
  {
    ShowIntNoSpace(n);
    assert a + " " + ShowInt(n) == a + [' '] + ShowInt(n);
    SplitAfterField(a, ' ', ShowInt(n));
    SplitNoSeparator(ShowInt(n), ' ');
    IntOfStr(n);
  }

  /** Without a space the count is 1 and the frame is sent unfiltered. */
  lemma SharpWithoutSpace(cmd: string, bgr: ImgProc.Frame, ops: Ops)
    requires ops.hsv(bgr).Ok? && Select(cmd, true) == Some(Sharp) && ' ' !in cmd
    ensures Respond(cmd, bgr, ops) == Sent(bgr)
  {
    ShapeGuardsPass(cmd, bgr, ops);
    assert SharpCount(cmd) == Ok(1);
  }

  /** The sharpen branch never filters more than 99 times. */
  lemma SharpAtMost99(cmd: string)
    requires SharpCount(cmd).Ok?
    ensures ImgProc.RangeLength(1, SharpCount(cmd).value) <= 99
  {
  }

  /** For "<word> <n>" the filter runs n - 1 times up to 100, 99 times
      beyond, and never for n <= 1. */
  lemma SharpPasses(a: string, n: int)
    requires ' ' !in a
    ensures SharpCount(a + " " + ShowInt(n)).Ok?
    ensures ImgProc.RangeLength(1, SharpCount(a + " " + ShowInt(n)).value) ==
      if n > 100 then 99 else if n > 1 then n - 1 else 0
  {
    NumeralIsSecondField(a, n);
  }

  // The worked examples below name their text s and fix it with
  // `requires s == "..."`, so that the proof works from a few facts about s
  // instead of unfolding the literal into every clause; this keeps them cheap.
  /** "blurred" holds "red", tested before "blur", so it selects the red
      channel. */
  lemma BlurredIsRed(s: string, hasHsv: bool)
    requires s == "blurred"
    ensures Select(s, hasHsv) == Some(Red)
  {
    assert Lower(s) == s;
    LetterAbsent("grey", s, 0);
    LetterAbsent("gray", s, 0);
    LetterAbsent("hsv", s, 0);
    FoundAt("red", s, 4);
  }

  /** None of the tests before the rotate test matches a text made of these
      letters. */
  const RotateLetters := {'r', 'o', 't', 'a', 'e', ' ', 'c', 'w', 'l', 'f'}

  lemma RotateLettersReachRotate(s: string, hasHsv: bool)
    requires LettersIn(s, RotateLetters) && Search(RotateRe, s)
    ensures Select(s, hasHsv) == Some(Rotate)
  {
    LetterOutside(Anywhere("grey"), s, RotateLetters, 0);
    LetterOutside(Anywhere("gray"), s, RotateLetters, 0);
    LetterOutside(HsvRe, s, RotateLetters, 0);
    LetterOutside(RedRe, s, RotateLetters, 2);
    LetterOutside(GreenRe, s, RotateLetters, 0);
    LetterOutside(BlueRe, s, RotateLetters, 0);
    LetterOutside(HueRe, s, RotateLetters, 0);
    LetterOutside(SatRe, s, RotateLetters, 0);
    LetterOutside(ValRe, s, RotateLetters, 0);
    LetterOutside(BlurRe, s, RotateLetters, 0);
    LetterOutside(SharpRe, s, RotateLetters, 0);
  }

  /** "rotate ccw" turns clockwise, because "cw" is tested first. */
  lemma RotateCcwTurnsClockwise(s: string, hasHsv: bool)
    requires s == "rotate ccw"
    ensures Select(s, hasHsv) == Some(Rotate) && Direction(s) == Grid.Clockwise
  {
    assert Lower(s) == s;
    FoundAt("rot", s, 0);
    FoundAt("cw", s, 8);
    RotateLettersReachRotate(s, hasHsv);
  }

  /** "rotate left" turns counter-clockwise. */
  lemma RotateLeftTurnsCounterClockwise(s: string, hasHsv: bool)
    requires s == "rotate left"
    ensures Select(s, hasHsv) == Some(Rotate) && Direction(s) == Grid.CounterClockwise
  {
    assert Lower(s) == s;
    FoundAt("rot", s, 0);
    FoundAt("left", s, 7);
    var letters := {'r', 'o', 't', 'a', 'e', ' ', 'l', 'f'};
    assert LettersIn(s, letters);
    LetterOutside(Anywhere("right"), s, letters, 1);
    LetterOutside(Anywhere("cw"), s, letters, 0);
    RotateLettersReachRotate(s, hasHsv);
  }

  /** Plain "rotate" names no direction and turns clockwise. */
  lemma RotateDefaultsClockwise(s: string, hasHsv: bool)
    requires s == "rotate"
    ensures Select(s, hasHsv) == Some(Rotate) && Direction(s) == Grid.Clockwise
  {
    assert Lower(s) == s;
    FoundAt("rot", s, 0);
    LetterAbsent("left", s, 0);
    LetterAbsent("ccw", s, 0);
    RotateLettersReachRotate(s, hasHsv);
  }

  /** Counter-clockwise exactly when the text holds "left" but neither
      "right" nor "cw"; "ccw" contains "cw" and so turns clockwise. */
  lemma {:induction false} CounterClockwiseIff(cmd: string)
    ensures Direction(cmd) == Grid.CounterClockwise <==>
      Search(Anywhere("left"), cmd) && !Search(Anywhere("right"), cmd) && !Search(Anywhere("cw"), cmd)
  {
    if Search(Anywhere("ccw"), cmd) {
      FoundWithin("cw", "ccw", cmd);
    }
  }
}
