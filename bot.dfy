/** Command resolution of the newer bot: the ordered catalog of transforms,
    the split of a caption or reply text into tokens, the scan that lets the
    last matching entry win, and the shape of the call that follows.
    Downloading the photo and sending the result are transport and are not
    part of this model; the image is a parameter (absent when the message
    carried none). */
module Bot {
  import opened Wrappers
  import opened Text
  import opened Pattern
  import ImgProc
  import Grid

  /** The callables the catalog names, one per entry. */
  datatype Transform =
    | Grey | Hsv | Red | Green | Blue | Hue | Sat | Val
    | Blur | Sharp | Norm | Sobel | HistEq | Dft | Rotate | Thresh

  /** A catalog row: name, case-insensitive pattern, callable. */
  datatype Entry = Entry(name: string, pattern: Pattern, transform: Transform)

  /** The catalog, in declaration order. */
  const Catalog: seq<Entry> := [
    Entry("GRAY", Either(Anywhere("grey"), Anywhere("gray")), Grey),
    Entry("HSV", Anywhere("hsv"), Hsv),
    Entry("RED", Anywhere("red"), Red),
    Entry("GREEN", Anywhere("green"), Green),
    Entry("BLUE", Anywhere("blue"), Blue),
    Entry("HUE", Anywhere("hue"), Hue),
    Entry("SAT", Anywhere("sat"), Sat),
    Entry("VAL", Anywhere("val"), Val),
    Entry("BLUR", Anywhere("blur"), Blur),
    Entry("SHARP", Anywhere("sharp"), Sharp),
    Entry("NORM", Anywhere("norm"), Norm),
    Entry("SOBEL", Anywhere("sobel"), Sobel),
    Entry("HISTEQ", Either(Anywhere("histeq"), Anywhere("contrast")), HistEq),
    Entry("DFT", Either(Anywhere("fourier"), Anywhere("dft")), Dft),
    Entry("ROTATE", Anywhere("rot"), Rotate),
    Entry("THRESH", AtStart("thresh"), Thresh)
  ]

  // ---------------------------------------------------------------- resolution

  /** The transform of the last entry whose pattern matches tok. */
  function LastMatch(cat: seq<Entry>, tok: string): Option<Transform>
    decreases |cat|
  {
    if cat == [] then None
    else if Search(cat[|cat| - 1].pattern, tok) then Some(cat[|cat| - 1].transform)
    else LastMatch(cat[..|cat| - 1], tok)
  }

  /** LastMatch is None exactly when no entry matches, and otherwise names
      a matching entry after which no entry matches. */
  lemma {:induction false} LastMatchIsLatest(cat: seq<Entry>, tok: string)
    ensures LastMatch(cat, tok).None? <==> forall k :: 0 <= k < |cat| ==> !Search(cat[k].pattern, tok)
    ensures LastMatch(cat, tok).Some? ==>
              exists k :: (0 <= k < |cat| && Search(cat[k].pattern, tok)
                && cat[k].transform == LastMatch(cat, tok).value
                && forall j :: k < j < |cat| ==> !Search(cat[j].pattern, tok))
    decreases |cat|
  {
    if cat != [] {
      var init := cat[..|cat| - 1];
      LastMatchIsLatest(init, tok);
      assert forall k :: 0 <= k < |init| ==> init[k] == cat[k];
      if !Search(cat[|cat| - 1].pattern, tok) && LastMatch(init, tok).Some? {
        var k :| 0 <= k < |init| && Search(init[k].pattern, tok) && init[k].transform == LastMatch(init, tok).value
                 && forall j :: k < j < |init| ==> !Search(init[j].pattern, tok);
        assert Search(cat[k].pattern, tok);
      }
    }
  }

  /** The entry at k decides when it matches and no later one does. */
  lemma LastMatchAt(cat: seq<Entry>, tok: string, k: nat)
    requires k < |cat| && Search(cat[k].pattern, tok)
    requires forall j :: k < j < |cat| ==> !Search(cat[j].pattern, tok)
    ensures LastMatch(cat, tok) == Some(cat[k].transform)
  {
    LastMatchIsLatest(cat, tok);
  }

  /** Resolution ignores case: the upper-cased token selects the same entry. */
  lemma {:induction false} LastMatchIgnoresCase(cat: seq<Entry>, tok: string)
    ensures LastMatch(cat, Upper(tok)) == LastMatch(cat, tok)
    decreases |cat|
  {
    if cat != [] {
      SearchIgnoresCase(cat[|cat| - 1].pattern, tok);
      LastMatchIgnoresCase(cat[..|cat| - 1], tok);
    }
  }

  /** The alternations of the catalog: GRAY accepts both spellings, HISTEQ
      either word, DFT either word. */
  lemma CatalogAlternatives(s: string)
    ensures Search(Catalog[0].pattern, s) <==> Search(Anywhere("grey"), s) || Search(Anywhere("gray"), s)
    ensures Search(Catalog[12].pattern, s) <==> Search(Anywhere("histeq"), s) || Search(Anywhere("contrast"), s)
    ensures Search(Catalog[13].pattern, s) <==> Search(Anywhere("fourier"), s) || Search(Anywhere("dft"), s)
  {
  }

  /** for command in commands: if re.search(command[1], tok): func = command[2] */
  method Resolve(cat: seq<Entry>, tok: string) returns (func: Option<Transform>)
    ensures func == LastMatch(cat, tok)
    ensures func.None? <==> forall k :: 0 <= k < |cat| ==> !Search(cat[k].pattern, tok)
  {
    func := None;
    for i := 0 to |cat|
      invariant func == LastMatch(cat[..i], tok)
    {
      assert cat[..i + 1][..i] == cat[..i];
      if Search(cat[i].pattern, tok) {
        func := Some(cat[i].transform);
      }
    }
    assert cat[..|cat|] == cat;
    LastMatchIsLatest(cat, tok);
  }

  // ---------------------------------------------------------------- the call

  /** What callback_cv does once func is known: nothing when no entry
      matched; func(img, arg) when there is an argument and an image;
      func(img) when there is no argument (the image may be missing); no call
      at all, and an empty result, when there is an argument but no image. */
  datatype Call<I> =
    | NoCall
    | Dropped(transform: Transform)
    | Apply(transform: Transform, img: Option<I>)
    | ApplyArg(transform: Transform, image: I, arg: string)

  /** The call for a transform and the argument slot. */
  function CallFor<I>(func: Option<Transform>, arg: Option<string>, img: Option<I>): Call<I> {
    match func
    case None => NoCall
    case Some(t) =>
      if arg.None? then Apply(t, img)
      else if img.Some? then ApplyArg(t, img.value, arg.value)
      else Dropped(t)
  }

  /** The call made for command cmd. Only token 0 is matched and only
      token 1 is passed on. */
  function Dispatch<I>(cmd: string, img: Option<I>): Call<I> {
    var tokens := Split(cmd, ' ');
    CallFor(LastMatch(Catalog, tokens[0]), if |tokens| > 1 then Some(tokens[1]) else None, img)
  }

  /** The body of callback_cv after the photo has been read. */
  method Callback<I>(cmd: string, img: Option<I>) returns (call: Call<I>)
    ensures call == Dispatch(cmd, img)
  {
    var commandList := Split(cmd, ' ');
    var func := Resolve(Catalog, commandList[0]);
    var arg: Option<string> := None;
    if |commandList| > 1 {
      arg := Some(commandList[1]);
    }
    call := NoCall;
    if func.Some? {
      if arg.Some? && img.Some? {
        call := ApplyArg(func.value, img.value, arg.value);
      } else if arg.None? {
        call := Apply(func.value, img);
      } else {
        call := Dropped(func.value);
      }
    }
  }

  /** A command without a space is one token: it is matched whole and no
      argument is passed. */
  lemma DispatchOneWord<I>(a: string, img: Option<I>)
    requires ' ' !in a
    ensures Dispatch(a, img) == CallFor(LastMatch(Catalog, a), None, img)
  {
    SplitNoSeparator(a, ' ');
  }

  /** With a space, the text before it is matched and the next field is
      the argument. */
  lemma DispatchWithArgument<I>(a: string, b: string, img: Option<I>)
    requires ' ' !in a && ' ' !in b
    ensures Dispatch(a + " " + b, img) == CallFor(LastMatch(Catalog, a), Some(b), img)
  {
    assert a + " " + b == a + [' '] + b;
    SplitAfterField(a, ' ', b);
    SplitNoSeparator(b, ' ');
  }

  /** Fields after the second are ignored. */
  lemma DispatchIgnoresRest<I>(a: string, b: string, rest: string, img: Option<I>)
    requires ' ' !in a && ' ' !in b
    ensures Dispatch(a + " " + b + " " + rest, img) == CallFor(LastMatch(Catalog, a), Some(b), img)
  {
    assert a + " " + b + " " + rest == a + [' '] + b + [' '] + rest;
    SplitTwoFields(a, b, ' ', rest);
  }

  /** A word no entry matches leads to no call. */
  lemma UnmatchedWord<I>(s: string, img: Option<I>)
    requires ' ' !in s
    requires forall k :: 0 <= k < |Catalog| ==> !Search(Catalog[k].pattern, s)
    ensures Dispatch(s, img) == NoCall
  {
    LastMatchIsLatest(Catalog, s);
    DispatchOneWord(s, img);
  }

  /** A word is handled by the last entry that matches it, whatever earlier
      entries match too. */
  lemma LastMatchingEntryDecides<I>(s: string, k: nat, img: Option<I>)
    requires ' ' !in s && k < |Catalog| && Search(Catalog[k].pattern, s)
    requires forall j :: k < j < |Catalog| ==> !Search(Catalog[j].pattern, s)
    ensures Dispatch(s, img) == Apply(Catalog[k].transform, img)
  {
    LastMatchAt(Catalog, s, k);
    DispatchOneWord(s, img);
  }

  /** An empty message is the single token "", which no pattern matches. */
  lemma EmptyCommand<I>(img: Option<I>)
    ensures Dispatch("", img) == NoCall
  {
    forall k | 0 <= k < |Catalog| ensures !Search(Catalog[k].pattern, "") {
      ShortTextNeverMatches(Catalog[k].pattern, "");
    }
    UnmatchedWord("", img);
  }

  // ---------------------------------------------------------------- examples

  /** The letters of "blurred". */
  const BlurLetters: set<char> := {'b', 'l', 'u', 'r', 'e', 'd'}

  /** Words over the letters of "blurred" match no entry after BLUR. */
  lemma BlurLettersMissLater(s: string)
    requires LettersIn(s, BlurLetters)
    ensures forall j :: 8 < j < |Catalog| ==> !Search(Catalog[j].pattern, s)
  {
    forall j | 8 < j < |Catalog| ensures !Search(Catalog[j].pattern, s) {
      if j == 9 { LetterOutside(Anywhere("sharp"), s, BlurLetters, 0); }
      else if j == 10 { LetterOutside(Anywhere("norm"), s, BlurLetters, 0); }
      else if j == 11 { LetterOutside(Anywhere("sobel"), s, BlurLetters, 0); }
      else if j == 12 { LetterOutside(Anywhere("histeq"), s, BlurLetters, 0); LetterOutside(Anywhere("contrast"), s, BlurLetters, 0); }
      else if j == 13 { LetterOutside(Anywhere("fourier"), s, BlurLetters, 0); LetterOutside(Anywhere("dft"), s, BlurLetters, 1); }
      else if j == 14 { LetterOutside(Anywhere("rot"), s, BlurLetters, 1); }
      else { LetterOutside(AtStart("thresh"), s, BlurLetters, 0); }
    }
  }

  /** Any such word containing "blur" selects BLUR, even when it also
      contains "red" and so matches the earlier RED entry. */
  lemma BlurWins<I>(s: string, img: Option<I>)
    requires ' ' !in s && LettersIn(s, BlurLetters) && Search(Catalog[8].pattern, s)
    ensures Dispatch(s, img) == Apply(Blur, img)
  {
    BlurLettersMissLater(s);
    LastMatchingEntryDecides(s, 8, img);
  }

  // The worked examples below name their text s and fix it with
  // `requires s == "..."`, so that the proof works from a few facts about s
  // instead of unfolding the literal into every clause; this keeps them cheap.
  lemma BlurredLetters(s: string)
    requires s == "blurred"
    ensures ' ' !in s && LettersIn(s, BlurLetters)
  {
    assert Lower(s) == s;
  }

  lemma BlurredMatches(s: string)
    requires s == "blurred"
    ensures Search(Anywhere("red"), s) && Search(Anywhere("blur"), s)
  {
    assert Lower(s) == s;
    FoundAt("red", s, 4);
    FoundAt("blur", s, 0);
  }

  /** "blurred" matches both RED and BLUR; BLUR is declared later and wins. */
  lemma BlurredIsBlur<I>(s: string, img: Option<I>)
    requires s == "blurred"
    ensures Search(Catalog[2].pattern, s) && Search(Catalog[8].pattern, s)
    ensures Dispatch(s, img) == Apply(Blur, img)
  {
    BlurredLetters(s);
    BlurredMatches(s);
    BlurWins(s, img);
  }

  /** Patterns that carry a start anchor somewhere. */
  predicate Anchored(p: Pattern) {
    match p
    case Anywhere(_) => false
    case AtStart(_) => true
    case Either(a, b) => Anchored(a) || Anchored(b)
  }

  /** THRESH is the only anchored entry of the catalog; every other one is
      found anywhere in the token. */
  lemma OnlyThreshAnchored()
    ensures forall k :: 0 <= k < |Catalog| ==> (Anchored(Catalog[k].pattern) <==> Catalog[k].transform == Thresh)
  {
    forall k | 0 <= k < |Catalog|
      ensures Anchored(Catalog[k].pattern) <==> Catalog[k].transform == Thresh
    {
      if k < 8 { } else { }
    }
  }

  /** The last entry needs no refutation: a token starting with "thresh"
      always selects THRESH. */
  lemma ThreshDecides<I>(s: string, img: Option<I>)
    requires ' ' !in s && StartsWith("thresh", Lower(s))
    ensures Dispatch(s, img) == Apply(Thresh, img)
  {
    LastMatchingEntryDecides(s, 15, img);
  }

  /** "rot" anywhere in the first token, with no "thresh" at its start,
      selects ROTATE. */
  lemma RotateDecides(s: string)
    requires Search(Anywhere("rot"), s) && !StartsWith("thresh", Lower(s))
    ensures LastMatch(Catalog, s) == Some(Rotate)
  {
    LastMatchAt(Catalog, s, 14);
  }

  /** "rotate ccw" on a photo calls get_rotated(img, "ccw"), which turns
      counter-clockwise. */
  lemma RotateCcw<I>(img: I, a: string, b: string)
    requires a == "rotate" && b == "ccw"
    ensures Dispatch(a + " " + b, Some(img)) == ApplyArg(Rotate, img, b)
    ensures ImgProc.RotationFor(Some(b)) == Some(Grid.CounterClockwise)
  {
    assert Lower(a) == a;
    FoundAt("rot", a, 0);
    RotateDecides(a);
    DispatchWithArgument(a, b, Some(img));
  }

  /** "thresh bininv" on a photo calls get_threshold(img, "bininv"), which
      thresholds in BINARY mode. */
  lemma ThreshBininv<I>(img: I, a: string, b: string)
    requires a == "thresh" && b == "bininv"
    ensures Dispatch(a + " " + b, Some(img)) == ApplyArg(Thresh, img, b)
    ensures ImgProc.ThresholdMode(Some(b)) == Some(ImgProc.Binary)
  {
    assert Lower(a) == a;
    LastMatchAt(Catalog, a, 15);
    DispatchWithArgument(a, b, Some(img));
    ImgProc.ThresholdBininv();
  }
}
