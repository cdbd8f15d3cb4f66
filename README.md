# opencv-bot, modelled in Dafny

opencv-bot is a Telegram bot that applies OpenCV transforms to a photo. The
transform is chosen by the caption of the photo, or by the text of a reply to
it. The repository holds two generations of the bot:

- The newer bot (`opencv_bot/app.py` with `opencv_bot/utils/imgproc.py`) keeps
  an ordered catalog of (name, pattern, transform) entries. The command is
  split on single spaces and only the first token is matched. Every entry is
  examined, so the last entry that matches wins. The second token, if there is
  one, is passed to the transform as its argument.
- The older bot (`app.py`) runs one if/elif chain over the whole command
  text, so the first branch that matches wins. It works on the frame inline
  and has its own rules for the blur size, the sharpen count and the rotate
  direction; for instance it caps the sharpen count at 100.
- `utils/imgproc.py` is a separate, older copy of the transform module. No
  bot file in the repository calls it, and its rules differ from both the
  newer copy and the older bot: it resets a sharpen count above 100 to 10.

This project models command selection, the way each transform reads its
argument, and the integer and array logic of the transforms. The array logic
covers channel extraction, repeated filtering, threshold-mode selection, the
rotation index maps, and the pad, crop and quadrant swap of the spectrum.
OpenCV's colour conversion, box blur, filter2D and threshold are function
parameters. The quarter turn of cv2.rotate is a concrete index map in the two
copies of the transform module, and a function parameter in the older bot.

Modules, one per file:

- `Wrappers`: Option, and Result carrying one of the Python exceptions the code
  raises (ValueError, IndexError, TypeError).
- `Text`: ASCII case folding, substring search, `str.split(' ')`, and Python's
  `int()` and `str()` on integers.
- `Pattern`: the case-insensitive regular expressions of the bots. They are
  literals, literals anchored at the start, and alternations.
- `Grid`: 2-D arrays as row sequences, cropping, and the two quarter turns of
  `cv2.rotate`.
- `Spectrum`: the zero padding, the even crop and the in-place quadrant swap of
  `get_dft`, on `array2`.
- `ImgProc`: `opencv_bot/utils/imgproc.py`.
- `LegacyImgProc`: `utils/imgproc.py`. Its channel lambdas (utils/imgproc.py
  lines 5-12) and its padding, crop and swap (lines 69-74 and 87-101) are
  identical to lines 5-12, 66-71 and 84-98 of the newer copy. They are modelled
  once, by `ImgProc` and `Spectrum`, and the table cites the newer copy.
- `Bot`: `opencv_bot/app.py`, the catalog, resolution and call shape.
- `LegacyBot`: `app.py`, the selection chain, the branch bodies and the
  sharpen loop.

Where the code differs from what one would expect from the bot's description,
the model follows the code:

- `get_blur` raises on an argument `int()` rejects; it never falls back to size 3.
- `get_rotated` returns None for a text that names no direction, in both
  copies; it does not default to a clockwise turn.

## Model

| member | source | states |
|---|---|---|
| Text.Split | opencv_bot/app.py:118 | `cmd.split(' ')`: at least one field, no field holds a space, and joining the fields with spaces gives the command back |
| Text.SplitTwoFields | opencv_bot/app.py:118 | text up to the first space is field 0, up to the second is field 1, and the rest is split on its own |
| Text.SplitHasSecondField | app.py:125-127 | there is a second field exactly when the text holds a space |
| Text.ParseInt | opencv_bot/utils/imgproc.py:19 | `int(s)` fails only with ValueError, and a success starts, after whitespace, with a digit or a sign |
| Text.ParseIntValue | opencv_bot/utils/imgproc.py:19 | what `int()` accepted is a digit run behind at most one sign, after stripping, and its value is the run's, negated after '-' |
| Text.ParseDigitRun | opencv_bot/utils/imgproc.py:19 | an unsigned digit run is accepted with the value of its digits |
| Text.ParseSignedDigitRun | opencv_bot/utils/imgproc.py:19 | a '-' before a digit run negates its value |
| Text.ParseStripsSpace | opencv_bot/utils/imgproc.py:19 | `int(" 42\n") == 42` |
| Text.ParsePlusSign | opencv_bot/utils/imgproc.py:19 | `int("+7") == 7` |
| Text.ParseUnderscore | opencv_bot/utils/imgproc.py:19 | `int("1_000") == 1000` |
| Text.ParseLeadingZeros | opencv_bot/utils/imgproc.py:19 | `int("007") == 7` |
| Text.ParseRejects | opencv_bot/utils/imgproc.py:19 | "1__0", "_1" and "- 1" raise ValueError |
| Text.IntOfStr | opencv_bot/utils/imgproc.py:19 | `int(str(n)) == n` for every integer n |
| Text.ParseNeedsDigit | opencv_bot/utils/imgproc.py:19 | `int()` accepts no text without an ASCII digit |
| Pattern.SearchIgnoresCase | opencv_bot/app.py:15-30 | the `(?i)` flag: upper-casing the text changes no match |
| Pattern.SearchAnywhereIff | opencv_bot/app.py:16-29 | an unanchored literal matches exactly when it occurs at some position of the case-folded text |
| Pattern.ShortTextNeverMatches | opencv_bot/app.py:15-30 | a text shorter than every word of a pattern is never matched; the empty text matches nothing |
| Pattern.AnchoredIsFound | opencv_bot/app.py:30 | a definitional fact about `^`: a match anchored at the start is also a match anywhere |
| Pattern.FoundWithin | utils/imgproc.py:109-111 | a word inside a found word is found too: "ccw" in a text means "cw" is in it |
| Bot.LastMatchIsLatest | opencv_bot/app.py:123-125 | no transform exactly when no entry matches; otherwise the transform of a matching entry after which no entry matches |
| Bot.LastMatchAt | opencv_bot/app.py:123-125 | an entry that matches, with no later entry matching, decides |
| Bot.LastMatchIgnoresCase | opencv_bot/app.py:123-125 | the upper-cased token resolves to the same transform |
| Bot.Resolve | opencv_bot/app.py:120-125 | the scan that overwrites `func` on every match ends with the last match, and with None exactly when nothing matched |
| Bot.CatalogAlternatives | opencv_bot/app.py:15-28 | a catalog fact: GRAY accepts "grey" or "gray", HISTEQ "histeq" or "contrast", DFT "fourier" or "dft" |
| Bot.OnlyThreshAnchored | opencv_bot/app.py:14-31 | a catalog fact: THRESH is the only catalog entry with a start anchor |
| Bot.Callback | opencv_bot/app.py:118-137 | the handler's call is the one Dispatch describes: token 0 resolved, token 1 as argument, call shape set by argument and image |
| Bot.DispatchOneWord | opencv_bot/app.py:127-136 | a command without a space is matched whole, and func(img) is called |
| Bot.DispatchWithArgument | opencv_bot/app.py:118-134 | "a b" matches a alone and passes b; with no image nothing is called |
| Bot.DispatchIgnoresRest | opencv_bot/app.py:118-128 | fields after the second do not change the call |
| Bot.UnmatchedWord | opencv_bot/app.py:120-131 | a word no entry matches leads to no call |
| Bot.LastMatchingEntryDecides | opencv_bot/app.py:123-136 | a word is handled by the last entry it matches, whatever earlier entries match too |
| Bot.EmptyCommand | opencv_bot/app.py:99-131 | the empty command is the token "" and leads to no call |
| Bot.BlurLettersMissLater | opencv_bot/app.py:24-30 | no entry after BLUR matches a word spelled with the letters of "blurred" |
| Bot.BlurWins | opencv_bot/app.py:17-125 | such a word holding "blur" selects BLUR even when it also matches RED |
| Bot.BlurredIsBlur | opencv_bot/app.py:17-125 | "blurred" matches RED and BLUR, and calls the blur |
| Bot.ThreshDecides | opencv_bot/app.py:30-125 | a token starting with "thresh" always selects THRESH, the last entry |
| Bot.RotateDecides | opencv_bot/app.py:29-125 | "rot" in a token not starting with "thresh" selects ROTATE |
| Bot.RotateCcw | opencv_bot/app.py:29-134 | "rotate ccw" with a photo calls get_rotated(img, "ccw"), which turns counter-clockwise |
| Bot.ThreshBininv | opencv_bot/app.py:30-134 | "thresh bininv" with a photo calls get_threshold(img, "bininv"), which selects BINARY |
| ImgProc.Channel | opencv_bot/utils/imgproc.py:7-9 | `frame[:, :, k]` is channel k verbatim at the same height and width; IndexError on a 2-D frame or a missing channel |
| ImgProc.Red | opencv_bot/utils/imgproc.py:7 | red is channel 2, verbatim |
| ImgProc.Green | opencv_bot/utils/imgproc.py:8 | green is channel 1, verbatim |
| ImgProc.Blue | opencv_bot/utils/imgproc.py:9 | blue is channel 0, verbatim |
| ImgProc.ChannelsRebuildPixel | opencv_bot/utils/imgproc.py:7-9 | on a three-channel frame, blue, green and red together give back every pixel |
| ImgProc.HsvChannel | opencv_bot/utils/imgproc.py:10-12 | hue, sat and val are channels 0, 1, 2 of the HSV conversion, whose error is passed on |
| ImgProc.BlurSizeOfNumeral | opencv_bot/utils/imgproc.py:18-19 | the kernel side is 3 by default and n for the numeral of n |
| ImgProc.BlurSizeNeedsDigit | opencv_bot/utils/imgproc.py:19 | an argument without a digit raises ValueError; there is no fallback |
| ImgProc.GetBlur | opencv_bot/utils/imgproc.py:18-19 | the blur succeeds exactly when the size parses, and then uses a square kernel of that size |
| ImgProc.FilterPasses | opencv_bot/utils/imgproc.py:28-29 | the loop applies the filter `len(range(1, lvl))` times |
| ImgProc.SharpPassCount | opencv_bot/utils/imgproc.py:22-29 | for the numeral of n the filter runs max(0, min(n, 10) - 1) times; never by default |
| ImgProc.SharpAtMostNine | opencv_bot/utils/imgproc.py:25-28 | never more than nine passes |
| ImgProc.GetSharp | opencv_bot/utils/imgproc.py:22-30 | get_sharp is that many filter passes, the input itself for a level of at most 1, an error when int() fails |
| ImgProc.FirstModeIsEarliest | opencv_bot/utils/imgproc.py:122-124 | the selected mode is that of the earliest matching table entry; none exactly when nothing matches |
| ImgProc.FirstModeAt | opencv_bot/utils/imgproc.py:122-124 | a matching entry with no earlier match decides the mode |
| ImgProc.CodesMatchNothing | opencv_bot/utils/imgproc.py:123-124 | once a mode is stored, the text of its integer matches no pattern, so later entries never replace it |
| ImgProc.GetThreshold | opencv_bot/utils/imgproc.py:110-127 | the loop's result is the earliest-match mode at cutoff 127 and maximum 255; an unmatched text gives TypeError |
| ImgProc.ThresholdDefault | opencv_bot/utils/imgproc.py:119-120 | None selects BINARY |
| ImgProc.ThresholdBininv | opencv_bot/utils/imgproc.py:112-113 | "bininv" selects BINARY, because `^bin` is tested first |
| ImgProc.ThresholdTozeroinv | opencv_bot/utils/imgproc.py:115-116 | "tozeroinv" selects TOZERO, because `^tozero` is tested first |
| ImgProc.TozeroinvMatches | opencv_bot/utils/imgproc.py:112-115 | "tozeroinv" fails the first three patterns and matches `^tozero` |
| ImgProc.ThresholdXbininv | opencv_bot/utils/imgproc.py:112-113 | "xbininv" selects BINARY_INV |
| ImgProc.ThresholdUpperCase | opencv_bot/utils/imgproc.py:114 | "TRUNC" selects TRUNC: the match ignores case |
| ImgProc.ThresholdUnknown | opencv_bot/utils/imgproc.py:121-126 | a text no pattern matches selects no mode |
| ImgProc.GetRotated | opencv_bot/utils/imgproc.py:103-107 | a rotated frame exactly when a direction matched, with height and width exchanged, and that frame is the quarter turn in the direction RotationFor chose |
| ImgProc.RotateThereAndBack | opencv_bot/utils/imgproc.py:103-107 | the default turn followed by "ccw" gives the frame back |
| ImgProc.RotateRight | opencv_bot/utils/imgproc.py:104 | "Right" turns clockwise |
| ImgProc.RotateLeft | opencv_bot/utils/imgproc.py:106 | "LEFT" turns counter-clockwise |
| ImgProc.RotateNowhere | opencv_bot/utils/imgproc.py:104-107 | "xccw", with no "right", "left" or leading "cw"/"ccw", selects no turn |
| ImgProc.CounterClockwiseIff | opencv_bot/utils/imgproc.py:104-107 | counter-clockwise exactly when neither clockwise alternative matches and a counter-clockwise one does |
| Grid.Crop | opencv_bot/utils/imgproc.py:86 | the top-left window keeps every cell at its coordinates |
| Grid.Turn | opencv_bot/utils/imgproc.py:105-107 | a quarter turn exchanges height and width |
| Grid.TurnRoundTrip | opencv_bot/utils/imgproc.py:105-107 | a clockwise turn and a counter-clockwise turn undo each other |
| Grid.FourTurns | opencv_bot/utils/imgproc.py:105 | four clockwise turns give the frame back |
| Spectrum.Pad | opencv_bot/utils/imgproc.py:66-71 | the padded image is m by n, equals the grey image on its own rows and columns and is 0 on the added bottom rows and right columns; smaller targets fail |
| Spectrum.PadThenCrop | opencv_bot/utils/imgproc.py:66-71 | cropping the padded image to the original size gives the original |
| Spectrum.EvenPart | opencv_bot/utils/imgproc.py:86 | `n & -2` clears bit 0: the largest even number not above n |
| Spectrum.ShiftAt | opencv_bot/utils/imgproc.py:89-98 | cell (i, j) of the swapped spectrum is input cell ((i+cx) mod 2cx, (j+cy) mod 2cy) |
| Spectrum.ShiftInvolution | opencv_bot/utils/imgproc.py:89-98 | swapping the quadrants twice restores the spectrum |
| Spectrum.ShiftMultiset | opencv_bot/utils/imgproc.py:89-98 | the swap keeps the multiset of values |
| Spectrum.CopyBlock | opencv_bot/utils/imgproc.py:93-96 | `np.copy` of a quadrant gives a fresh array with its cells |
| Spectrum.AssignBlock | opencv_bot/utils/imgproc.py:94-98 | a slice assignment sets the window from the source and changes no other cell |
| Spectrum.ExchangeBlocks | opencv_bot/utils/imgproc.py:93-98 | copying through `tmp` exchanges two disjoint quadrants and nothing else |
| Spectrum.SwapQuadrants | opencv_bot/utils/imgproc.py:93-98 | the four assignments give the half-period cyclic shift on the even window |
| Spectrum.Recentre | opencv_bot/utils/imgproc.py:84-98 | cx and cy are half the plane's sizes, 2cx by 2cy is the even crop, and the crop afterwards is the Shift of the crop before |
| LegacyImgProc.First | utils/imgproc.py:16-23 | `args[0]`: the first item of a list, the first character of a string, IndexError when empty |
| LegacyImgProc.LegacyBlurSizes | utils/imgproc.py:15-16 | size 3 by default, n for ["n"], 1 for the string "15", IndexError for [] |
| LegacyImgProc.LegacyBlurFirstDigit | utils/imgproc.py:16 | a string argument contributes its first digit alone |
| LegacyImgProc.LegacyGetBlur | utils/imgproc.py:15-17 | the blur succeeds exactly when the size does, with a square kernel of that size, and passes on its error |
| LegacyImgProc.LegacySharpPasses | utils/imgproc.py:20-26 | for ["n"], n - 1 passes up to 100 and 9 above; none by default |
| LegacyImgProc.LegacySharpNotMonotone | utils/imgproc.py:24 | any count above 100 filters fewer times than any count from 11 to 100 |
| LegacyImgProc.LegacyGetSharp | utils/imgproc.py:20-27 | that many filter passes, at most 99, the input itself by default, an error when the count does not parse |
| LegacyImgProc.LegacyCounterClockwiseIff | utils/imgproc.py:109-112 | counter-clockwise exactly when the argument holds "left" but neither "right" nor "cw" |
| LegacyImgProc.LegacyRotationExamples | utils/imgproc.py:106-112 | the default and "ccw" turn clockwise, "LEFT" counter-clockwise, "up" not at all |
| LegacyImgProc.LegacyGetRotated | utils/imgproc.py:106-112 | a rotated frame exactly when a direction matched, with height and width exchanged, and that frame is the quarter turn in the direction LegacyRotationFor chose; its error is passed on |
| LegacyImgProc.LegacyNoUndo | utils/imgproc.py:107-110 | "ccw" gives the same clockwise turn as the default, so it cannot undo it |
| LegacyBot.FirstFiringIsEarliest | app.py:80-149 | the first-match reading of a chain of tests: nothing exactly when no test succeeds, otherwise a succeeding test with none before it |
| LegacyBot.SelectFollowsChain | app.py:80-146 | the if/elif chain selects what the table of its tests selects first |
| LegacyBot.ChainPrefixQuiet | app.py:80-146 | when every test before k fails, the chain reaches test k |
| LegacyBot.SelectIsFirstMatch | app.py:80-149 | the chain selects the first succeeding test, and nothing exactly when none succeeds |
| LegacyBot.Callback | app.py:77-146 | the handler, with its sharpen loop, produces the outcome Respond describes |
| LegacyBot.ShapeGuardsPass | app.py:77-114 | `len(bgr.shape) > 1` holds for every frame: a failing HSV conversion stops every command, and the hue, sat and val tests never fall through |
| LegacyBot.UnmatchedIsSilent | app.py:148-149 | a text no test matches produces nothing |
| LegacyBot.ChannelBranchSends | app.py:89-114 | red, green and blue send channel 2, 1, 0 of the frame, hue, sat and val the same channels of the HSV frame, verbatim, or fail with IndexError |
| LegacyBot.BlurNeedsSecondToken | app.py:116-118 | blur without a space fails with IndexError; there is no default size |
| LegacyBot.BlurTakesSecondToken | app.py:116-120 | "word n" blurs with an n-by-n kernel |
| LegacyBot.BlurSecondToken | app.py:117-119 | the blur branch uses int() of field 1 as the kernel side |
| LegacyBot.NumeralIsSecondField | app.py:117-127 | "word n" splits into the word and the numeral, which int() reads back as n |
| LegacyBot.SharpWithoutSpace | app.py:125-135 | sharpen without a space sends the frame unfiltered |
| LegacyBot.SharpAtMost99 | app.py:127-133 | sharpen never filters more than 99 times |
| LegacyBot.SharpPasses | app.py:125-133 | for "word n": n - 1 passes up to 100, 99 above, none for n at most 1 |
| LegacyBot.BlurredIsRed | app.py:89-116 | "blurred" selects the red channel: RED is tested before BLUR |
| LegacyBot.RotateLettersReachRotate | app.py:80-137 | a text holding "rot" and spelled with the letters of "rotate", "ccw" and "left" reaches the rotate branch |
| LegacyBot.RotateCcwTurnsClockwise | app.py:137-142 | "rotate ccw" turns clockwise, because "cw" is tested first |
| LegacyBot.RotateLeftTurnsCounterClockwise | app.py:137-144 | "rotate left" turns counter-clockwise |
| LegacyBot.RotateDefaultsClockwise | app.py:137-140 | plain "rotate" turns clockwise |
| LegacyBot.CounterClockwiseIff | app.py:139-144 | counter-clockwise exactly when the text holds "left" but neither "right" nor "cw" |

## Left out

- Telegram I/O is not modelled: the handlers start and unknown, main, the
  updater and the dispatcher, the file download and upload, and logging.
  The newer bot's send_cv_frame is reduced to its outcome: a Dropped call
  stands for the None result that is logged and never sent.
- Writing and reading temp.png and img.png is disk I/O. The decoded photo is a
  parameter of both handlers.
- OpenCV's colour conversion, blur, filter2D and threshold are function
  parameters with no assumed behaviour; so is cv2.rotate in LegacyBot, while
  ImgProc and LegacyImgProc turn the grid by the explicit index maps of Grid.
  cv2.blur's own rejection of a non-positive size is therefore not modelled.
  normalize, Sobel and equalizeHist do not appear in the model at all.
- The per-pixel rule of cv2.threshold belongs to OpenCV and is not modelled.
  Only the mode, the cutoff 127 and the maximum 255 passed to it are.
- getOptimalDFTSize is left out. Spectrum.Pad takes the target sizes as
  parameters and fails when they are smaller than the image.
- The DFT, the magnitude, the additions and both logarithms of get_dft are
  floating point. The crop and the swap are modelled over any element type.
- `norm`, `get_sobel` and `histeq` are compositions of OpenCV calls with no
  integer or string logic of the repository's own: `norm` is one
  cv2.normalize, `histeq` is equalizeHist of the grey frame, and `get_sobel`
  combines two Sobel gradients of the grey frame with convertScaleAbs and
  addWeighted. In the newer bot they are catalog entries; their bodies are not
  modelled.
- Case folding is ASCII only. Python's `(?i)` also folds some non-ASCII
  letters, and its `int()` accepts non-ASCII digits; neither is modelled.
- Python's exceptions are an abstract error value in a Result, with no stack
  or message. Calling a transform with the wrong number of arguments raises
  TypeError in the newer bot; this is not modelled, so Bot.Dispatch stops at
  the shape of the call.
- Bot.Dispatch records `func(img)` with no image as a call on None, and the
  outcome of that call is not modelled. It depends on the transform. `red`,
  `green` and `blue` subscript None and raise TypeError. `get_sharp` with its
  default level makes no filter pass and returns None, which send_cv_frame
  logs and does not send. The others hand None to an OpenCV routine.
- ImgProc.Channel: a colour frame with no pixels reports every channel index
  as present, because Frame does not record the channel count of an empty
  image; numpy raises IndexError there for an index past the channel axis.
- setup.py holds packaging metadata only.
