/** The regular expressions of the bots, all compiled with the (?i) flag. Each
    is an unanchored literal, a literal anchored at the start of the text with
    '^', or an alternation; a character class such as gr[ea]y is the
    alternation of its two spellings. Words are stored in lower case. */
module Pattern {
  import opened Text

  datatype Pattern =
    | Anywhere(word: string)
    | AtStart(word: string)
    | Either(left: Pattern, right: Pattern)

  /** re.search(p, s) is not None, for ASCII case folding. */
  predicate Search(p: Pattern, s: string) {
    match p
    case Anywhere(w) => IsInfix(w, Lower(s))
    case AtStart(w) => StartsWith(w, Lower(s))
    case Either(a, b) => Search(a, s) || Search(b, s)
  }

  /** Length of the shortest text some branch of p can match. */
  function MinWord(p: Pattern): nat {
    match p
    case Anywhere(w) => |w|
    case AtStart(w) => |w|
    case Either(a, b) => if MinWord(a) <= MinWord(b) then MinWord(a) else MinWord(b)
  }

  /** A text shorter than every word of p is never matched; in particular
      the empty text matches no pattern whose words are non-empty. */
  lemma {:induction false} ShortTextNeverMatches(p: Pattern, s: string)
    requires |s| < MinWord(p)
    ensures !Search(p, s)
  {
    match p
    case Anywhere(w) =>
      if IsInfix(w, Lower(s)) { InfixNotLonger(w, Lower(s)); }
    case AtStart(w) =>
      StartsWithIsPrefix(w, Lower(s));
    case Either(a, b) =>
      ShortTextNeverMatches(a, s);
      ShortTextNeverMatches(b, s);
  }

  /** An unanchored word matches exactly when the folded text holds it at some position. */
  lemma SearchAnywhereIff(w: string, s: string)
    ensures Search(Anywhere(w), s) <==> exists i :: OccursAt(w, Lower(s), i)
  {
    InfixIffOccurs(w, Lower(s));
  }

  /** Matching ignores case: upper-casing the text changes no verdict. */
  lemma {:induction false} SearchIgnoresCase(p: Pattern, s: string)
    ensures Search(p, Upper(s)) <==> Search(p, s)
  {
    LowerForgetsCase(s);
    match p
    case Anywhere(w) =>
    case AtStart(w) =>
    case Either(a, b) =>
      SearchIgnoresCase(a, s);
      SearchIgnoresCase(b, s);
  }

  /** An anchored match is also an unanchored one. */
  lemma AnchoredIsFound(w: string, s: string)
    requires Search(AtStart(w), s)
    ensures Search(Anywhere(w), s)
  {
  }

  /** A word found in s makes every word it contains found in s too
      ("ccw" in a text means "cw" is in it as well). */
  lemma FoundWithin(u: string, w: string, s: string)
    requires IsInfix(u, w) && Search(Anywhere(w), s)
    ensures Search(Anywhere(u), s)
  {
    InfixTransitive(u, w, Lower(s));
  }

  /** Witness helper for concrete examples: w sits at index i of the folded text. */
  lemma FoundAt(w: string, s: string, i: nat)
    requires OccursAt(w, Lower(s), i)
    ensures Search(Anywhere(w), s)
  {
    InfixIffOccurs(w, Lower(s));
  }

  /** Refutation helper for concrete examples: some letter of w never
      appears in the folded text. */
  lemma {:induction false} LetterAbsent(w: string, s: string, j: nat)
    requires j < |w| && w[j] !in Lower(s)
    ensures !Search(Anywhere(w), s)
  {
    InfixIffOccurs(w, Lower(s));
  }

  /** Refutation helper for concrete examples: the folded text does not
      begin with the first letter of w. */
  lemma NotAtStart(w: string, s: string)
    requires |w| > 0 && (|s| == 0 || w[0] != Lower(s)[0])
    ensures !Search(AtStart(w), s)
  {
  }

  /** Every character of the folded text is in A. */
  predicate LettersIn(s: string, A: set<char>) {
    forall i :: 0 <= i < |Lower(s)| ==> Lower(s)[i] in A
  }

  /** A word with a letter outside the alphabet of the text is not found
      in it, anchored or not. */
  lemma LetterOutside(p: Pattern, s: string, A: set<char>, j: nat)
    requires p.Anywhere? || p.AtStart?
    requires LettersIn(s, A) && j < |p.word| && p.word[j] !in A
    ensures !Search(p, s)
  {
    InfixIffOccurs(p.word, Lower(s));
    StartsWithIsPrefix(p.word, Lower(s));
  }
}
