/**
 * Answer normalisation shared by the verb-forms card and the sentence card
 * (`removePunctuation`, `validateInput`), and the weaker case-and-trim fold
 * used by the modal-verb card.
 *
 * Strings are sequences of Unicode scalar values. Lower-casing is a fixed
 * per-character table; trimming removes the ECMAScript WhiteSpace and
 * LineTerminator code points from both ends.
 */
module Normalize {

  /** The characters of the bracket expression `[.,\/#!$%\^&\*;:{}=\-_`~()]`. */
  predicate IsPunctuation(c: char)
    ensures IsPunctuation(c) ==> '!' <= c <= '~' && !('A' <= c <= 'Z')
  {
    || c == '.' || c == ',' || c == '/' || c == '#' || c == '!' || c == '$' || c == '%'
    || c == '^' || c == '&' || c == '*' || c == ';' || c == ':' || c == '{' || c == '}'
    || c == '=' || c == '-' || c == '_' || c == '`' || c == '~' || c == '(' || c == ')'
  }

  /** The code points `String.prototype.trim` removes: TAB, VT, FF, SP, NBSP,
      ZWNBSP, the other space separators, and the four line terminators. */
  predicate IsSpace(c: char)
    ensures IsSpace(c) ==> !('!' <= c <= '~')
  {
    || c == '\t' || c == '\n' || c == '\U{0B}' || c == '\U{0C}' || c == '\r'
    || c == ' ' || c == '\U{A0}' || c == '\U{1680}'
    || ('\U{2000}' <= c <= '\U{200A}')
    || c == '\U{2028}' || c == '\U{2029}' || c == '\U{202F}' || c == '\U{205F}'
    || c == '\U{3000}' || c == '\U{FEFF}'
  }

  /** Upper-case letters the model folds: ASCII, Latin-1 (which holds the
      German umlauts) and the capital sharp s. */
  predicate IsUpper(c: char) {
    || ('A' <= c <= 'Z')
    || ('\U{C0}' <= c <= '\U{DE}' && c != '\U{D7}')
    || c == '\U{1E9E}'
  }

  /** The lower-case letters `Lower` produces. */
  predicate IsLowerLetter(c: char) {
    || ('a' <= c <= 'z')
    || ('\U{DF}' <= c <= '\U{FE}' && c != '\U{F7}')
  }

  /** Lower-casing one character: an upper-case letter becomes a lower-case
      letter, every other character is left alone. */
  function Lower(c: char): (d: char)
    ensures !IsUpper(d)
    ensures !IsUpper(c) ==> d == c
    ensures IsUpper(c) ==> IsLowerLetter(d)
  {
    if 'A' <= c <= 'Z' || ('\U{C0}' <= c <= '\U{DE}' && c != '\U{D7}') then
      (c as int + 32) as char
    else if c == '\U{1E9E}' then
      '\U{DF}'
    else
      c
  }

  /** What stripping leaves of one character. */
  function Keep(c: char): (r: string)
    ensures r == [] <==> IsPunctuation(c)
    ensures r != [] ==> r == [c]
  {
    if IsPunctuation(c) then [] else [c]
  }

  /** `str.replace(/[...]/g, "")`: every punctuation character is deleted,
      every other character is kept in order. */
  function StripPunctuation(s: string): (r: string)
    ensures |r| <= |s|
    ensures forall j :: 0 <= j < |r| ==> !IsPunctuation(r[j])
  {
    if s == [] then [] else Keep(s[0]) + StripPunctuation(s[1..])
  }

  /** `toLowerCase`, character by character. */
  function ToLower(s: string): (r: string)
    ensures |r| == |s|
    ensures forall j :: 0 <= j < |s| ==> r[j] == Lower(s[j])
    ensures forall j :: 0 <= j < |r| ==> !IsUpper(r[j])
  {
    seq(|s|, j requires 0 <= j < |s| => Lower(s[j]))
  }

  /** An answer without punctuation is left as it is by stripping. */
  lemma {:induction false} StripPunctuationPlain(s: string)
    requires forall j :: 0 <= j < |s| ==> !IsPunctuation(s[j])
    ensures StripPunctuation(s) == s
    decreases |s|
  {
    if s != [] {
      StripPunctuationPlain(s[1..]);
      assert [s[0]] + s[1..] == s;
    }
  }

  /** An answer without upper-case letters is left as it is by lower-casing. */
  lemma ToLowerCaseless(s: string)
    requires forall j :: 0 <= j < |s| ==> !IsUpper(s[j])
    ensures ToLower(s) == s
  {
  }

  /** The index of the first character at or after `i` that is not
      whitespace, or `|s|` when there is none. */
  function SkipSpaces(s: string, i: nat): (k: nat)
    requires i <= |s|
    ensures i <= k <= |s|
    ensures forall j :: i <= j < k ==> IsSpace(s[j])
    ensures k == |s| || !IsSpace(s[k])
    decreases |s| - i
  {
    if i == |s| || !IsSpace(s[i]) then i else SkipSpaces(s, i + 1)
  }

  /** The index just past the last character before `hi` (and not before
      `lo`) that is not whitespace, or `lo` when there is none. */
  function SkipSpacesBack(s: string, lo: nat, hi: nat): (k: nat)
    requires lo <= hi <= |s|
    ensures lo <= k <= hi
    ensures forall j :: k <= j < hi ==> IsSpace(s[j])
    ensures k == lo || !IsSpace(s[k - 1])
    decreases hi
  {
    if hi == lo || !IsSpace(s[hi - 1]) then hi else SkipSpacesBack(s, lo, hi - 1)
  }

  /** Where `trim` starts and ends in `s`. */
  function TrimStart(s: string): (lo: nat)
    ensures lo <= |s|
  {
    SkipSpaces(s, 0)
  }

  function TrimEnd(s: string): (hi: nat)
    ensures TrimStart(s) <= hi <= |s|
  {
    SkipSpacesBack(s, TrimStart(s), |s|)
  }

  /** `trim`: the slice of `s` left after removing the whitespace at both
      ends; nothing inside is removed, and the slice is as long as it can be. */
  function Trim(s: string): (r: string)
    ensures r == s[TrimStart(s)..TrimEnd(s)]
    ensures forall j :: 0 <= j < TrimStart(s) ==> IsSpace(s[j])
    ensures forall j :: TrimEnd(s) <= j < |s| ==> IsSpace(s[j])
    ensures r == [] || (!IsSpace(r[0]) && !IsSpace(r[|r| - 1]))
  {
    s[TrimStart(s)..TrimEnd(s)]
  }

  /** A string with no whitespace at either end is its own trim. */
  lemma TrimmedIsFixed(s: string)
    requires s == [] || (!IsSpace(s[0]) && !IsSpace(s[|s| - 1]))
    ensures Trim(s) == s
  {
  }

  /** What a normalised answer looks like: no punctuation, no upper-case
      letter, no whitespace at either end. */
  predicate IsNormal(r: string) {
    && (forall j :: 0 <= j < |r| ==> !IsPunctuation(r[j]) && !IsUpper(r[j]))
    && (r == [] || (!IsSpace(r[0]) && !IsSpace(r[|r| - 1])))
  }

  /** `removePunctuation`: strip punctuation, lower-case, trim, in that order. */
  function Normalise(s: string): (r: string)
    ensures IsNormal(r)
    ensures |r| <= |s|
  {
    var lowered := ToLower(StripPunctuation(s));
    var r := Trim(lowered);
    assert forall j :: 0 <= j < |r| ==> r[j] == lowered[TrimStart(lowered) + j];
    r
  }

  /** A normal answer is its own normal form. */
  lemma NormalIsFixed(n: string)
    requires IsNormal(n)
    ensures Normalise(n) == n
  {
    StripPunctuationPlain(n);
    ToLowerCaseless(n);
    TrimmedIsFixed(n);
  }

  /** Normalising twice equals normalising once. */
  lemma NormaliseIdempotent(s: string)
    ensures Normalise(Normalise(s)) == Normalise(s)
  {
    NormalIsFixed(Normalise(s));
  }

  /** `validateInput`: the two answers agree after normalisation. */
  function Validate(input: string, correct: string): (r: bool)
    ensures input == correct ==> r
    ensures IsNormal(correct) ==> (r <==> Normalise(input) == correct)
  {
    if IsNormal(correct) then NormalIsFixed(correct); Normalise(input) == Normalise(correct)
    else Normalise(input) == Normalise(correct)
  }

  /** Validation is an equivalence relation on answers. */
  lemma ValidateIsEquivalence(a: string, b: string, c: string)
    ensures Validate(a, a)
    ensures Validate(a, b) <==> Validate(b, a)
    ensures Validate(a, b) && Validate(b, c) ==> Validate(a, c)
  {
  }

  /** Validation accepts exactly the answers with the same normal form, and an
      answer always validates against its own normal form. */
  lemma ValidateAgainstNormalForm(input: string, correct: string)
    ensures Validate(input, correct) <==> Normalise(input) == Normalise(correct)
    ensures Validate(input, Normalise(input))
  {
    NormaliseIdempotent(input);
  }

  /** Stripping works character by character: it distributes over
      concatenation. */
  lemma {:induction false} StripPunctuationConcat(a: string, b: string)
    ensures StripPunctuation(a + b) == StripPunctuation(a) + StripPunctuation(b)
    decreases |a|
  {
    if a != [] {
      assert (a + b)[1..] == a[1..] + b;
      StripPunctuationConcat(a[1..], b);
    } else {
      assert a + b == b;
    }
  }

  /** An answer without punctuation and without whitespace at its ends
      normalises to its lower-case form. */
  lemma NormalisePlain(s: string)
    requires forall j :: 0 <= j < |s| ==> !IsPunctuation(s[j])
    requires s == [] || (!IsSpace(s[0]) && !IsSpace(s[|s| - 1]))
    ensures Normalise(s) == ToLower(s)
  {
    StripPunctuationPlain(s);
    if s != [] {
      LowerKeepsSpace(s[0]);
      LowerKeepsSpace(s[|s| - 1]);
    }
    TrimmedIsFixed(ToLower(s));
  }

  /** A punctuation character anywhere in an answer makes no difference. */
  lemma PunctuationInvisible(x: string, p: char, y: string)
    requires IsPunctuation(p)
    ensures Normalise(x + [p] + y) == Normalise(x + y)
  {
    assert StripPunctuation([p]) == [] by {
      assert [p][1..] == [];
    }
    StripPunctuationConcat(x, [p]);
    assert StripPunctuation(x + [p]) == StripPunctuation(x);
    StripPunctuationConcat(x + [p], y);
    StripPunctuationConcat(x, y);
    assert StripPunctuation(x + [p] + y) == StripPunctuation(x + y);
  }

  /** A trailing punctuation mark makes no difference. */
  lemma TrailingPunctuationInvisible(x: string, p: char)
    requires IsPunctuation(p)
    ensures Normalise(x + [p]) == Normalise(x)
  {
    PunctuationInvisible(x, p, []);
    assert x + [p] + [] == x + [p];
    assert x + [] == x;
  }

  /** Two punctuation-free words joined by a punctuation-free separator
      normalise to their lower-case join. */
  lemma NormaliseJoined(x: string, sep: string, y: string)
    requires forall j :: 0 <= j < |x| ==> !IsPunctuation(x[j])
    requires forall j :: 0 <= j < |sep| ==> !IsPunctuation(sep[j])
    requires forall j :: 0 <= j < |y| ==> !IsPunctuation(y[j])
    requires x != [] && y != [] && !IsSpace(x[0]) && !IsSpace(y[|y| - 1])
    ensures Normalise(x + sep + y) == ToLower(x + sep + y)
  {
    var u := x + sep + y;
    assert forall j :: 0 <= j < |u| ==> !IsPunctuation(u[j]);
    assert u[0] == x[0] && u[|u| - 1] == y[|y| - 1];
    NormalisePlain(u);
  }

  /** Punctuation is removed before trimming, so the spaces on both sides of
      an inner punctuation mark survive: two words around " . " normalise to
      the two words with two spaces between them, which does not validate
      against the same words with one space. */
  lemma InnerSpacesKept(x: string, p: char, y: string)
    requires IsPunctuation(p)
    requires forall j :: 0 <= j < |x| ==> !IsPunctuation(x[j])
    requires forall j :: 0 <= j < |y| ==> !IsPunctuation(y[j])
    requires x != [] && y != [] && !IsSpace(x[0]) && !IsSpace(y[|y| - 1])
    ensures Normalise(x + [' ', p, ' '] + y) == ToLower(x + [' ', ' '] + y)
    ensures !Validate(x + [' ', p, ' '] + y, x + [' '] + y)
  {
    SpacedPunctuationInvisible(x, p, y);
    NormaliseJoined(x, [' ', ' '], y);
    NormaliseJoined(x, [' '], y);
    assert |ToLower(x + [' ', ' '] + y)| != |ToLower(x + [' '] + y)|;
  }

  lemma SpacedPunctuationInvisible(x: string, p: char, y: string)
    requires IsPunctuation(p)
    ensures Normalise(x + [' ', p, ' '] + y) == Normalise(x + [' ', ' '] + y)
  {
    assert x + [' ', p, ' '] + y == (x + [' ']) + [p] + ([' '] + y);
    assert x + [' ', ' '] + y == (x + [' ']) + ([' '] + y);
    PunctuationInvisible(x + [' '], p, [' '] + y);
  }

  /** The instance "a . b", which normalises to "a  b". */
  lemma InnerSpacesExample(s: string)
    requires s == "a . b"
    ensures Normalise(s) == "a  b"
    ensures !Validate(s, "a b")
  {
    InnerSpacesKept(s[..1], s[2], s[4..]);
    assert s == s[..1] + [' ', s[2], ' '] + s[4..];
    assert s[..1] + [' ', ' '] + s[4..] == "a  b";
    assert s[..1] + [' '] + s[4..] == "a b";
    ToLowerCaseless("a  b");
  }

  /** The case-and-trim fold of the modal-verb card: `toLowerCase().trim()`,
      with no punctuation stripping. */
  function Fold(s: string): (r: string)
    ensures forall j :: 0 <= j < |r| ==> !IsUpper(r[j])
    ensures r == [] || (!IsSpace(r[0]) && !IsSpace(r[|r| - 1]))
    ensures |r| <= |s|
  {
    var lowered := ToLower(s);
    var r := Trim(lowered);
    assert forall j :: 0 <= j < |r| ==> r[j] == lowered[TrimStart(lowered) + j];
    r
  }

  lemma LowerKeepsSpace(c: char)
    ensures IsSpace(Lower(c)) <==> IsSpace(c)
  {
  }

  lemma {:induction false} SkipSpacesIgnoresCase(s: string, i: nat)
    requires i <= |s|
    ensures SkipSpaces(ToLower(s), i) == SkipSpaces(s, i)
    decreases |s| - i
  {
    if i < |s| {
      LowerKeepsSpace(s[i]);
      if IsSpace(s[i]) {
        SkipSpacesIgnoresCase(s, i + 1);
      }
    }
  }

  lemma {:induction false} SkipSpacesBackIgnoresCase(s: string, lo: nat, hi: nat)
    requires lo <= hi <= |s|
    ensures SkipSpacesBack(ToLower(s), lo, hi) == SkipSpacesBack(s, lo, hi)
    decreases hi
  {
    if lo < hi {
      LowerKeepsSpace(s[hi - 1]);
      if IsSpace(s[hi - 1]) {
        SkipSpacesBackIgnoresCase(s, lo, hi - 1);
      }
    }
  }

  /** Lower-casing never creates or removes whitespace, so the order of
      `toLowerCase` and `trim` in the modal card's comparison does not matter. */
  lemma FoldOrderIrrelevant(s: string)
    ensures Fold(s) == ToLower(Trim(s))
  {
    SkipSpacesIgnoresCase(s, 0);
    SkipSpacesBackIgnoresCase(s, TrimStart(s), |s|);
    var lo, hi := TrimStart(s), TrimEnd(s);
    assert Trim(ToLower(s)) == ToLower(s)[lo..hi];
    assert ToLower(s)[lo..hi] == ToLower(s[lo..hi]);
  }

  /** Normalisation is the fold applied after punctuation stripping. */
  lemma NormaliseIsFoldOfStripped(s: string)
    ensures Normalise(s) == Fold(StripPunctuation(s))
  {
  }

  /** An answer with no upper-case letter and no whitespace at its ends is
      its own fold. */
  lemma FoldPlain(s: string)
    requires forall j :: 0 <= j < |s| ==> !IsUpper(s[j])
    requires s == [] || (!IsSpace(s[0]) && !IsSpace(s[|s| - 1]))
    ensures Fold(s) == s
  {
    ToLowerCaseless(s);
    TrimmedIsFixed(s);
  }

  /** The fold is idempotent, like normalisation. */
  lemma FoldIdempotent(s: string)
    ensures Fold(Fold(s)) == Fold(s)
  {
    var f := Fold(s);
    ToLowerCaseless(f);
    TrimmedIsFixed(f);
  }

  /** Two worked answers: a trailing full stop and a capital letter are
      ignored, a different answer is rejected. */
  lemma AcceptsCapitalAndFullStop(a: string, b: string)
    requires a == "Ich gehe." && b == "ich gehe"
    ensures Validate(a, b)
  {
    var plain := a[..8];
    TrailingPunctuationInvisible(plain, a[8]);
    assert a == plain + [a[8]];
    ToLowerOfPlainAnswer(plain, b);
    NormalisePlain(b);
    ToLowerCaseless(b);
  }

  lemma ToLowerOfPlainAnswer(plain: string, b: string)
    requires plain == "Ich gehe" && b == "ich gehe"
    ensures Normalise(plain) == b
  {
    NormalisePlain(plain);
  }

  lemma RejectsOtherAnswer(c: string, d: string)
    requires c == "Ich gehe!" && d == "Du gehst"
    ensures !Validate(c, d)
  {
    var plain := c[..8];
    TrailingPunctuationInvisible(plain, c[8]);
    assert c == plain + [c[8]];
    ToLowerOfPlainAnswer(plain, "ich gehe");
    NormalisePlain(d);
    assert ToLower(d)[0] == 'd';
  }
}
