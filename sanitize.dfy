/** The filename sanitiser shared by the download endpoint and the web view:
    replace the characters Windows and Unix refuse in names, strip surrounding
    whitespace, cut to 200 characters, and fall back to "video" when nothing is left. */
module Sanitize {

  const MaxNameLength: nat := 200

  const Fallback: string := "video"

  /** The character class `[<>:"/\\|?*]`. */
  predicate IsIllegal(c: char) {
    c == '<' || c == '>' || c == ':' || c == '"' || c == '/' || c == '\\' || c == '|' || c == '?' || c == '*'
  }

  predicate NoIllegal(s: string) {
    forall i :: 0 <= i < |s| ==> !IsIllegal(s[i])
  }

  /** Python's `str.isspace` on one character, which is what `str.strip()` removes. */
  predicate IsSpace(c: char) {
    var n := c as int;
    (9 <= n <= 13) || (28 <= n <= 32) || n == 0x85 || n == 0xA0 || n == 0x1680
    || (0x2000 <= n <= 0x200A) || n == 0x2028 || n == 0x2029 || n == 0x202F
    || n == 0x205F || n == 0x3000
  }

  predicate AllSpace(s: string) {
    forall i :: 0 <= i < |s| ==> IsSpace(s[i])
  }

  function ReplaceChar(c: char): char {
    if IsIllegal(c) then '_' else c
  }

  /** Replacing an illegal character never creates or removes whitespace. */
  lemma ReplaceKeepsSpace(c: char)
    ensures IsSpace(ReplaceChar(c)) <==> IsSpace(c)
  {
  }

  /** `re.sub(illegal_chars, '_', s)`: every illegal character becomes '_', all others stay. */
  function ReplaceIllegal(s: string): (r: string)
    ensures |r| == |s|
    ensures forall i :: 0 <= i < |s| ==> r[i] == ReplaceChar(s[i])
    ensures NoIllegal(r)
  {
    if s == [] then [] else [ReplaceChar(s[0])] + ReplaceIllegal(s[1..])
  }

  /** Where `strip` starts: the first position from i on that is not whitespace, or |s|. */
  function ContentStart(s: string, i: nat): (k: nat)
    requires i <= |s|
    ensures i <= k <= |s|
    ensures forall m :: i <= m < k ==> IsSpace(s[m])
    ensures k < |s| ==> !IsSpace(s[k])
    decreases |s| - i
  {
    if i < |s| && IsSpace(s[i]) then ContentStart(s, i + 1) else i
  }

  /** Where `strip` ends: scanning back from j, never below lo, past whitespace. */
  function ContentEnd(s: string, lo: nat, j: nat): (k: nat)
    requires lo <= j <= |s|
    ensures lo <= k <= j
    ensures forall m :: k <= m < j ==> IsSpace(s[m])
    ensures lo < k ==> !IsSpace(s[k - 1])
    decreases j
  {
    if lo < j && IsSpace(s[j - 1]) then ContentEnd(s, lo, j - 1) else j
  }

  /** `str.strip()` with no argument: the text between the leading and the trailing whitespace. */
  function Strip(s: string): string {
    var lo := ContentStart(s, 0);
    s[lo..ContentEnd(s, lo, |s|)]
  }

  /** `s[:200]` when s is longer than 200 characters. */
  function Truncate(s: string): (r: string)
    ensures |r| <= MaxNameLength
    ensures |r| == |s| || |r| == MaxNameLength < |s|
    ensures forall i :: 0 <= i < |r| ==> r[i] == s[i]
  {
    if |s| > MaxNameLength then s[..MaxNameLength] else s
  }

  /** `sanitize_filename`: the result is never empty, never longer than 200
      characters and never holds one of `< > : " / \ | ? *`. */
  function SanitizeFilename(filename: string): (r: string)
    ensures 1 <= |r| <= MaxNameLength
    ensures NoIllegal(r)
  {
    var replaced := ReplaceIllegal(filename);
    var cut := Truncate(Strip(replaced));
    assert forall i :: 0 <= i < |cut| ==> cut[i] == replaced[ContentStart(replaced, 0) + i];
    if cut == [] then Fallback else cut
  }

  /** The whitespace of the replaced name is where the whitespace of the name was. */
  lemma ReplacedSpaces(filename: string)
    ensures forall i :: 0 <= i < |filename| ==>
      (IsSpace(ReplaceIllegal(filename)[i]) <==> IsSpace(filename[i]))
  {
    var x := ReplaceIllegal(filename);
    forall i | 0 <= i < |filename| ensures IsSpace(x[i]) <==> IsSpace(filename[i]) {
      ReplaceKeepsSpace(filename[i]);
    }
  }

  /** An empty or all-whitespace name falls back to "video". */
  lemma AllSpaceFallsBack(filename: string)
    requires AllSpace(filename)
    ensures SanitizeFilename(filename) == Fallback
  {
    ReplacedSpaces(filename);
    var x := ReplaceIllegal(filename);
    assert ContentStart(x, 0) == |x|;
  }

  /** `strip` keeps exactly x[lo..hi] when lo and hi - 1 are the first and last
      non-whitespace positions of x. */
  lemma StripCore(x: string, lo: nat, hi: nat)
    requires lo < hi <= |x|
    requires forall i :: 0 <= i < lo ==> IsSpace(x[i])
    requires forall i :: hi <= i < |x| ==> IsSpace(x[i])
    requires !IsSpace(x[lo]) && !IsSpace(x[hi - 1])
    ensures Strip(x) == x[lo..hi]
  {
    assert ContentStart(x, 0) == lo;
    assert ContentEnd(x, lo, |x|) == hi;
  }

  /** Characterisation of the result for a name with a non-blank core
      `filename[lo..hi]` (its first and last non-whitespace characters at lo and
      hi - 1): the answer is the first up-to-200 characters of that core, each
      illegal character replaced by '_'. */
  lemma SanitizeKeepsCore(filename: string, lo: nat, hi: nat)
    requires lo < hi <= |filename|
    requires forall i :: 0 <= i < lo ==> IsSpace(filename[i])
    requires forall i :: hi <= i < |filename| ==> IsSpace(filename[i])
    requires !IsSpace(filename[lo]) && !IsSpace(filename[hi - 1])
    ensures var r := SanitizeFilename(filename);
      |r| == (if hi - lo > MaxNameLength then MaxNameLength else hi - lo)
      && forall i :: 0 <= i < |r| ==> r[i] == ReplaceChar(filename[lo + i])
  {
    var x := ReplaceIllegal(filename);
    StripOfReplaced(filename, lo, hi);
    var core := x[lo..hi];
    var cut := Truncate(core);
    assert SanitizeFilename(filename) == cut;
    forall i | 0 <= i < |cut|
      ensures cut[i] == ReplaceChar(filename[lo + i])
    {
      assert cut[i] == core[i];
    }
  }

  /** Replacing keeps the whitespace in place, so stripping the replaced name
      keeps the replaced core. */
  lemma StripOfReplaced(filename: string, lo: nat, hi: nat)
    requires lo < hi <= |filename|
    requires forall i :: 0 <= i < lo ==> IsSpace(filename[i])
    requires forall i :: hi <= i < |filename| ==> IsSpace(filename[i])
    requires !IsSpace(filename[lo]) && !IsSpace(filename[hi - 1])
    ensures Strip(ReplaceIllegal(filename)) == ReplaceIllegal(filename)[lo..hi]
  {
    var x := ReplaceIllegal(filename);
    ReplacedSpaces(filename);
    StripCore(x, lo, hi);
  }

  /** A name that ends in whitespace is never returned unchanged. */
  lemma TrailingSpaceNotFixed(filename: string)
    requires |filename| > 0 && IsSpace(filename[|filename| - 1])
    ensures SanitizeFilename(filename) != filename
  {
    var x := ReplaceIllegal(filename);
    ReplacedSpaces(filename);
    assert IsSpace(x[|x| - 1]);
    var lo := ContentStart(x, 0);
    var hi := ContentEnd(x, lo, |x|);
    assert hi < |x| || lo == |x|;
    var cut := Truncate(Strip(x));
    assert |cut| < |filename|;
    if cut == [] {
      assert !IsSpace(Fallback[|Fallback| - 1]);
    }
  }

  /** Truncation happens after stripping, so a cut can end in whitespace; then a
      second pass is not a no-op. Any name whose 200th character is a space and
      whose core runs past it shows this. */
  lemma TruncationCanEndInSpace(filename: string)
    requires |filename| > MaxNameLength
    requires !IsSpace(filename[0]) && !IsSpace(filename[|filename| - 1])
    requires filename[MaxNameLength - 1] == ' '
    ensures var r := SanitizeFilename(filename);
      IsSpace(r[|r| - 1]) && SanitizeFilename(r) != r
  {
    SanitizeKeepsCore(filename, 0, |filename|);
    var r := SanitizeFilename(filename);
    assert r[MaxNameLength - 1] == ReplaceChar(' ');
    TrailingSpaceNotFixed(r);
  }

  /** A sanitised name that does not end in whitespace is a fixed point. */
  lemma SanitizeIdempotentWithoutTrailingSpace(filename: string)
    requires var r := SanitizeFilename(filename); !IsSpace(r[|r| - 1])
    ensures SanitizeFilename(SanitizeFilename(filename)) == SanitizeFilename(filename)
  {
    var r := SanitizeFilename(filename);
    assert !IsSpace(r[0]) by {
      if r != Fallback {
        var x := ReplaceIllegal(filename);
        var lo := ContentStart(x, 0);
        assert r[0] == x[lo];
      }
    }
    CleanNameUnchanged(r);
  }

  /** Sanitising twice gives the same name exactly when the first result does
      not end in whitespace. */
  lemma SanitizeTwiceIff(filename: string)
    ensures var r := SanitizeFilename(filename);
      SanitizeFilename(r) == r <==> !IsSpace(r[|r| - 1])
  {
    var r := SanitizeFilename(filename);
    if IsSpace(r[|r| - 1]) {
      TrailingSpaceNotFixed(r);
    } else {
      SanitizeIdempotentWithoutTrailingSpace(filename);
    }
  }

  /** A name of at most 200 characters without illegal characters and without
      surrounding whitespace comes back unchanged. */
  lemma CleanNameUnchanged(filename: string)
    requires 0 < |filename| <= MaxNameLength && NoIllegal(filename)
    requires !IsSpace(filename[0]) && !IsSpace(filename[|filename| - 1])
    ensures SanitizeFilename(filename) == filename
  {
    SanitizeKeepsCore(filename, 0, |filename|);
  }
}
