/** The string searches and regular expressions the conversion rules use, written
    as explicit scans, each with the match it finds stated as its contract. */
module Patterns {
  import opened Dom

  /** `pat` occurs in `s` starting at index `i`. */
  predicate OccursAt(s: string, pat: string, i: nat) {
    i + |pat| <= |s| && s[i..i + |pat|] == pat
  }

  /** `s.indexOf(pat, from)`: the first occurrence at or after `from`. */
  function FirstIndexOf(s: string, pat: string, from: nat): (r: Option<nat>)
    decreases |s| - from
    ensures r.Some? ==> from <= r.value && OccursAt(s, pat, r.value)
    ensures r.Some? ==> forall j :: from <= j < r.value ==> !OccursAt(s, pat, j)
    ensures r.None? ==> forall j :: from <= j ==> !OccursAt(s, pat, j)
  {
    if from + |pat| > |s| then None
    else if OccursAt(s, pat, from) then Some(from)
    else FirstIndexOf(s, pat, from + 1)
  }

  /** `pat` occurs at `i` and nowhere before. */
  predicate IsFirstOccurrence(s: string, pat: string, i: nat) {
    OccursAt(s, pat, i) && forall j: nat :: j < i ==> !OccursAt(s, pat, j)
  }

  /** `s.replace(pat, rep)` with a string pattern: only the first occurrence is replaced. */
  function ReplaceFirst(s: string, pat: string, rep: string): (r: string)
    ensures (forall j :: !OccursAt(s, pat, j)) ==> r == s
    ensures forall i: nat :: IsFirstOccurrence(s, pat, i) ==> r == s[..i] + rep + s[i + |pat|..]
  {
    match FirstIndexOf(s, pat, 0)
    case None => s
    case Some(i) => s[..i] + rep + s[i + |pat|..]
  }

  /** In `pre + "\n" + rest`, when `pre` has no line feed at or after `from`, the
      first line feed at or after `from` is the one right after `pre`. */
  lemma {:induction false} FirstLineFeed(pre: string, rest: string, from: nat)
    requires from <= |pre|
    requires forall k :: from <= k < |pre| ==> pre[k] != '\n'
    ensures FirstIndexOf(pre + "\n" + rest, "\n", from) == Some(|pre|)
    decreases |pre| - from
  {
    var s := pre + "\n" + rest;
    if from < |pre| {
      assert s[from..from + 1] == [pre[from]];
      FirstLineFeed(pre, rest, from + 1);
    } else {
      assert s[from..from + 1] == "\n";
    }
  }

  // ---------------------------------------------------------------------------
  // Character classes and greedy runs

  /** `[a-z0-9]`; the same class under the `i` flag; and `\w`. */
  datatype CharClass = LowerAlnum | AnyCaseAlnum | Word

  predicate InClass(c: char, cls: CharClass) {
    match cls
    case LowerAlnum => 'a' <= c <= 'z' || '0' <= c <= '9'
    case AnyCaseAlnum => 'a' <= c <= 'z' || 'A' <= c <= 'Z' || '0' <= c <= '9'
    case Word => 'a' <= c <= 'z' || 'A' <= c <= 'Z' || '0' <= c <= '9' || c == '_'
  }

  /** Where a greedy `cls*` that starts at `i` stops. */
  function RunEnd(s: string, i: nat, cls: CharClass): (e: nat)
    requires i <= |s|
    decreases |s| - i
    ensures i <= e <= |s|
    ensures forall k :: i <= k < e ==> InClass(s[k], cls)
    ensures e == |s| || !InClass(s[e], cls)
  {
    if i == |s| || !InClass(s[i], cls) then i else RunEnd(s, i + 1, cls)
  }

  /** `prefix` occurs at `i` and is followed by a character of `cls`. */
  predicate StartsRun(s: string, i: nat, prefix: string, cls: CharClass) {
    OccursAt(s, prefix, i) && i + |prefix| < |s| && InClass(s[i + |prefix|], cls)
  }

  /** `prefix(cls+)` matched at `i`, giving the greedy capture of `cls+`. */
  function PrefixedRun(s: string, i: nat, prefix: string, cls: CharClass): (r: Option<string>)
    ensures r.Some? <==> StartsRun(s, i, prefix, cls)
    ensures r.Some? ==> var b := i + |prefix|;
      0 < |r.value| && b + |r.value| <= |s| && s[b..b + |r.value|] == r.value
      && (forall k :: 0 <= k < |r.value| ==> InClass(r.value[k], cls))
      && (b + |r.value| == |s| || !InClass(s[b + |r.value|], cls))
  {
    if OccursAt(s, prefix, i) && i + |prefix| < |s| then
      var e := RunEnd(s, i + |prefix|, cls);
      if e > i + |prefix| then Some(s[i + |prefix|..e]) else None
    else None
  }

  // ---------------------------------------------------------------------------
  // highlight-(?:text|source)-([a-z0-9]+)

  const HighlightText := "highlight-text-"
  const HighlightSource := "highlight-source-"

  /** The pattern matches at index `i`. */
  predicate HighlightStartsAt(s: string, i: nat) {
    StartsRun(s, i, HighlightText, LowerAlnum) || StartsRun(s, i, HighlightSource, LowerAlnum)
  }

  /** The capture group of the pattern matched at index `i`. */
  function HighlightAt(s: string, i: nat): (r: Option<string>)
    ensures r.Some? <==> HighlightStartsAt(s, i)
    ensures r.Some? ==> 0 < |r.value| && forall k :: 0 <= k < |r.value| ==> InClass(r.value[k], LowerAlnum)
  {
    var t := PrefixedRun(s, i, HighlightText, LowerAlnum);
    if t.Some? then t else PrefixedRun(s, i, HighlightSource, LowerAlnum)
  }

  /** The leftmost index at or after `from` where the pattern matches. */
  function FirstHighlight(s: string, from: nat): (r: Option<nat>)
    decreases |s| - from
    ensures r.Some? ==> from <= r.value && HighlightStartsAt(s, r.value)
    ensures r.Some? ==> forall j :: from <= j < r.value ==> !HighlightStartsAt(s, j)
    ensures r.None? ==> forall j :: from <= j ==> !HighlightStartsAt(s, j)
  {
    if from >= |s| then None
    else if HighlightStartsAt(s, from) then Some(from)
    else FirstHighlight(s, from + 1)
  }

  /** `s.match(highlightRegExp)`, reduced to capture group 1 (`None` for no match):
      the capture of the leftmost match. */
  function HighlightLanguage(s: string): (r: Option<string>)
    ensures r.None? <==> forall j :: 0 <= j ==> !HighlightStartsAt(s, j)
    ensures r.Some? ==> exists i :: (0 <= i && HighlightStartsAt(s, i) && HighlightAt(s, i) == r
      && forall j :: 0 <= j < i ==> !HighlightStartsAt(s, j))
    ensures r.Some? ==> 0 < |r.value| && forall k :: 0 <= k < |r.value| ==> InClass(r.value[k], LowerAlnum)
  {
    match FirstHighlight(s, 0)
    case Some(i) => HighlightAt(s, i)
    case None => None
  }

  /** A capture of the highlight pattern is a non-empty run of `[a-z0-9]` that
      follows `highlight-text-` or `highlight-source-` in `s`. */
  lemma HighlightLanguageShape(s: string)
    requires HighlightLanguage(s).Some?
    ensures var lang := HighlightLanguage(s).value;
      0 < |lang| && (forall k :: 0 <= k < |lang| ==> InClass(lang[k], LowerAlnum))
      && (exists i :: 0 <= i < |s| && (
            (OccursAt(s, HighlightText, i) && OccursAt(s, HighlightText + lang, i))
            || (OccursAt(s, HighlightSource, i) && OccursAt(s, HighlightSource + lang, i))))
  {
    var i :| 0 <= i && HighlightStartsAt(s, i) && HighlightAt(s, i) == HighlightLanguage(s);
    HighlightAtShape(s, i);
  }

  lemma HighlightAtShape(s: string, i: nat)
    requires HighlightAt(s, i).Some?
    ensures var lang := HighlightAt(s, i).value;
      i < |s| && (
        (OccursAt(s, HighlightText, i) && OccursAt(s, HighlightText + lang, i))
        || (OccursAt(s, HighlightSource, i) && OccursAt(s, HighlightSource + lang, i)))
  {
    var lang := HighlightAt(s, i).value;
    if PrefixedRun(s, i, HighlightText, LowerAlnum).Some? {
      assert s[i..i + |HighlightText + lang|] == HighlightText + lang;
    } else {
      assert s[i..i + |HighlightSource + lang|] == HighlightSource + lang;
    }
  }

  // ---------------------------------------------------------------------------
  // /^.*(hljs).*(language-[a-z0-9]+).*$/i

  /** The characters that `.` does not match. */
  predicate IsLineTerminator(c: char) {
    c == '\n' || c == '\r' || c == '\U{2028}' || c == '\U{2029}'
  }

  predicate OneLine(s: string) {
    forall k :: 0 <= k < |s| ==> !IsLineTerminator(s[k])
  }

  /** `pat` (lower case) occurs at `i` when letter case is ignored. */
  predicate CiOccursAt(s: string, pat: string, i: nat) {
    i + |pat| <= |s| && Lower(s[i..i + |pat|]) == pat
  }

  /** `language-[a-z0-9]` at `j`, letter case ignored. */
  predicate CiLanguageTagAt(s: string, j: nat) {
    CiOccursAt(s, "language-", j) && j + 9 < |s| && InClass(s[j + 9], AnyCaseAlnum)
  }

  /** `hljsREG.test(s)`: on a single line, `hljs` and later a language tag, both in any case. */
  predicate HljsMatches(s: string) {
    OneLine(s)
    && exists i, j :: 0 <= i < |s| && i + 4 <= j < |s| && CiOccursAt(s, "hljs", i) && CiLanguageTagAt(s, j)
  }

  // ---------------------------------------------------------------------------
  // /.*language-(\w+)/

  const LanguagePrefix := "language-"

  /** `language-` followed by a word character starts at `k`. */
  predicate LanguageAt(s: string, k: nat) {
    StartsRun(s, k, LanguagePrefix, Word)
  }

  /** The last index below `hi` where `language-\w` starts. */
  function LastLanguageAt(s: string, hi: nat): (r: Option<nat>)
    requires hi <= |s|
    ensures r.Some? ==> r.value < hi && LanguageAt(s, r.value)
    ensures r.Some? ==> forall k :: r.value < k < hi ==> !LanguageAt(s, k)
    ensures r.None? ==> forall k :: 0 <= k < hi ==> !LanguageAt(s, k)
  {
    if hi == 0 then None
    else if LanguageAt(s, hi - 1) then Some(hi - 1)
    else LastLanguageAt(s, hi - 1)
  }

  /** `s.match(/.*language-(\w+)/)`, reduced to capture group 1 (`None` for `null`),
      on a string without line terminators: the greedy `.*` moves the match to the
      last `language-` that is followed by a word character. */
  function LanguageCapture(s: string): (r: Option<string>)
    requires OneLine(s)
    ensures r.Some? ==> 0 < |r.value| && forall k :: 0 <= k < |r.value| ==> InClass(r.value[k], Word)
    ensures r.None? <==> forall k :: 0 <= k < |s| ==> !LanguageAt(s, k)
    ensures r.Some? ==> exists k :: (0 <= k < |s| && PrefixedRun(s, k, LanguagePrefix, Word) == r
      && forall k' :: k < k' < |s| ==> !LanguageAt(s, k'))
  {
    match LastLanguageAt(s, |s|)
    case None => None
    case Some(k) => PrefixedRun(s, k, LanguagePrefix, Word)
  }
}
