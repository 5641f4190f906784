/** The rules the exporter adds on top of the GFM rules: fenced `hljs` code, elided
    buttons and images, and tables wrapped in a code fence. Both fences are three
    backticks written into the rules, not read from the converter's options. */
module ExportMd {
  import opened Dom
  import opened Patterns

  const Fence := "```"

  // ---------------------------------------------------------------------------
  // code

  /** The `code` rule's filter: a CODE element whose class list (the `class`
      attribute, `""` when absent) matches `hljsREG`. */
  predicate CodeFilter(n: Node) {
    NodeName(n) == "CODE" && HljsMatches(ClassName(n))
  }

  /** `getAttribute('class')` as a regular expression reads it: `null` becomes `"null"`. */
  function ClassAttributeText(n: Node): string
    requires n.Element?
  {
    match Attr(n, "class")
    case Some(c) => c
    case None => "null"
  }

  /** A fenced code block with `lang` as its info string (none when empty). */
  function CodeFence(lang: string, content: string): string {
    Fence + lang + "\n" + content + "\n" + Fence
  }

  /** The `code` replacement as the source writes it. `Ok(None)` is a return of
      `undefined`. When the class passes the case-insensitive `hljsREG` but holds no
      lower-case `language-` tag, `match` returns `null` and reading `[1]` throws. */
  function CodeReplacementAsWritten(content: string, n: Node): (r: Result<Option<string>>)
    ensures r.TypeError? <==> (|| n.Text?
                               || (&& n.Element? && HljsMatches(ClassAttributeText(n))
                                   && forall k :: 0 <= k < |ClassAttributeText(n)| ==> !LanguageAt(ClassAttributeText(n), k)))
    ensures r == Ok(None) <==> n.Element? && !HljsMatches(ClassAttributeText(n))
  {
    if n.Text? then TypeError("getAttribute is not a function")
    else
      var classStr := ClassAttributeText(n);
      if !HljsMatches(classStr) then Ok(None)
      else
        match LanguageCapture(classStr)
        case None => TypeError("Cannot read properties of null (reading '1')")
        case Some(lang) =>
          if lang != "" then Ok(Some(CodeFence(lang, content)))
          else Ok(Some(CodeFence("", content)))
  }

  /** The corrected `code` replacement: when the class has no lower-case
      `language-\w`, it falls back to the fence without a language. */
  function CodeReplacement(content: string, n: Node): (r: Result<Option<string>>)
    ensures r.TypeError? <==> n.Text?
    ensures r == Ok(None) <==> n.Element? && !HljsMatches(ClassAttributeText(n))
  {
    if n.Text? then TypeError("getAttribute is not a function")
    else
      var classStr := ClassAttributeText(n);
      if !HljsMatches(classStr) then Ok(None)
      else
        match LanguageCapture(classStr)
        case None => Ok(Some(CodeFence("", content)))
        case Some(lang) => Ok(Some(CodeFence(lang, content)))
  }

  /** The language of a filtered CODE element: the word run after the last
      lower-case `language-` tag of its class, or `""` when it has none. */
  function CodeLanguage(n: Node): (lang: string)
    requires CodeFilter(n)
    ensures LanguageCapture(ClassName(n)).Some? ==> Some(lang) == LanguageCapture(ClassName(n))
    ensures LanguageCapture(ClassName(n)).None? ==> lang == ""
    ensures forall k :: 0 <= k < |lang| ==> InClass(lang[k], Word)
  {
    match LanguageCapture(ClassName(n))
    case Some(lang) => lang
    case None => ""
  }

  /** Every CODE element the filter accepts is replaced (never `undefined`, never
      a throw): the opening fence carries the language as its info string, the
      content follows verbatim, and the closing fence ends the block. */
  lemma CodeRuleFencesContent(content: string, n: Node)
    requires CodeFilter(n)
    ensures var lang := CodeLanguage(n);
      var out := CodeFence(lang, content);
      && CodeReplacement(content, n) == Ok(Some(out))
      && FirstIndexOf(out, "\n", 0) == Some(3 + |lang|)
      && out[4 + |lang|..|out| - 4] == content
      && out[|out| - 4..] == "\n" + Fence
  {
    assert ClassAttributeText(n) == ClassName(n);
    FenceLayout(CodeLanguage(n), content);
  }

  lemma FenceLayout(lang: string, content: string)
    requires forall k :: 0 <= k < |lang| ==> InClass(lang[k], Word)
    ensures var out := CodeFence(lang, content);
      && FirstIndexOf(out, "\n", 0) == Some(3 + |lang|)
      && out[4 + |lang|..|out| - 4] == content
      && out[|out| - 4..] == "\n" + Fence
  {
    var pre := Fence + lang;
    var rest := content + "\n" + Fence;
    assert Fence + lang + "\n" + content + "\n" + Fence == pre + "\n" + rest;
    assert forall k :: 0 <= k < |pre| ==> pre[k] != '\n' by {
      forall k | 0 <= k < |pre| ensures pre[k] != '\n' {
        if k >= 3 { assert pre[k] == lang[k - 3]; }
      }
    }
    FirstLineFeed(pre, rest, 0);
  }

  /** The source's two replacements agree except where it throws, and it throws
      on a filtered element exactly when the class has no lower-case
      `language-` tag; its branch for an empty language is never taken. */
  lemma CodeAsWrittenThrowsOnUpperCaseTag(content: string, n: Node)
    requires CodeFilter(n)
    ensures CodeReplacementAsWritten(content, n).TypeError?
      <==> forall k :: 0 <= k < |ClassName(n)| ==> !LanguageAt(ClassName(n), k)
    ensures CodeReplacementAsWritten(content, n).Ok? ==>
      CodeReplacementAsWritten(content, n) == CodeReplacement(content, n)
  {
    assert ClassAttributeText(n) == ClassName(n);
  }

  const UpperCaseTagClass := "hljs LANGUAGE-js"

  lemma UpperCaseTagPassesHljs()
    ensures HljsMatches(UpperCaseTagClass)
  {
    var s := UpperCaseTagClass;
    assert Lower(s[0..4]) == "hljs";
    assert Lower(s[5..14]) == "language-";
    assert CiOccursAt(s, "hljs", 0) && CiLanguageTagAt(s, 5);
  }

  lemma UpperCaseTagHasNoLowerCaseTag()
    ensures forall k :: 0 <= k < |UpperCaseTagClass| ==> !LanguageAt(UpperCaseTagClass, k)
  {
    var s := UpperCaseTagClass;
    forall k | 0 <= k < |s| ensures !OccursAt(s, LanguagePrefix, k) {
      if k + 9 <= |s| {
        assert s[k..k + 9][0] == s[k] && s[k..k + 9][1] == s[k + 1];
      }
    }
  }

  /** `<code class="hljs LANGUAGE-js">` passes the filter; the source's replacement
      throws on it, the corrected one fences the content without a language. */
  lemma CodeUpperCaseTagExample()
    ensures var n := Element("CODE", map["class" := UpperCaseTagClass], [Text("x")]);
      && CodeFilter(n)
      && CodeReplacementAsWritten("x", n).TypeError?
      && CodeReplacement("x", n) == Ok(Some("```\nx\n```"))
  {
    var n := Element("CODE", map["class" := UpperCaseTagClass], [Text("x")]);
    assert ClassName(n) == UpperCaseTagClass == ClassAttributeText(n);
    UpperCaseTagPassesHljs();
    UpperCaseTagHasNoLowerCaseTag();
    assert LanguageCapture(UpperCaseTagClass).None?;
    assert CodeFence("", "x") == "```\nx\n```";
  }

  // ---------------------------------------------------------------------------
  // ignore

  predicate IgnoreFilter(n: Node) {
    NameIn(n, ["button", "img"])
  }

  /** Buttons and images are dropped with their content. */
  function Ignore(content: string): string {
    ""
  }

  // ---------------------------------------------------------------------------
  // table

  predicate FencedTableFilter(n: Node) {
    NameIn(n, ["table"])
  }

  /** A table's content inside a code fence, the opening fence directly before it. */
  function FencedTable(content: string): (r: string)
    ensures |r| == |content| + 7
    ensures r[..3] == Fence && r[3..|r| - 4] == content && r[|r| - 4..] == "\n" + Fence
  {
    Fence + content + "\n" + Fence
  }
}
