/** The GitHub-Flavoured-Markdown rules: fenced code blocks from highlighted `div`s,
    strikethrough, tables and task-list checkboxes. Each rule is a filter over a
    node and a replacement from the node's already-rendered content to its Markdown. */
module Gfm {
  import opened Dom
  import opened Patterns

  /** The converter options a replacement reads. */
  datatype Options = Options(fence: string)

  // ---------------------------------------------------------------------------
  // highlightedCodeBlock

  predicate HighlightedCodeBlockFilter(n: Node) {
    NodeName(n) == "DIV"
    && HighlightLanguage(ClassName(n)).Some?
    && FirstChild(n).Some?
    && NodeName(FirstChild(n).value) == "PRE"
  }

  /** The language tag: capture group 1 of the first highlight match, or `""`. */
  function CodeBlockLanguage(n: Node): (lang: string)
    ensures n.Element? && HighlightLanguage(ClassName(n)).Some? ==> Some(lang) == HighlightLanguage(ClassName(n))
    ensures !(n.Element? && HighlightLanguage(ClassName(n)).Some?) ==> lang == ""
    ensures forall k :: 0 <= k < |lang| ==> InClass(lang[k], LowerAlnum)
  {
    var className := if n.Element? then ClassName(n) else "";
    match HighlightLanguage(className)
    case Some(lang) => lang
    case None => ""
  }

  /** A node the filter accepts always has a language: the non-empty capture of
      the first highlight match in its class, and the replacement does not throw. */
  lemma HighlightedFilterHasLanguage(content: string, n: Node, options: Options)
    requires HighlightedCodeBlockFilter(n)
    ensures HighlightedCodeBlock(content, n, options).Ok?
    ensures CodeBlockLanguage(n) != "" && Some(CodeBlockLanguage(n)) == HighlightLanguage(ClassName(n))
  {
  }

  /** A code block set off by blank lines, with `lang` as its info string. */
  function FencedBlock(fence: string, lang: string, code: string): string {
    "\n\n" + fence + lang + "\n" + code + "\n" + fence + "\n\n"
  }

  /** The replacement ignores `content` and fences the first child's text. */
  function HighlightedCodeBlock(content: string, n: Node, options: Options): (r: Result<string>)
    ensures r.TypeError? <==> FirstChild(n).None?
  {
    match FirstChild(n)
    case None => TypeError("Cannot read properties of null (reading 'textContent')")
    case Some(first) =>
      Ok(FencedBlock(options.fence, CodeBlockLanguage(n), TextContent(first)))
  }

  /** After the leading blank line, the opening fence line carries exactly the
      captured language as its info string, the first child's text follows
      verbatim, and the closing fence ends the block; `content` plays no part. */
  lemma HighlightedCodeBlockLayout(content: string, n: Node, options: Options)
    requires FirstChild(n).Some?
    requires forall k :: 0 <= k < |options.fence| ==> options.fence[k] != '\n'
    ensures FenceShape(HighlightedCodeBlock(content, n, options).value,
      options.fence, CodeBlockLanguage(n), TextContent(FirstChild(n).value))
  {
    var lang := CodeBlockLanguage(n);
    var code := TextContent(FirstChild(n).value);
    assert HighlightedCodeBlock(content, n, options).value == FencedBlock(options.fence, lang, code);
    FenceLayout(options.fence, lang, code);
  }

  /** `r` is a blank line, the fence line `fence + lang`, `code` and the closing
      fence line, where the first line feed after the blank line ends the fence line. */
  predicate FenceShape(r: string, fence: string, lang: string, code: string) {
    var eol := 2 + |fence| + |lang|;
    && |r| == eol + 1 + |code| + 1 + |fence| + 2
    && r[..2] == "\n\n"
    && r[2..eol] == fence + lang
    && FirstIndexOf(r, "\n", 2) == Some(eol)
    && r[eol + 1..eol + 1 + |code|] == code
    && r[eol + 1 + |code|..] == "\n" + fence + "\n\n"
  }

  lemma FenceLayout(fence: string, lang: string, code: string)
    requires forall k :: 0 <= k < |fence| ==> fence[k] != '\n'
    requires forall k :: 0 <= k < |lang| ==> InClass(lang[k], LowerAlnum)
    ensures FenceShape(FencedBlock(fence, lang, code), fence, lang, code)
  {
    var pre := "\n\n" + fence + lang;
    var rest := code + "\n" + fence + "\n\n";
    assert "\n\n" + fence + lang + "\n" + code + "\n" + fence + "\n\n" == pre + "\n" + rest;
    assert forall k :: 2 <= k < |pre| ==> pre[k] != '\n' by {
      forall k | 2 <= k < |pre| ensures pre[k] != '\n' {
        if k < 2 + |fence| { assert pre[k] == fence[k - 2]; } else { assert pre[k] == lang[k - 2 - |fence|]; }
      }
    }
    FirstLineFeed(pre, rest, 2);
  }

  // ---------------------------------------------------------------------------
  // strikethrough

  predicate StrikethroughFilter(n: Node) {
    NameIn(n, ["del", "s", "strike"])
  }

  /** One tilde on each side; what lies between them is `content`, unchanged. */
  function Strikethrough(content: string): (r: string)
    ensures |r| == |content| + 2 && r[0] == '~' && r[|r| - 1] == '~'
    ensures r[1..|r| - 1] == content
  {
    "~" + content + "~"
  }

  // ---------------------------------------------------------------------------
  // Table cells

  /** The text of a cell at `index` in its row: a leading `|` only for the first. */
  function CellText(index: nat, content: string): string {
    (if index == 0 then "| " else " ") + content + " |"
  }

  /** `cell(content, node)`. The node's index among its parent's `childNodes` is
      `Last(p)` (DOM identity is position); the root has no parent to search. */
  function Cell(content: string, doc: Node, p: Path): (r: Result<string>)
    requires ValidPath(doc, p)
    ensures r.TypeError? <==> p == []
    ensures r.Ok? ==> var pre := if Last(p) == 0 then 2 else 1;
      && |r.value| == pre + |content| + 2
      && r.value[..pre] == (if Last(p) == 0 then "| " else " ")
      && r.value[pre..pre + |content|] == content
      && r.value[pre + |content|..] == " |"
      && (r.value[0] == '|' <==> Last(p) == 0)
  {
    match ParentNode(doc, p)
    case None => TypeError("Cannot read properties of null (reading 'childNodes')")
    case Some(_) => Ok(CellText(Last(p), content))
  }

  predicate TableCellFilter(n: Node) {
    NameIn(n, ["th", "td"])
  }

  // ---------------------------------------------------------------------------
  // Heading rows

  /** `isFirstTbody(element)`. Only the immediately preceding sibling is looked at. */
  predicate IsFirstTbody(doc: Node, e: Path)
    requires ValidPath(doc, e)
  {
    var previous := PreviousSibling(doc, e);
    NodeName(At(doc, e)) == "TBODY"
    && (previous.None?
        || (NodeName(previous.value) == "THEAD" && IsBlank(TextContent(previous.value))))
  }

  /** A TBODY is a first TBODY when it is the root or a first child, or when the
      child just before it in its parent is a THEAD holding only white space. Any
      earlier siblings play no part. */
  lemma FirstTbodyBySiblings(doc: Node, e: Path)
    requires ValidPath(doc, e)
    ensures IsFirstTbody(doc, e) <==>
      && NodeName(At(doc, e)) == "TBODY"
      && (|| e == [] || Last(e) == 0
          || (ParentStep(doc, e);
              var previous := ChildNodes(At(doc, Init(e)))[Last(e) - 1];
              NodeName(previous) == "THEAD" && IsBlank(TextContent(previous))))
  {
  }

  /** `every.call(childNodes, n => n.nodeName === 'TH')`, one node at a time. */
  predicate EveryTh(cs: seq<Node>) {
    cs == [] || (NodeName(cs[0]) == "TH" && EveryTh(cs[1..]))
  }

  lemma {:induction false} EveryThMeansAllTh(cs: seq<Node>)
    ensures EveryTh(cs) <==> forall k :: 0 <= k < |cs| ==> NodeName(cs[k]) == "TH"
  {
    if cs != [] {
      EveryThMeansAllTh(cs[1..]);
      assert forall k :: 1 <= k < |cs| ==> cs[k] == cs[1..][k - 1];
    }
  }

  /** `isHeadingRow(tr)`: a row under a THEAD, or the first child of a TABLE or of
      a first TBODY whose cells are all TH. A row with no cells passes that last
      test vacuously. `tr.parentNode` of the root is `null`, and reading its
      `nodeName` throws. */
  function IsHeadingRow(doc: Node, p: Path): (r: Result<bool>)
    requires ValidPath(doc, p)
    ensures r.TypeError? <==> p == []
    ensures r.Ok? ==> var parent := At(doc, Init(p));
      (r.value <==>
        || NodeName(parent) == "THEAD"
        || (&& Last(p) == 0
            && (NodeName(parent) == "TABLE" || IsFirstTbody(doc, Init(p)))
            && forall k :: 0 <= k < |ChildNodes(At(doc, p))| ==> NodeName(ChildNodes(At(doc, p))[k]) == "TH"))
  {
    match ParentNode(doc, p)
    case None => TypeError("Cannot read properties of null (reading 'nodeName')")
    case Some(parent) =>
      ParentStep(doc, p);
      EveryThMeansAllTh(ChildNodes(At(doc, p)));
      // `parentNode.firstChild === tr` compares identities: tr is child 0.
      var isFirst := Last(p) == 0;
      Ok(NodeName(parent) == "THEAD"
         || (isFirst
             && (NodeName(parent) == "TABLE" || IsFirstTbody(doc, Init(p)))
             && EveryTh(ChildNodes(At(doc, p)))))
  }

  // ---------------------------------------------------------------------------
  // The rows of a table, in the order of `HTMLTableElement.rows`

  datatype Section = HeadRows | BodyRows | FootRows

  /** `r` leads to a TR strictly below the node at `below`. */
  predicate IsRow(doc: Node, r: Path, below: Path) {
    |r| > |below| && r[..|below|] == below && ValidPath(doc, r) && NodeName(At(doc, r)) == "TR"
  }

  /** The paths of the TR children of `n`, the node at `q`, from child `j` on. */
  function TrChildren(n: Node, q: Path, j: nat): seq<Path>
    requires j <= |ChildNodes(n)|
    decreases |ChildNodes(n)| - j
  {
    if j == |ChildNodes(n)| then []
    else (if NodeName(ChildNodes(n)[j]) == "TR" then [q + [j]] else []) + TrChildren(n, q, j + 1)
  }

  /** The rows that child `i` of the table contributes to one group: the rows of a
      THEAD; a TR child itself or the rows of a TBODY; the rows of a TFOOT. */
  function GroupAt(t: Node, p: Path, i: nat, section: Section): (rs: seq<Path>)
    requires i < |ChildNodes(t)|
  {
    var child := ChildNodes(t)[i];
    var name := NodeName(child);
    var q := p + [i];
    var under := TrChildren(child, q, 0);
    match section
    case HeadRows => if name == "THEAD" then under else []
    case BodyRows => if name == "TR" then [q] else if name == "TBODY" then under else []
    case FootRows => if name == "TFOOT" then under else []
  }

  /** The rows of one group, scanning the table's children from `i` on. */
  function RowsFrom(t: Node, p: Path, i: nat, section: Section): (rs: seq<Path>)
    requires i <= |ChildNodes(t)|
    decreases |ChildNodes(t)| - i
  {
    if i == |ChildNodes(t)| then []
    else GroupAt(t, p, i, section) + RowsFrom(t, p, i + 1, section)
  }

  /** `table.rows`: every row of the table, header rows first and footer rows last. */
  function Rows(doc: Node, p: Path): (rs: seq<Path>)
    requires ValidPath(doc, p)
    ensures forall k :: 0 <= k < |rs| ==> IsRow(doc, rs[k], p)
  {
    var t := At(doc, p);
    var rs := RowsFrom(t, p, 0, HeadRows) + RowsFrom(t, p, 0, BodyRows) + RowsFrom(t, p, 0, FootRows);
    GroupsAreRows(doc, p);
    assert forall k :: 0 <= k < |rs| ==> rs[k] in rs;
    rs
  }

  /** Every path the three groups list leads to a TR below the table. */
  lemma GroupsAreRows(doc: Node, p: Path)
    requires ValidPath(doc, p)
    ensures forall r :: (r in RowsFrom(At(doc, p), p, 0, HeadRows) + RowsFrom(At(doc, p), p, 0, BodyRows) + RowsFrom(At(doc, p), p, 0, FootRows)
      ==> IsRow(doc, r, p))
  {
    var t := At(doc, p);
    var rs := RowsFrom(t, p, 0, HeadRows) + RowsFrom(t, p, 0, BodyRows) + RowsFrom(t, p, 0, FootRows);
    forall r | r in rs ensures IsRow(doc, r, p) {
      RowsFromMembers(t, p, 0, HeadRows, r);
      RowsFromMembers(t, p, 0, BodyRows, r);
      RowsFromMembers(t, p, 0, FootRows, r);
      if SectionRow(t, p, r, HeadRows) {
        SectionRowIsRow(doc, p, r, HeadRows);
      } else if SectionRow(t, p, r, BodyRows) {
        SectionRowIsRow(doc, p, r, BodyRows);
      } else {
        SectionRowIsRow(doc, p, r, FootRows);
      }
    }
  }

  /** A row of any group leads to a TR below the table. */
  lemma SectionRowIsRow(doc: Node, p: Path, r: Path, section: Section)
    requires ValidPath(doc, p) && SectionRow(At(doc, p), p, r, section)
    ensures IsRow(doc, r, p)
  {
    var i := r[|p|];
    ChildStep(doc, p, i);
    PrefixStep(r, p, i);
    if |r| > |p| + 1 {
      var j := r[|p| + 1];
      ChildStep(doc, p + [i], j);
      PrefixStep(r, p + [i], j);
    }
  }

  /** `r` names, at depth `d`, a TR child of `n`. */
  predicate TrAt(n: Node, r: Path, d: nat) {
    |r| == d + 1 && r[d] < |ChildNodes(n)| && NodeName(ChildNodes(n)[r[d]]) == "TR"
  }

  /** `r` is a row the table child `child` gives to `section`, `d` being the table's depth. */
  predicate SectionChild(section: Section, child: Node, r: Path, d: nat) {
    var name := NodeName(child);
    match section
    case HeadRows => name == "THEAD" && TrAt(child, r, d + 1)
    case BodyRows => (|r| == d + 1 && name == "TR") || (name == "TBODY" && TrAt(child, r, d + 1))
    case FootRows => name == "TFOOT" && TrAt(child, r, d + 1)
  }

  /** `r` is a row of the table at `p` in the group `section`: a TR child of a THEAD
      child; a TR child of the table or of a TBODY child; a TR child of a TFOOT child. */
  predicate SectionRow(t: Node, p: Path, r: Path, section: Section)
  {
    && |r| > |p| && r[..|p|] == p && r[|p|] < |ChildNodes(t)|
    && SectionChild(section, ChildNodes(t)[r[|p|]], r, |p|)
  }

  /** Tree order among rows below `p`: by table child, then by position in it. */
  predicate Before(a: Path, b: Path, p: Path) {
    && |a| > |p| && |b| > |p|
    && (|| a[|p|] < b[|p|]
        || (a[|p|] == b[|p|] && |a| > |p| + 1 && |b| > |p| + 1 && a[|p| + 1] < b[|p| + 1]))
  }

  predicate InTreeOrder(rs: seq<Path>, p: Path) {
    forall a, b :: 0 <= a < b < |rs| ==> Before(rs[a], rs[b], p)
  }

  lemma PrefixStep(r: Path, p: Path, i: nat)
    requires |r| > |p|
    ensures r[..|p| + 1] == p + [i] <==> r[..|p|] == p && r[|p|] == i
    ensures |r| == |p| + 1 && r[..|p|] == p && r[|p|] == i ==> r == p + [i]
  {
    assert r[..|p| + 1] == r[..|p|] + [r[|p|]];
    assert |r| == |p| + 1 ==> r == r[..|p| + 1];
  }

  lemma {:induction false} TrChildrenMembers(n: Node, q: Path, j: nat, r: Path)
    requires j <= |ChildNodes(n)|
    decreases |ChildNodes(n)| - j
    ensures r in TrChildren(n, q, j) <==>
      |r| == |q| + 1 && r[..|q|] == q && j <= r[|q|] && TrAt(n, r, |q|)
  {
    if j < |ChildNodes(n)| {
      var here := if NodeName(ChildNodes(n)[j]) == "TR" then [q + [j]] else [];
      var rest := TrChildren(n, q, j + 1);
      assert TrChildren(n, q, j) == here + rest;
      TrChildrenMembers(n, q, j + 1, r);
      assert r in here + rest <==> r in here || r in rest;
      if |r| > |q| {
        PrefixStep(r, q, j);
      }
    }
  }

  /** The paths in `rs` are increasing at depth `d`. */
  predicate IncreasingAt(rs: seq<Path>, d: nat) {
    forall a, b :: 0 <= a < b < |rs| ==> |rs[a]| > d && |rs[b]| > d && rs[a][d] < rs[b][d]
  }

  lemma ConsIncreasing(x: Path, rest: seq<Path>, d: nat)
    requires IncreasingAt(rest, d) && |x| > d
    requires forall k :: 0 <= k < |rest| ==> |rest[k]| > d && x[d] < rest[k][d]
    ensures IncreasingAt([x] + rest, d)
  {
    var rs := [x] + rest;
    forall a, b | 0 <= a < b < |rs| ensures |rs[a]| > d && |rs[b]| > d && rs[a][d] < rs[b][d] {
      assert rs[b] == rest[b - 1];
      if a > 0 {
        assert rs[a] == rest[a - 1];
      }
    }
  }

  lemma {:induction false} TrChildrenOrder(n: Node, q: Path, j: nat)
    requires j <= |ChildNodes(n)|
    decreases |ChildNodes(n)| - j
    ensures IncreasingAt(TrChildren(n, q, j), |q|)
  {
    if j < |ChildNodes(n)| {
      TrChildrenOrder(n, q, j + 1);
      TrChildrenStep(n, q, j);
    }
  }

  lemma TrChildrenStep(n: Node, q: Path, j: nat)
    requires j < |ChildNodes(n)|
    requires IncreasingAt(TrChildren(n, q, j + 1), |q|)
    ensures IncreasingAt(TrChildren(n, q, j), |q|)
  {
    var rest := TrChildren(n, q, j + 1);
    if NodeName(ChildNodes(n)[j]) == "TR" {
      assert TrChildren(n, q, j) == [q + [j]] + rest;
      forall k | 0 <= k < |rest| ensures |rest[k]| > |q| && (q + [j])[|q|] < rest[k][|q|] {
        TrChildrenMembers(n, q, j + 1, rest[k]);
      }
      ConsIncreasing(q + [j], rest, |q|);
    } else {
      assert TrChildren(n, q, j) == rest;
    }
  }

  lemma GroupMembers(t: Node, p: Path, i: nat, section: Section, r: Path)
    requires i < |ChildNodes(t)|
    ensures r in GroupAt(t, p, i, section) <==> SectionRow(t, p, r, section) && r[|p|] == i
  {
    TrChildrenMembers(ChildNodes(t)[i], p + [i], 0, r);
    if |r| > |p| {
      PrefixStep(r, p, i);
    }
  }

  lemma GroupOrder(t: Node, p: Path, i: nat, section: Section)
    requires i < |ChildNodes(t)|
    ensures InTreeOrder(GroupAt(t, p, i, section), p)
  {
    var rs := GroupAt(t, p, i, section);
    if |rs| > 1 {
      var q := p + [i];
      assert rs == TrChildren(ChildNodes(t)[i], q, 0);
      TrChildrenOrder(ChildNodes(t)[i], q, 0);
      forall a, b | 0 <= a < b < |rs| ensures Before(rs[a], rs[b], p) {
        GroupMembers(t, p, i, section, rs[a]);
        GroupMembers(t, p, i, section, rs[b]);
      }
    }
  }

  lemma {:induction false} RowsFromMembers(t: Node, p: Path, i: nat, section: Section, r: Path)
    requires i <= |ChildNodes(t)|
    decreases |ChildNodes(t)| - i
    ensures r in RowsFrom(t, p, i, section) <==> SectionRow(t, p, r, section) && i <= r[|p|]
  {
    if i < |ChildNodes(t)| {
      RowsFromMembers(t, p, i + 1, section, r);
      GroupMembers(t, p, i, section, r);
      RowsFromSplit(t, p, i, section, r);
      MembersStep(r in RowsFrom(t, p, i, section), r in GroupAt(t, p, i, section),
        r in RowsFrom(t, p, i + 1, section), SectionRow(t, p, r, section), |r| > |p| && r[|p|] == i,
        |r| > |p| && i + 1 <= r[|p|], |r| > |p| && i <= r[|p|]);
    } else {
      assert RowsFrom(t, p, i, section) == [];
    }
  }

  /** The propositional step of the scan. */
  lemma MembersStep(whole: bool, here: bool, rest: bool, row: bool, at: bool, after: bool, from: bool)
    requires whole <==> here || rest
    requires here <==> row && at
    requires rest <==> row && after
    requires from <==> at || after
    ensures whole <==> row && from
  {
  }

  lemma RowsFromSplit(t: Node, p: Path, i: nat, section: Section, r: Path)
    requires i < |ChildNodes(t)|
    ensures r in RowsFrom(t, p, i, section) <==>
      r in GroupAt(t, p, i, section) || r in RowsFrom(t, p, i + 1, section)
  {
    var here := GroupAt(t, p, i, section);
    var rest := RowsFrom(t, p, i + 1, section);
    assert RowsFrom(t, p, i, section) == here + rest;
    assert r in here + rest <==> r in here || r in rest;
  }

  /** Each group lists its rows in tree order. */
  lemma {:induction false} RowsFromOrder(t: Node, p: Path, i: nat, section: Section)
    requires i <= |ChildNodes(t)|
    decreases |ChildNodes(t)| - i
    ensures InTreeOrder(RowsFrom(t, p, i, section), p)
  {
    if i < |ChildNodes(t)| {
      GroupOrder(t, p, i, section);
      RowsFromOrder(t, p, i + 1, section);
      RowsFromStep(t, p, i, section);
    }
  }

  lemma RowsFromStep(t: Node, p: Path, i: nat, section: Section)
    requires i < |ChildNodes(t)|
    requires InTreeOrder(GroupAt(t, p, i, section), p)
    requires InTreeOrder(RowsFrom(t, p, i + 1, section), p)
    ensures InTreeOrder(RowsFrom(t, p, i, section), p)
  {
    var here := GroupAt(t, p, i, section);
    var rest := RowsFrom(t, p, i + 1, section);
    assert RowsFrom(t, p, i, section) == here + rest;
    forall k | 0 <= k < |here| ensures |here[k]| > |p| && here[k][|p|] == i {
      GroupMembers(t, p, i, section, here[k]);
    }
    forall k | 0 <= k < |rest| ensures |rest[k]| > |p| && i < rest[k][|p|] {
      RowsFromMembers(t, p, i + 1, section, rest[k]);
    }
    AppendInTreeOrder(here, rest, p, i);
  }

  /** Rows under table child `i` in tree order, followed by rows under later
      children in tree order, are in tree order. */
  lemma AppendInTreeOrder(here: seq<Path>, rest: seq<Path>, p: Path, i: nat)
    requires InTreeOrder(here, p) && InTreeOrder(rest, p)
    requires forall k :: 0 <= k < |here| ==> |here[k]| > |p| && here[k][|p|] == i
    requires forall k :: 0 <= k < |rest| ==> |rest[k]| > |p| && i < rest[k][|p|]
    ensures InTreeOrder(here + rest, p)
  {
    var rs := here + rest;
    forall a, b | 0 <= a < b < |rs| ensures Before(rs[a], rs[b], p) {
      if b < |here| {
        assert rs[a] == here[a] && rs[b] == here[b];
      } else if a < |here| {
        assert rs[a] == here[a] && rs[b] == rest[b - |here|];
      } else {
        assert rs[a] == rest[a - |here|] && rs[b] == rest[b - |here|];
      }
    }
  }

  /** `table.rows` holds exactly the rows of the three groups. */
  lemma RowsMembers(doc: Node, p: Path, r: Path)
    requires ValidPath(doc, p)
    ensures r in Rows(doc, p) <==>
      SectionRow(At(doc, p), p, r, HeadRows) || SectionRow(At(doc, p), p, r, BodyRows) || SectionRow(At(doc, p), p, r, FootRows)
  {
    var t := At(doc, p);
    RowsFromMembers(t, p, 0, HeadRows, r);
    RowsFromMembers(t, p, 0, BodyRows, r);
    RowsFromMembers(t, p, 0, FootRows, r);
  }

  /** `r` is the first row of its group in tree order. */
  ghost predicate FirstOf(t: Node, p: Path, r: Path, section: Section)
  {
    SectionRow(t, p, r, section)
    && forall r' :: SectionRow(t, p, r', section) && r' != r ==> Before(r, r', p)
  }

  lemma GroupFirst(t: Node, p: Path, section: Section)
    requires exists r :: SectionRow(t, p, r, section)
    ensures RowsFrom(t, p, 0, section) != [] && FirstOf(t, p, RowsFrom(t, p, 0, section)[0], section)
  {
    var r :| SectionRow(t, p, r, section);
    var rs := RowsFrom(t, p, 0, section);
    RowsFromMembers(t, p, 0, section, r);
    RowsFromMembers(t, p, 0, section, rs[0]);
    RowsFromOrder(t, p, 0, section);
    forall r' | SectionRow(t, p, r', section) && r' != rs[0] ensures Before(rs[0], r', p) {
      RowsFromMembers(t, p, 0, section, r');
      var b :| 0 <= b < |rs| && rs[b] == r';
    }
  }

  lemma NoGroupRows(t: Node, p: Path, section: Section)
    requires forall r :: !SectionRow(t, p, r, section)
    ensures RowsFrom(t, p, 0, section) == []
  {
    var rs := RowsFrom(t, p, 0, section);
    if rs != [] {
      RowsFromMembers(t, p, 0, section, rs[0]);
    }
  }

  /** A table has no rows exactly when none of the three groups has one. */
  lemma RowsEmpty(doc: Node, p: Path)
    requires ValidPath(doc, p)
    ensures Rows(doc, p) == [] <==> forall r ::
      !SectionRow(At(doc, p), p, r, HeadRows) && !SectionRow(At(doc, p), p, r, BodyRows) && !SectionRow(At(doc, p), p, r, FootRows)
  {
    var t := At(doc, p);
    if Rows(doc, p) != [] {
      RowsMembers(doc, p, Rows(doc, p)[0]);
    } else {
      forall r ensures !SectionRow(t, p, r, HeadRows) && !SectionRow(t, p, r, BodyRows) && !SectionRow(t, p, r, FootRows) {
        RowsMembers(doc, p, r);
      }
    }
  }

  /** `rows[0]`, the row the `table` filter and the `keep` predicate test, is the
      first header row in tree order when the table has a header row. */
  lemma FirstRowIsHeader(doc: Node, p: Path)
    requires ValidPath(doc, p) && exists r :: SectionRow(At(doc, p), p, r, HeadRows)
    ensures Rows(doc, p) != [] && FirstOf(At(doc, p), p, Rows(doc, p)[0], HeadRows)
  {
    var t := At(doc, p);
    GroupFirst(t, p, HeadRows);
    assert Rows(doc, p)[0] == RowsFrom(t, p, 0, HeadRows)[0];
  }

  /** Without header rows, `rows[0]` is the first row, in tree order, that is a
      child of the table or of a TBODY, when there is one. */
  lemma FirstRowIsBody(doc: Node, p: Path)
    requires ValidPath(doc, p)
    requires forall r :: !SectionRow(At(doc, p), p, r, HeadRows)
    requires exists r :: SectionRow(At(doc, p), p, r, BodyRows)
    ensures Rows(doc, p) != [] && FirstOf(At(doc, p), p, Rows(doc, p)[0], BodyRows)
  {
    var t := At(doc, p);
    NoGroupRows(t, p, HeadRows);
    GroupFirst(t, p, BodyRows);
    assert Rows(doc, p)[0] == RowsFrom(t, p, 0, BodyRows)[0];
  }

  /** Otherwise `rows[0]` is the first footer row. */
  lemma FirstRowIsFooter(doc: Node, p: Path)
    requires ValidPath(doc, p)
    requires forall r :: !SectionRow(At(doc, p), p, r, HeadRows) && !SectionRow(At(doc, p), p, r, BodyRows)
    requires exists r :: SectionRow(At(doc, p), p, r, FootRows)
    ensures Rows(doc, p) != [] && FirstOf(At(doc, p), p, Rows(doc, p)[0], FootRows)
  {
    var t := At(doc, p);
    NoGroupRows(t, p, HeadRows);
    NoGroupRows(t, p, BodyRows);
    GroupFirst(t, p, FootRows);
    assert Rows(doc, p)[0] == RowsFrom(t, p, 0, FootRows)[0];
  }

  // ---------------------------------------------------------------------------
  // Tables: converted when the first row is a heading row, kept as HTML otherwise

  /** The `table` rule's filter. `rows[0]` of a table without rows is `undefined`,
      and `isHeadingRow` reads `parentNode` from it. */
  function TableFilter(doc: Node, p: Path): (r: Result<bool>)
    requires ValidPath(doc, p)
    ensures r.TypeError? <==> NodeName(At(doc, p)) == "TABLE" && Rows(doc, p) == []
    ensures r == Ok(true) <==>
      NodeName(At(doc, p)) == "TABLE" && Rows(doc, p) != [] && IsHeadingRow(doc, Rows(doc, p)[0]) == Ok(true)
  {
    if NodeName(At(doc, p)) != "TABLE" then Ok(false)
    else
      var rows := Rows(doc, p);
      if rows == [] then TypeError("Cannot read properties of undefined (reading 'parentNode')")
      else IsHeadingRow(doc, rows[0])
  }

  /** The `keep` filter registered beside the table rules. */
  function KeepFilter(doc: Node, p: Path): (r: Result<bool>)
    requires ValidPath(doc, p)
    ensures r.TypeError? <==> NodeName(At(doc, p)) == "TABLE" && Rows(doc, p) == []
    ensures r == Ok(true) <==>
      NodeName(At(doc, p)) == "TABLE" && Rows(doc, p) != [] && IsHeadingRow(doc, Rows(doc, p)[0]) == Ok(false)
  {
    if NodeName(At(doc, p)) != "TABLE" then Ok(false)
    else
      var rows := Rows(doc, p);
      if rows == [] then TypeError("Cannot read properties of undefined (reading 'parentNode')")
      else
        match IsHeadingRow(doc, rows[0])
        case Ok(heading) => Ok(!heading)
        case TypeError(reason) => TypeError(reason)
  }

  /** On a TABLE the two filters never agree: exactly one of them accepts it when it
      has a row, and both throw when it has none. Neither touches any other node. */
  lemma TableOrKeep(doc: Node, p: Path)
    requires ValidPath(doc, p)
    ensures NodeName(At(doc, p)) != "TABLE" ==> TableFilter(doc, p) == Ok(false) == KeepFilter(doc, p)
    ensures NodeName(At(doc, p)) == "TABLE" ==>
      && (TableFilter(doc, p).TypeError? <==> Rows(doc, p) == [])
      && (KeepFilter(doc, p).TypeError? <==> Rows(doc, p) == [])
      && (Rows(doc, p) != [] ==> TableFilter(doc, p).value == !KeepFilter(doc, p).value)
  {
    if NodeName(At(doc, p)) == "TABLE" && Rows(doc, p) != [] {
      assert IsRow(doc, Rows(doc, p)[0], p);
    }
  }

  /** The `table` replacement: the first blank line in `content` loses one line
      feed, and the result is set off by blank lines. */
  function TableReplacement(content: string): (r: string)
    ensures |r| >= 4 && r[..2] == "\n\n" && r[|r| - 2..] == "\n\n"
    ensures (forall j :: !OccursAt(content, "\n\n", j)) ==> r[2..|r| - 2] == content
  {
    "\n\n" + ReplaceFirst(content, "\n\n", "\n") + "\n\n"
  }

  /** Only the first `\n\n` of the content collapses to `\n`; everything before and
      after it is kept. */
  lemma TableReplacementCollapsesFirst(content: string, i: nat)
    requires IsFirstOccurrence(content, "\n\n", i)
    ensures TableReplacement(content) == "\n\n" + content[..i + 1] + content[i + 2..] + "\n\n"
  {
    var replaced := ReplaceFirst(content, "\n\n", "\n");
    assert replaced == content[..i] + "\n" + content[i + 2..];
    assert content[i..i + 2] == "\n\n";
    assert content[i] == content[i..i + 2][0] == '\n';
    assert content[..i + 1] == content[..i] + [content[i]];
  }

  predicate TableSectionFilter(n: Node) {
    NameIn(n, ["thead", "tbody", "tfoot"])
  }

  /** Sections add nothing of their own. */
  function TableSection(content: string): string {
    content
  }

  // ---------------------------------------------------------------------------
  // Table rows and the alignment line

  const AlignMap: map<string, string> := map["left" := ":--", "right" := "--:", "center" := ":-:"]

  /** The alignment marker for an `align` value, letter case ignored. */
  function AlignMarker(align: string): (m: string)
    ensures m == ":--" <==> Lower(align) == "left"
    ensures m == "--:" <==> Lower(align) == "right"
    ensures m == ":-:" <==> Lower(align) == "center"
    ensures m == "---" <==> Lower(align) !in AlignMap
  {
    var a := Lower(align);
    if a != "" && a in AlignMap then AlignMap[a] else "---"
  }

  /** The lookup `alignMap[align] || border` as the source writes it. An object
      literal also answers the properties it inherits from `Object.prototype`;
      of those, only `constructor` and `__proto__` are all lower case and so can
      be reached after `toLowerCase`. A function converts to its source text
      (engine-dependent; shown as the common form), the prototype object to
      `[object Object]`. */
  function JsAlignMarker(align: string): string {
    var a := Lower(align);
    if a == "" then "---"
    else if a in AlignMap then AlignMap[a]
    else if a == "constructor" then "function Object() { [native code] }"
    else if a == "__proto__" then "[object Object]"
    else "---"
  }

  /** The two lookups differ exactly on the inherited property names, and there the
      source puts something other than an alignment marker into the alignment line. */
  lemma InheritedAlignKeys(align: string)
    ensures JsAlignMarker(align) != AlignMarker(align) <==> Lower(align) == "constructor" || Lower(align) == "__proto__"
    ensures Lower(align) == "constructor" || Lower(align) == "__proto__" ==> !IsMarker(JsAlignMarker(align))
  {
    var a := Lower(align);
    if a == "constructor" || a == "__proto__" {
      assert a != "left" && a != "right" && a != "center" by {
        assert a[1] != "left"[1] && a[1] != "right"[1] && a[1] != "center"[1];
      }
      assert JsAlignMarker(align)[0] != '-' && JsAlignMarker(align)[0] != ':';
    }
  }

  /** Which lookup the row rule uses: the intended one, or `alignMap[align] || border`
      as the source writes it. */
  datatype AlignLookup = Intended | AsWritten

  function Marker(lookup: AlignLookup, align: string): string {
    match lookup
    case Intended => AlignMarker(align)
    case AsWritten => JsAlignMarker(align)
  }

  /** Neither lookup ever yields a `|`, so each cell adds exactly its own bars. */
  lemma MarkerHasNoBar(lookup: AlignLookup, align: string)
    ensures forall k :: 0 <= k < |Marker(lookup, align)| ==> Marker(lookup, align)[k] != '|'
  {
    var m := Marker(lookup, align);
    if m == "function Object() { [native code] }" {
      assert forall k :: 0 <= k < |m| ==> m[k] != '|';
    } else if m == "[object Object]" {
      assert forall k :: 0 <= k < |m| ==> m[k] != '|';
    }
  }

  /** The `align` attribute of a cell, `""` when absent. */
  function AlignOf(n: Node): string
    requires n.Element?
  {
    match Attr(n, "align")
    case Some(a) => a
    case None => ""
  }

  predicate AllElements(cs: seq<Node>) {
    forall k :: 0 <= k < |cs| ==> cs[k].Element?
  }

  /** The alignment line for the cells `cs`, one `cell(marker, child)` per cell. */
  function BorderLine(cs: seq<Node>, lookup: AlignLookup): (b: string)
    requires AllElements(cs)
    ensures cs != [] ==> b != ""
  {
    if cs == [] then ""
    else BorderLine(cs[..|cs| - 1], lookup) + CellText(|cs| - 1, Marker(lookup, AlignOf(cs[|cs| - 1])))
  }

  /** What the `tableRow` replacement produces. */
  function TableRow(content: string, doc: Node, p: Path, lookup: AlignLookup): (r: Result<string>)
    requires ValidPath(doc, p)
    ensures r.TypeError? <==> p == [] || (IsHeadingRow(doc, p) == Ok(true) && !AllElements(ChildNodes(At(doc, p))))
    ensures r.Ok? ==> |r.value| >= 1 + |content| && r.value[..1 + |content|] == "\n" + content
    ensures r.Ok? ==> (|r.value| > 1 + |content| <==> IsHeadingRow(doc, p) == Ok(true) && ChildNodes(At(doc, p)) != [])
  {
    match IsHeadingRow(doc, p)
    case TypeError(reason) => TypeError(reason)
    case Ok(heading) =>
      var cs := ChildNodes(At(doc, p));
      if !heading then Ok("\n" + content)
      else if !AllElements(cs) then TypeError("getAttribute is not a function")
      else
        var border := BorderLine(cs, lookup);
        Ok("\n" + content + (if border != "" then "\n" + border else ""))
  }

  /** The `tableRow` replacement: a loop over the cells that appends one
      `cell(border, child)` per cell, with the alignment lookup `lookup` (the source
      runs it with `AsWritten`). */
  method TableRowReplacement(content: string, doc: Node, p: Path, lookup: AlignLookup) returns (r: Result<string>)
    requires ValidPath(doc, p)
    ensures r == TableRow(content, doc, p, lookup)
  {
    var heading := IsHeadingRow(doc, p);
    if heading.TypeError? {
      return TypeError(heading.reason);
    }
    if !heading.value {
      return Ok("\n" + content);
    }
    var cells := BorderCells(doc, p, lookup);
    if cells.TypeError? {
      return cells;
    }
    var borderCells := cells.value;
    r := Ok("\n" + content + (if borderCells != "" then "\n" + borderCells else ""));
  }

  /** The loop of the `tableRow` replacement: one `cell(border, child)` per child of
      the row at `p`; reading `align` from a text child throws. */
  method BorderCells(doc: Node, p: Path, lookup: AlignLookup) returns (r: Result<string>)
    requires ValidPath(doc, p)
    ensures AllElements(ChildNodes(At(doc, p))) ==> r == Ok(BorderLine(ChildNodes(At(doc, p)), lookup))
    ensures !AllElements(ChildNodes(At(doc, p))) ==> r == TypeError("getAttribute is not a function")
  {
    var borderCells := "";
    var cs := ChildNodes(At(doc, p));
    for i := 0 to |cs|
      invariant AllElements(cs[..i])
      invariant borderCells == BorderLine(cs[..i], lookup)
    {
      if cs[i].Text? {
        assert !AllElements(cs);
        return TypeError("getAttribute is not a function");
      }
      var border := Marker(lookup, AlignOf(cs[i]));
      ChildStep(doc, p, i);
      var c := Cell(border, doc, p + [i]);
      CellInRow(border, doc, p, i);
      BorderLineStep(cs, i, lookup);
      borderCells := borderCells + c.value;
    }
    assert cs[..|cs|] == cs;
    r := Ok(borderCells);
  }

  lemma CellInRow(content: string, doc: Node, p: Path, i: nat)
    requires ValidPath(doc, p) && i < |ChildNodes(At(doc, p))|
    ensures ValidPath(doc, p + [i]) && Cell(content, doc, p + [i]) == Ok(CellText(i, content))
  {
    ChildStep(doc, p, i);
    assert Last(p + [i]) == i;
  }

  lemma BorderLineStep(cs: seq<Node>, i: nat, lookup: AlignLookup)
    requires i < |cs| && AllElements(cs[..i]) && cs[i].Element?
    ensures AllElements(cs[..i + 1])
    ensures BorderLine(cs[..i + 1], lookup) == BorderLine(cs[..i], lookup) + CellText(i, Marker(lookup, AlignOf(cs[i])))
  {
    assert cs[..i + 1][..i] == cs[..i];
  }

  predicate TableRowFilter(n: Node) {
    NameIn(n, ["tr"])
  }

  /** The number of times `c` occurs in `s`. */
  function Count(s: string, c: char): nat {
    if s == [] then 0 else (if s[0] == c then 1 else 0) + Count(s[1..], c)
  }

  lemma {:induction false} CountConcat(a: string, b: string, c: char)
    ensures Count(a + b, c) == Count(a, c) + Count(b, c)
  {
    if a == [] {
      assert a + b == b;
    } else {
      assert (a + b)[0] == a[0];
      assert (a + b)[1..] == a[1..] + b;
      CountConcat(a[1..], b, c);
    }
  }

  lemma {:induction false} CountAbsent(s: string, c: char)
    requires forall k :: 0 <= k < |s| ==> s[k] != c
    ensures Count(s, c) == 0
  {
    if s != [] {
      CountAbsent(s[1..], c);
    }
  }

  predicate IsMarker(m: string) {
    m == ":--" || m == "--:" || m == ":-:" || m == "---"
  }

  lemma CountMarkerCell(index: nat, marker: string)
    requires forall k :: 0 <= k < |marker| ==> marker[k] != '|'
    ensures Count(CellText(index, marker), '|') == if index == 0 then 2 else 1
  {
    var pre := if index == 0 then "| " else " ";
    assert CellText(index, marker) == pre + marker + " |";
    CountConcat(pre + marker, " |", '|');
    CountConcat(pre, marker, '|');
    assert Count(" |", '|') == 1 by { assert " |"[1..] == "|"; assert "|"[1..] == ""; }
    assert Count(pre, '|') == (if index == 0 then 1 else 0) by { assert "| "[1..] == " "; assert " "[1..] == ""; }
    CountAbsent(marker, '|');
  }

  /** The alignment line has one marker per cell: `|c| + 1` bars for `|c|` cells,
      whichever lookup supplies the markers. */
  lemma {:induction false} BorderLineColumns(cs: seq<Node>, lookup: AlignLookup)
    requires AllElements(cs) && cs != []
    ensures Count(BorderLine(cs, lookup), '|') == |cs| + 1
  {
    var init := cs[..|cs| - 1];
    var m := Marker(lookup, AlignOf(cs[|cs| - 1]));
    MarkerHasNoBar(lookup, AlignOf(cs[|cs| - 1]));
    CountConcat(BorderLine(init, lookup), CellText(|cs| - 1, m), '|');
    CountMarkerCell(|cs| - 1, m);
    if init != [] {
      BorderLineColumns(init, lookup);
    }
  }

  /** The intended marker of each cell, in order. */
  function IntendedMarkers(cs: seq<Node>): (ms: seq<string>)
    requires AllElements(cs)
  {
    seq(|cs|, k requires 0 <= k < |cs| => AlignMarker(AlignOf(cs[k])))
  }

  /** `line` is `|` followed by one six-character column ` m |` per marker `m` of `ms`. */
  predicate ColumnsMatch(line: string, ms: seq<string>) {
    && |line| == 1 + 6 * |ms| && line[0] == '|'
    && forall k :: 0 <= k < |ms| ==> ColumnAt(line, k, ms[k])
  }

  /** Column `k` of `line` is ` m |`. */
  predicate ColumnAt(line: string, k: nat, m: string) {
    7 + 6 * k <= |line| && line[1 + 6 * k..7 + 6 * k] == " " + m + " |"
  }

  /** With the intended lookup, column `k` of the alignment line holds the marker
      of cell `k`, so the line is determined cell by cell. */
  lemma {:induction false} BorderLineLayout(cs: seq<Node>)
    requires AllElements(cs) && cs != []
    ensures ColumnsMatch(BorderLine(cs, Intended), IntendedMarkers(cs))
  {
    var init := cs[..|cs| - 1];
    var ms := IntendedMarkers(cs);
    var m := AlignMarker(AlignOf(cs[|cs| - 1]));
    assert IsMarker(m);
    if init != [] {
      BorderLineLayout(init);
      MarkersPrefix(cs);
    }
    AppendColumn(BorderLine(init, Intended), CellText(|cs| - 1, m), ms);
  }

  lemma MarkersPrefix(cs: seq<Node>)
    requires AllElements(cs) && cs != []
    ensures IntendedMarkers(cs)[..|cs| - 1] == IntendedMarkers(cs[..|cs| - 1])
  {
  }

  /** No cell's `align` names a property an object literal inherits. */
  predicate NoInheritedAlign(cs: seq<Node>)
    requires AllElements(cs)
  {
    forall k :: 0 <= k < |cs| ==> Lower(AlignOf(cs[k])) != "constructor" && Lower(AlignOf(cs[k])) != "__proto__"
  }

  /** Away from the two inherited keys the source's lookup writes the same
      alignment line as the intended one. */
  lemma {:induction false} SourceLookupAgrees(cs: seq<Node>)
    requires AllElements(cs) && NoInheritedAlign(cs)
    ensures BorderLine(cs, AsWritten) == BorderLine(cs, Intended)
  {
    if cs != [] {
      var init := cs[..|cs| - 1];
      assert forall k :: 0 <= k < |init| ==> init[k] == cs[k];
      SourceLookupAgrees(init);
      InheritedAlignKeys(AlignOf(cs[|cs| - 1]));
    }
  }

  /** So on such cells the source's line, too, holds column by column the
      marker of each cell. */
  lemma SourceBorderLineLayout(cs: seq<Node>)
    requires AllElements(cs) && cs != [] && NoInheritedAlign(cs)
    ensures ColumnsMatch(BorderLine(cs, AsWritten), IntendedMarkers(cs))
  {
    SourceLookupAgrees(cs);
    BorderLineLayout(cs);
  }

  /** Appending the cell of the last marker to the line of the earlier markers
      adds its column and keeps the earlier ones. */
  lemma AppendColumn(b: string, c: string, ms: seq<string>)
    requires ms != [] && |ms[|ms| - 1]| == 3
    requires |ms| == 1 ==> b == ""
    requires |ms| > 1 ==> ColumnsMatch(b, ms[..|ms| - 1])
    requires c == CellText(|ms| - 1, ms[|ms| - 1])
    ensures ColumnsMatch(b + c, ms)
  {
    var n := |ms|;
    LastColumn(b, c, n, ms[n - 1]);
    if n > 1 {
      EarlierColumns(b, c, ms);
    }
  }

  /** The columns of the earlier markers survive the append. */
  lemma EarlierColumns(b: string, c: string, ms: seq<string>)
    requires ms != [] && ColumnsMatch(b, ms[..|ms| - 1])
    ensures forall k :: 0 <= k < |ms| - 1 ==> ColumnAt(b + c, k, ms[k])
  {
    forall k | 0 <= k < |ms| - 1
      ensures ColumnAt(b + c, k, ms[k])
    {
      assert ColumnAt(b, k, ms[..|ms| - 1][k]);
      SliceOfLeft(b, c, 1 + 6 * k, 7 + 6 * k);
    }
  }

  lemma LastColumn(b: string, c: string, n: nat, m: string)
    requires n > 0 && |m| == 3 && c == CellText(n - 1, m)
    requires |b| == (if n == 1 then 0 else 1 + 6 * (n - 1))
    requires n > 1 ==> b[0] == '|'
    ensures |b + c| == 1 + 6 * n && (b + c)[0] == '|'
    ensures ColumnAt(b + c, n - 1, m)
  {
    var lo := 1 + 6 * (n - 1);
    if n == 1 {
      assert b + c == "| " + m + " |";
      assert (b + c)[lo..lo + 6] == " " + m + " |";
    } else {
      assert |b| == lo && |c| == 6;
      assert (b + c)[0] == b[0];
      SliceOfRight(b, c, lo, lo + 6);
      assert c[..] == " " + m + " |";
    }
  }

  lemma SliceOfLeft(b: string, c: string, lo: nat, hi: nat)
    requires lo <= hi <= |b|
    ensures (b + c)[lo..hi] == b[lo..hi]
  {
  }

  lemma SliceOfRight(b: string, c: string, lo: nat, hi: nat)
    requires |b| <= lo <= hi <= |b| + |c|
    ensures (b + c)[lo..hi] == c[lo - |b|..hi - |b|]
  {
  }

  /** A heading row with cells gets its alignment line after the content line, with
      one marker per cell; a heading row without cells and any other row get none. */
  lemma HeadingRowAlignmentLine(content: string, doc: Node, p: Path, lookup: AlignLookup)
    requires ValidPath(doc, p) && IsHeadingRow(doc, p) == Ok(true)
    requires AllElements(ChildNodes(At(doc, p))) && ChildNodes(At(doc, p)) != []
    ensures var cs := ChildNodes(At(doc, p));
      && TableRow(content, doc, p, lookup) == Ok("\n" + content + "\n" + BorderLine(cs, lookup))
      && Count(BorderLine(cs, lookup), '|') == |cs| + 1
  {
    var line := BorderLine(ChildNodes(At(doc, p)), lookup);
    BorderLineColumns(ChildNodes(At(doc, p)), lookup);
    assert "\n" + content + ("\n" + line) == "\n" + content + "\n" + line;
  }

  /** A two-column table: a THEAD row of TH cells `A`, `B` and a TBODY row of TD
      cells `1`, `2`. */
  function ExampleTable(): Node {
    Element("TABLE", map[], [
      Element("THEAD", map[], [
        Element("TR", map[], [Element("TH", map[], [Text("A")]), Element("TH", map[], [Text("B")])])]),
      Element("TBODY", map[], [
        Element("TR", map[], [Element("TD", map[], [Text("1")]), Element("TD", map[], [Text("2")])])])])
  }

  lemma ExamplePaths()
    ensures ValidPath(ExampleTable(), [0]) && ValidPath(ExampleTable(), [1])
    ensures ValidPath(ExampleTable(), [0, 0]) && ValidPath(ExampleTable(), [1, 0])
    ensures At(ExampleTable(), [0]) == ExampleTable().children[0]
    ensures At(ExampleTable(), [1]) == ExampleTable().children[1]
    ensures At(ExampleTable(), [0, 0]) == ExampleTable().children[0].children[0]
    ensures At(ExampleTable(), [1, 0]) == ExampleTable().children[1].children[0]
  {
    var t := ExampleTable();
    ChildStep(t, [], 0);
    ChildStep(t, [], 1);
    assert [] + [0] == [0] && [] + [1] == [1];
    ChildStep(t, [0], 0);
    ChildStep(t, [1], 0);
    assert [0] + [0] == [0, 0] && [1] + [0] == [1, 0];
  }

  /** Two cells without `align` give the line `| --- | --- |`, whichever lookup. */
  lemma PlainBorderLine(cs: seq<Node>, lookup: AlignLookup)
    requires |cs| == 2 && cs[0].Element? && cs[1].Element?
    requires "align" !in cs[0].attrs && "align" !in cs[1].attrs
    ensures AllElements(cs) && BorderLine(cs, lookup) == "| --- | --- |"
  {
    assert Lower("") == "";
    assert Marker(lookup, AlignOf(cs[0])) == "---" && Marker(lookup, AlignOf(cs[1])) == "---";
    assert cs[..1] == [cs[0]] && cs[..1][..0] == [];
    assert BorderLine(cs[..1], lookup) == "| --- |";
  }

  lemma ExampleHeaderIsHeading()
    ensures ValidPath(ExampleTable(), [0, 0]) && IsHeadingRow(ExampleTable(), [0, 0]) == Ok(true)
  {
    ExamplePaths();
    assert Init([0, 0]) == [0];
    assert NodeName(At(ExampleTable(), [0])) == "THEAD";
  }

  /** The header row of the example gets `| --- | --- |` beneath its content line,
      with the source's lookup as with the intended one. */
  lemma ExampleHeaderRow()
    ensures ValidPath(ExampleTable(), [0, 0])
    ensures forall lookup :: (TableRow("| A | B |", ExampleTable(), [0, 0], lookup)
      == Ok("\n" + "| A | B |" + "\n" + "| --- | --- |"))
  {
    ExamplePaths();
    ExampleHeaderIsHeading();
    var t := ExampleTable();
    var row := t.children[0].children[0];
    assert At(t, [0, 0]) == row;
    var cs := row.children;
    assert cs[0] == Element("TH", map[], [Text("A")]);
    assert cs[1] == Element("TH", map[], [Text("B")]);
    forall lookup ensures TableRow("| A | B |", t, [0, 0], lookup) == Ok("\n" + "| A | B |" + "\n" + "| --- | --- |") {
      PlainBorderLine(cs, lookup);
      HeadingRowAlignmentLine("| A | B |", t, [0, 0], lookup);
    }
  }

  /** The body row of the example stays a single line: its TBODY follows a THEAD
      with text, so it is not a first TBODY, and its parent is not a THEAD. */
  lemma ExampleBodyRow()
    ensures ValidPath(ExampleTable(), [1, 0])
    ensures forall lookup :: TableRow("| 1 | 2 |", ExampleTable(), [1, 0], lookup) == Ok("\n| 1 | 2 |")
  {
    ExamplePaths();
    var t := ExampleTable();
    assert TextContent(t.children[0]) == "AB";
    assert PreviousSibling(t, [1]) == Some(t.children[0]);
    assert !IsJsSpace("AB"[0]);
    assert !IsFirstTbody(t, [1]);
    assert IsHeadingRow(t, [1, 0]) == Ok(false);
    assert "\n" + "| 1 | 2 |" == "\n| 1 | 2 |";
  }

  /** A table whose THEAD row has one TH with `align="constructor"`. */
  function InheritedAlignTable(): Node {
    Element("TABLE", map[], [
      Element("THEAD", map[], [
        Element("TR", map[], [Element("TH", map["align" := "constructor"], [])])])])
  }

  /** On that row the source's lookup writes the text of `Object` into the alignment
      line, where the intended lookup writes `---`. */
  lemma ExampleInheritedAlignRow(content: string)
    ensures ValidPath(InheritedAlignTable(), [0, 0])
    ensures TableRow(content, InheritedAlignTable(), [0, 0], AsWritten)
      == Ok("\n" + content + "\n" + ("| " + "function Object() { [native code] }" + " |"))
    ensures TableRow(content, InheritedAlignTable(), [0, 0], Intended)
      == Ok("\n" + content + "\n" + ("| " + "---" + " |"))
  {
    var t := InheritedAlignTable();
    InheritedAlignHeading();
    HeadingRowAlignmentLine(content, t, [0, 0], AsWritten);
    HeadingRowAlignmentLine(content, t, [0, 0], Intended);
    InheritedAlignBorders();
  }

  /** The example's row is a heading row whose one cell is the TH. */
  lemma InheritedAlignHeading()
    ensures ValidPath(InheritedAlignTable(), [0, 0])
    ensures ChildNodes(At(InheritedAlignTable(), [0, 0])) == [Element("TH", map["align" := "constructor"], [])]
    ensures IsHeadingRow(InheritedAlignTable(), [0, 0]) == Ok(true)
  {
    var t := InheritedAlignTable();
    ChildStep(t, [], 0);
    assert [] + [0] == [0];
    ChildStep(t, [0], 0);
    assert [0] + [0] == [0, 0];
    assert Init([0, 0]) == [0];
  }

  /** The alignment lines the two lookups give for the example's one cell. */
  lemma InheritedAlignBorders()
    ensures var cs := [Element("TH", map["align" := "constructor"], [])];
      && BorderLine(cs, AsWritten) == "| " + "function Object() { [native code] }" + " |"
      && BorderLine(cs, Intended) == "| " + "---" + " |"
  {
    var th := Element("TH", map["align" := "constructor"], []);
    assert Lower("constructor") == "constructor";
    assert AlignOf(th) == "constructor";
    assert [th][..0] == [];
  }

  /** The example's first row is its header row, so the table is converted. */
  lemma ExampleTableConverts()
    ensures TableFilter(ExampleTable(), []) == Ok(true) && KeepFilter(ExampleTable(), []) == Ok(false)
  {
    ExamplePaths();
    var t := ExampleTable();
    ExampleHeaderIsHeading();
    assert TrChildren(ChildNodes(t)[0], [0], 0)[0] == [0] + [0] == [0, 0];
    assert GroupAt(t, [], 0, HeadRows)[0] == [0, 0];
    assert RowsFrom(t, [], 0, HeadRows)[0] == [0, 0];
    assert Rows(t, [])[0] == [0, 0];
  }

  // ---------------------------------------------------------------------------
  // taskListItems

  /** `node.type === 'checkbox'`: an INPUT whose `type` is `checkbox` in any case. */
  predicate IsCheckbox(n: Node) {
    n.Element? && n.tag == "INPUT" && "type" in n.attrs && Lower(n.attrs["type"]) == "checkbox"
  }

  /** `node.checked`, read from the `checked` attribute. */
  predicate IsChecked(n: Node) {
    n.Element? && "checked" in n.attrs
  }

  /** The `taskListItems` filter: a checkbox whose parent is an LI. */
  function TaskListItemsFilter(doc: Node, p: Path): (r: Result<bool>)
    requires ValidPath(doc, p)
    ensures r.TypeError? <==> IsCheckbox(At(doc, p)) && p == []
    ensures r == Ok(true) <==> IsCheckbox(At(doc, p)) && p != [] && NodeName(At(doc, Init(p))) == "LI"
  {
    if !IsCheckbox(At(doc, p)) then Ok(false)
    else
      match ParentNode(doc, p)
      case None => TypeError("Cannot read properties of null (reading 'nodeName')")
      case Some(parent) => Ok(NodeName(parent) == "LI")
  }

  /** The checkbox becomes a Markdown task marker; `content` is dropped. */
  function TaskListItem(content: string, n: Node): (r: string)
    ensures r == "[x] " <==> IsChecked(n)
    ensures r == "[ ] " <==> !IsChecked(n)
  {
    var mark := if IsChecked(n) then "[x]" else "[ ]";
    assert (mark + " ")[1] == mark[1];
    mark + " "
  }
}
