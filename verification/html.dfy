/** The HTML helpers of the scrapers: `clean_html` (the same three regular
    expression substitutions, whitespace collapse and strip in the general
    scraper and in the IIT Indore detail scraper) and `split_html_for_prompt`,
    which cuts a page into prompt-sized chunks at `</div>` tags. */
module Html {
  import opened Wrappers
  import opened Strings

  // ---------------------------------------------------------------------------
  // clean_html

  /** `re.sub(open + "[^>]*>.*?" + close, "", s, flags=re.DOTALL)` when
      `toGt` holds, `re.sub(open + ".*?" + close, ...)` otherwise.

      The leftmost match starts at the first occurrence of `open`; the body runs
      to the first `close` after it. When the first `open` has no match, no later
      one has either (its `>` and `close` would have to lie further right), so
      the scan can stop there. */
  function RemoveBlocks(s: string, open: string, toGt: bool, close: string): (r: string)
    requires open != [] && close != []
    ensures |r| <= |s|
    decreases |s|
  {
    match FirstBlock(s, open, toGt, close)
    case None => s
    case Some((i, e)) => s[..i] + RemoveBlocks(s[e..], open, toGt, close)
  }

  /** The leftmost match, as its start and its end: the first `open`, then
      (when `toGt` holds) the first `>` after it, then the first `close` after
      that. */
  function FirstBlock(s: string, open: string, toGt: bool, close: string): (r: Option<(nat, nat)>)
    ensures r.Some? ==> IndexOf(s, open) == Some(r.value.0)
    ensures r.Some? ==> r.value.0 + |open| + |close| <= r.value.1 <= |s|
  {
    match IndexOf(s, open)
    case None => None
    case Some(i) =>
      match BodyStart(s, open, toGt, i)
      case None => None
      case Some(b) =>
        match IndexOf(s[b..], close)
        case None => None
        case Some(k) => Some((i, b + k + |close|))
  }

  /** Where the body of a block whose `open` is at `i` starts: right after
      `open`, or after the first `>` that follows it. */
  function BodyStart(s: string, open: string, toGt: bool, i: nat): (r: Option<nat>)
    requires i + |open| <= |s|
    ensures r.Some? ==> i + |open| <= r.value <= |s|
    ensures r.Some? && toGt ==> i + |open| < r.value && s[r.value - 1] == '>'
  {
    if !toGt then Some(i + |open|)
    else match IndexOf(s[i + |open|..], ">")
      case None => None
      case Some(j) =>
        assert s[i + |open|..][j..][0] == s[i + |open| + j];
        Some(i + |open| + j + 1)
  }

  /** A complete block starts at `i`: `open`, then (when `toGt` holds) a `>`
      somewhere after it, then `close` somewhere after that. */
  predicate BlockAt(s: string, open: string, toGt: bool, close: string, i: nat) {
    i <= |s| && open <= s[i..] &&
    if toGt then exists g :: i + |open| <= g < |s| && s[g] == '>' && IsInfix(close, s[g + 1..])
    else IsInfix(close, s[i + |open|..])
  }

  /** The text holds a complete block somewhere. */
  ghost predicate HasBlock(s: string, open: string, toGt: bool, close: string) {
    exists i: nat :: BlockAt(s, open, toGt, close, i)
  }

  /** The substitution changes the text exactly when the text holds a
      complete block. */
  lemma RemoveBlocksChangesIffBlock(s: string, open: string, toGt: bool, close: string)
    requires open != [] && close != []
    ensures RemoveBlocks(s, open, toGt, close) == s <==> !HasBlock(s, open, toGt, close)
  {
    FirstBlockIffBlock(s, open, toGt, close);
    match FirstBlock(s, open, toGt, close)
    case None =>
    case Some((i, e)) =>
      assert |RemoveBlocks(s, open, toGt, close)| < |s|;
  }

  /** The leftmost match exists exactly when some complete block does. */
  lemma FirstBlockIffBlock(s: string, open: string, toGt: bool, close: string)
    ensures FirstBlock(s, open, toGt, close).Some? <==> HasBlock(s, open, toGt, close)
  {
    if HasBlock(s, open, toGt, close) {
      var i: nat :| BlockAt(s, open, toGt, close, i);
      BlockFindsFirst(s, open, toGt, close, i);
    }
    match FirstBlock(s, open, toGt, close)
    case None =>
    case Some(_) =>
      FirstBlockIsBlock(s, open, toGt, close);
  }

  /** An occurrence of `p` in a suffix is an occurrence in every longer
      suffix. */
  lemma InfixOfSuffix(p: string, s: string, a: nat, c: nat)
    requires a <= c <= |s| && IsInfix(p, s[c..])
    ensures IsInfix(p, s[a..])
  {
    var k := IndexOf(s[c..], p).value;
    assert s[a..][c - a + k..] == s[c..][k..];
    InfixAt(p, s[a..], c - a + k);
  }

  /** The first `c` of `t` comes no later than any `c` of `t`. */
  lemma FirstCharNoLater(t: string, c: char, j: nat, x: nat)
    requires IndexOf(t, [c]) == Some(j) && x < |t| && t[x] == c
    ensures j <= x
  {
    assert [c] <= t[x..];
  }

  /** Any complete block means the search for the leftmost match succeeds. */
  lemma BlockFindsFirst(s: string, open: string, toGt: bool, close: string, i: nat)
    requires BlockAt(s, open, toGt, close, i)
    ensures FirstBlock(s, open, toGt, close).Some?
  {
    var i0 := FirstOpenerNoLater(s, open, i);
    var b := BodyHoldsClose(s, open, toGt, close, i0, i);
    FirstBlockFrom(s, open, toGt, close, i0, b);
  }

  /** An opener at `i` means the first opener is found no later. */
  lemma FirstOpenerNoLater(s: string, open: string, i: nat) returns (i0: nat)
    requires i <= |s| && open <= s[i..]
    ensures IndexOf(s, open) == Some(i0) && i0 <= i
  {
    InfixAt(open, s, i);
    i0 := IndexOf(s, open).value;
  }

  /** The body of a block whose opener is at `i0`, before a complete block at
      `i`, holds a `close`. */
  lemma BodyHoldsClose(s: string, open: string, toGt: bool, close: string, i0: nat, i: nat) returns (b: nat)
    requires i0 <= i && BlockAt(s, open, toGt, close, i)
    ensures BodyStart(s, open, toGt, i0) == Some(b) && IsInfix(close, s[b..])
  {
    if toGt {
      var g :| i + |open| <= g < |s| && s[g] == '>' && IsInfix(close, s[g + 1..]);
      b := GtBodyHoldsClose(s, open, close, i0, g);
    } else {
      b := i0 + |open|;
      InfixOfSuffix(close, s, b, i + |open|);
    }
  }

  /** With `>`: a `>` at `g` followed by `close` means the body that starts
      after the first `>` holds that `close`. */
  lemma GtBodyHoldsClose(s: string, open: string, close: string, i0: nat, g: nat) returns (b: nat)
    requires i0 + |open| <= g < |s| && s[g] == '>' && IsInfix(close, s[g + 1..])
    ensures BodyStart(s, open, true, i0) == Some(b) && IsInfix(close, s[b..])
  {
    b := GtBodyNoLater(s, open, i0, g);
    InfixOfSuffix(close, s, b, g + 1);
  }

  /** With `>`: a `>` at `g` means the body starts no later than right
      after it. */
  lemma GtBodyNoLater(s: string, open: string, i0: nat, g: nat) returns (b: nat)
    requires i0 + |open| <= g < |s| && s[g] == '>'
    ensures BodyStart(s, open, true, i0) == Some(b) && b <= g + 1
  {
    var a := i0 + |open|;
    assert s[a..][g - a] == '>';
    InfixAt(">", s[a..], g - a);
    var j := IndexOf(s[a..], ">").value;
    FirstCharNoLater(s[a..], '>', j, g - a);
    b := a + j + 1;
  }

  /** The search succeeds once the body of the first block holds `close`. */
  lemma FirstBlockFrom(s: string, open: string, toGt: bool, close: string, i0: nat, b: nat)
    requires IndexOf(s, open) == Some(i0) && BodyStart(s, open, toGt, i0) == Some(b)
    requires IsInfix(close, s[b..])
    ensures FirstBlock(s, open, toGt, close).Some?
  {
  }

  /** The leftmost match is a complete block. */
  lemma FirstBlockIsBlock(s: string, open: string, toGt: bool, close: string)
    requires FirstBlock(s, open, toGt, close).Some?
    ensures BlockAt(s, open, toGt, close, FirstBlock(s, open, toGt, close).value.0)
  {
    var i0, b := FirstBlockParts(s, open, toGt, close);
    BodyMakesBlock(s, open, toGt, close, i0, b);
  }

  /** What the search found: an opener at `i0`, a body starting at `b`, and a
      `close` in the body. */
  lemma FirstBlockParts(s: string, open: string, toGt: bool, close: string) returns (i0: nat, b: nat)
    requires FirstBlock(s, open, toGt, close).Some?
    ensures i0 == FirstBlock(s, open, toGt, close).value.0
    ensures i0 + |open| <= |s| && open <= s[i0..]
    ensures BodyStart(s, open, toGt, i0) == Some(b) && IsInfix(close, s[b..])
  {
    i0 := IndexOf(s, open).value;
    b := BodyStart(s, open, toGt, i0).value;
    InfixAt(close, s[b..], IndexOf(s[b..], close).value);
  }

  /** An opener whose body holds a `close` is a complete block. */
  lemma BodyMakesBlock(s: string, open: string, toGt: bool, close: string, i0: nat, b: nat)
    requires i0 + |open| <= |s| && open <= s[i0..]
    requires BodyStart(s, open, toGt, i0) == Some(b) && IsInfix(close, s[b..])
    ensures BlockAt(s, open, toGt, close, i0)
  {
    if toGt {
      GtBlock(s, open, close, i0, b - 1);
    }
  }

  /** A block with a `>` at `g`. */
  lemma GtBlock(s: string, open: string, close: string, i: nat, g: nat)
    requires i <= |s| && open <= s[i..] && i + |open| <= g < |s|
    requires s[g] == '>' && IsInfix(close, s[g + 1..])
    ensures BlockAt(s, open, true, close, i)
  {
  }

  /** The text before the first opener is kept as it is. */
  lemma RemoveBlocksKeepsPrefix(s: string, open: string, toGt: bool, close: string, n: nat)
    requires open != [] && close != [] && n <= |s|
    requires forall j :: 0 <= j < n ==> !(open <= s[j..])
    ensures s[..n] <= RemoveBlocks(s, open, toGt, close)
  {
    match FirstBlock(s, open, toGt, close)
    case None =>
    case Some((i, e)) =>
      assert n <= i;
  }

  /** The substitution does not scan what it produces: removing the comment
      `<!---->` from `<!<!---->--a-->` joins the text on either side into the
      comment `<!--a-->`, which stays. */
  lemma RemoveBlocksCanJoinBlocks()
    ensures HasBlock("<!" + "<!--" + "-->" + "--a-->", "<!--", false, "-->")
    ensures RemoveBlocks("<!" + "<!--" + "-->" + "--a-->", "<!--", false, "-->") == "<!" + "--a-->"
    ensures HasBlock("<!" + "--a-->", "<!--", false, "-->")
  {
    var s := "<!" + "<!--" + "-->" + "--a-->";
    JoinedOpener();
    assert s[6..] == "-->" + "--a-->";
    IndexOfAt(s[6..], "-->", 0);
    FirstBlockAt(s, "<!--", false, "-->", 2, 6, 0);
    RemoveBlocksAt(s, "<!--", false, "-->", 2, 9);
    FirstBlockIsBlock(s, "<!--", false, "-->");
    assert BlockAt(s, "<!--", false, "-->", 2);
    assert s[..2] == "<!" && s[9..] == "--a-->";
    JoinedRest();
    JoinedBlock();
  }

  /** The search returns the first opener and the first `close` in its
      body. */
  lemma FirstBlockAt(s: string, open: string, toGt: bool, close: string, i0: nat, b: nat, k: nat)
    requires IndexOf(s, open) == Some(i0) && BodyStart(s, open, toGt, i0) == Some(b)
    requires IndexOf(s[b..], close) == Some(k)
    ensures FirstBlock(s, open, toGt, close).Some?
    ensures FirstBlock(s, open, toGt, close).value.0 == i0
    ensures FirstBlock(s, open, toGt, close).value.1 == b + k + |close|
  {
  }

  /** A match is cut out and the scan goes on after it. */
  lemma RemoveBlocksAt(s: string, open: string, toGt: bool, close: string, i: nat, e: nat)
    requires open != [] && close != [] && FirstBlock(s, open, toGt, close).Some?
    requires FirstBlock(s, open, toGt, close).value.0 == i && FirstBlock(s, open, toGt, close).value.1 == e
    ensures RemoveBlocks(s, open, toGt, close) == s[..i] + RemoveBlocks(s[e..], open, toGt, close)
  {
  }

  lemma JoinedOpener()
    ensures IndexOf("<!" + "<!--" + "-->" + "--a-->", "<!--") == Some(2)
  {
    var s := "<!" + "<!--" + "-->" + "--a-->";
    assert s[2..] == "<!--" + "-->" + "--a-->";
    assert s[1] != '<' && s[0..][2] != '-';
    IndexOfAt(s, "<!--", 2);
  }

  lemma JoinedRest()
    ensures RemoveBlocks("--a-->", "<!--", false, "-->") == "--a-->"
  {
    CharNotInfix('<', "--a-->");
    NoInfixExtending("<", "<!--", "--a-->");
    assert IndexOf("--a-->", "<!--").None?;
    assert FirstBlock("--a-->", "<!--", false, "-->").None?;
  }

  lemma JoinedBlock()
    ensures HasBlock("<!" + "--a-->", "<!--", false, "-->")
  {
    var r := "<!" + "--a-->";
    assert r[4..] == "a-->" && r[4..][1..] == "-->";
    InfixAt("-->", r[4..], 1);
    assert r[0..][..4] == "<!--";
    assert BlockAt(r, "<!--", false, "-->", 0);
  }

  /** The number of whitespace characters `s` starts with. */
  function LeadingSpaceRun(s: string): (n: nat)
    ensures n <= |s|
    ensures forall i :: 0 <= i < n ==> s[i] in Whitespace
    ensures n < |s| ==> s[n] !in Whitespace
  {
    if s == [] || s[0] !in Whitespace then 0 else 1 + LeadingSpaceRun(s[1..])
  }

  /** No two neighbouring characters are both whitespace. */
  predicate NoAdjacentSpace(s: string) {
    forall i :: 0 <= i < |s| - 1 ==> !(s[i] in Whitespace && s[i + 1] in Whitespace)
  }

  /** `re.sub(r"\s{2,}", " ", s)`: every maximal run of two or more whitespace
      characters becomes one space; a lone whitespace character stays. */
  function CollapseWhitespace(s: string): (r: string)
    ensures |r| <= |s|
    ensures s != [] ==> r != [] && (r[0] in Whitespace <==> s[0] in Whitespace)
    ensures NoAdjacentSpace(r)
    decreases |s|
  {
    if s == [] then []
    else if s[0] in Whitespace then
      var n := LeadingSpaceRun(s);
      if n >= 2 then " " + CollapseWhitespace(s[n..])
      else [s[0]] + CollapseWhitespace(s[1..])
    else [s[0]] + CollapseWhitespace(s[1..])
  }

  /** `clean_html(raw_html)`. */
  function CleanHtml(raw: string): (r: string)
    ensures |r| <= |raw|
  {
    var noScripts := RemoveBlocks(raw, "<script", true, "</script>");
    var noStyles := RemoveBlocks(noScripts, "<style", true, "</style>");
    var noComments := RemoveBlocks(noStyles, "<!--", false, "-->");
    Strip(CollapseWhitespace(noComments))
  }

  lemma NoAdjacentSpaceSlice(s: string, a: nat, b: nat)
    requires NoAdjacentSpace(s) && a <= b <= |s|
    ensures NoAdjacentSpace(s[a..b])
  {
    assert forall i :: 0 <= i < b - a ==> s[a..b][i] == s[a + i];
  }

  /** The cleaned text has no whitespace at either end and no two whitespace
      characters side by side. */
  lemma CleanHtmlNormalisesWhitespace(raw: string)
    ensures var r := CleanHtml(raw);
      && (r != [] ==> r[0] !in Whitespace && r[|r| - 1] !in Whitespace)
      && NoAdjacentSpace(r)
  {
    var noScripts := RemoveBlocks(raw, "<script", true, "</script>");
    var noStyles := RemoveBlocks(noScripts, "<style", true, "</style>");
    var noComments := RemoveBlocks(noStyles, "<!--", false, "-->");
    var c := CollapseWhitespace(noComments);
    var l := LStripSet(c, Whitespace);
    LStripSetSuffix(c, Whitespace);
    NoAdjacentSpaceSlice(c, |c| - |l|, |c|);
    var r := RStripSet(l, Whitespace);
    RStripSetPrefix(l, Whitespace);
    NoAdjacentSpaceSlice(l, 0, |r|);
    assert r == l[0..|r|];
  }

  /** The collapse leaves text without whitespace runs as it is. */
  lemma {:induction false} CollapseWhitespaceKeepsClean(s: string)
    requires NoAdjacentSpace(s)
    requires forall i :: 0 <= i < |s| ==> s[i] in Whitespace ==> s[i] == ' '
    ensures CollapseWhitespace(s) == s
    decreases |s|
  {
    if s != [] {
      assert NoAdjacentSpace(s[1..]);
      CollapseWhitespaceKeepsClean(s[1..]);
      if s[0] in Whitespace {
        assert LeadingSpaceRun(s) == 1 by {
          if |s| > 1 { assert s[1] !in Whitespace; }
          assert LeadingSpaceRun(s) == 1 + LeadingSpaceRun(s[1..]);
        }
      }
      assert s == [s[0]] + s[1..];
    }
  }

  // ---------------------------------------------------------------------------
  // split_html_for_prompt

  /** `p` occurs in `s` at index `j`. */
  predicate OccursAt(s: string, p: string, j: nat) {
    j + |p| <= |s| && s[j..j + |p|] == p
  }

  /** `s.rfind(p)`: the last index at which `p` occurs wholly inside `s`. */
  function LastIndexOf(s: string, p: string): (r: Option<nat>)
    ensures r.Some? ==> OccursAt(s, p, r.value)
    ensures r.Some? ==> forall j: nat :: r.value < j ==> !OccursAt(s, p, j)
    ensures r.None? ==> forall j: nat :: !OccursAt(s, p, j)
    decreases |s|
  {
    if |s| < |p| then None
    else if s[|s| - |p|..] == p then Some(|s| - |p|)
    else
      var r := LastIndexOf(s[..|s| - 1], p);
      assert forall j: nat :: OccursAt(s, p, j) <==> OccursAt(s[..|s| - 1], p, j) by {
        forall j: nat ensures OccursAt(s, p, j) <==> OccursAt(s[..|s| - 1], p, j) {
          if j + |p| <= |s| - 1 {
            assert s[..|s| - 1][j..j + |p|] == s[j..j + |p|];
          }
        }
      }
      r
  }

  const DivClose: string := "</div>"

  /** The outcome of the chunking loop: the chunks, or no outcome because the
      loop stops making progress and never ends. */
  datatype Chunking = Chunks(chunks: seq<string>) | Diverges

  /** `html.rfind("</div>", 0, max_chars)`, or `max_chars` when there is none. */
  function CutPoint(html: string, maxChars: nat): (cut: nat)
    requires |html| > maxChars
    ensures cut <= maxChars
  {
    match LastIndexOf(html[..maxChars], DivClose)
    case None => maxChars
    case Some(i) => i
  }

  function PrependChunks(cs: seq<string>, r: Chunking): Chunking {
    match r
    case Diverges => Diverges
    case Chunks(ds) => Chunks(cs + ds)
  }

  /** What the loop of `split_html_for_prompt` computes. A cut at 0 leaves the
      remaining text as it was, so the loop repeats forever. */
  function SplitHtml(html: string, maxChars: nat): Chunking
    decreases |html|
  {
    if |html| <= maxChars then Chunks([html])
    else
      var cut := CutPoint(html, maxChars);
      if cut == 0 then Diverges
      else PrependChunks([html[..cut]], SplitHtml(html[cut..], maxChars))
  }

  /** The loop of `split_html_for_prompt`; it stops with `Diverges` at the first
      iteration that would leave `html` unchanged. */
  method SplitHtmlForPrompt(html: string, maxChars: nat) returns (r: Chunking)
    ensures r == SplitHtml(html, maxChars)
  {
    var chunks: seq<string> := [];
    var rest := html;
    while |rest| > maxChars
      invariant SplitHtml(html, maxChars) == PrependChunks(chunks, SplitHtml(rest, maxChars))
      decreases |rest|
    {
      var splitAt := CutPoint(rest, maxChars);
      if splitAt == 0 {
        return Diverges;
      }
      PrependChunksTwice(chunks, [rest[..splitAt]], SplitHtml(rest[splitAt..], maxChars));
      chunks := chunks + [rest[..splitAt]];
      rest := rest[splitAt..];
    }
    return Chunks(chunks + [rest]);
  }

  /** Putting chunks in front in two steps is putting them in front at once. */
  lemma PrependChunksTwice(cs: seq<string>, ds: seq<string>, r: Chunking)
    ensures PrependChunks(cs, PrependChunks(ds, r)) == PrependChunks(cs + ds, r)
  {
    match r
    case Diverges =>
    case Chunks(es) =>
      assert cs + (ds + es) == (cs + ds) + es;
  }

  /** When the loop ends, the chunks put back together are the page, none is
      longer than `maxChars`, and every cut lies at the start of a `</div>` or
      after exactly `maxChars` characters. */
  lemma {:induction false} SplitHtmlChunks(html: string, maxChars: nat)
    requires SplitHtml(html, maxChars).Chunks?
    ensures var cs := SplitHtml(html, maxChars).chunks;
      && |cs| >= 1
      && Concat(cs) == html
      && (forall k :: 0 <= k < |cs| ==> |cs[k]| <= maxChars)
      && (forall k :: 0 <= k < |cs| - 1 ==> |cs[k]| == maxChars || DivClose <= Concat(cs[k + 1..]))
  {
    SplitHtmlConcat(html, maxChars);
    SplitHtmlBounded(html, maxChars);
    SplitHtmlCuts(html, maxChars);
  }

  lemma {:induction false} SplitHtmlConcat(html: string, maxChars: nat)
    requires SplitHtml(html, maxChars).Chunks?
    ensures |SplitHtml(html, maxChars).chunks| >= 1
    ensures Concat(SplitHtml(html, maxChars).chunks) == html
    decreases |html|
  {
    if |html| > maxChars {
      var cut := CutPoint(html, maxChars);
      var rest := html[cut..];
      SplitHtmlConcat(rest, maxChars);
      SplitHtmlStep(html, maxChars);
      ConcatCons(html[..cut], SplitHtml(rest, maxChars).chunks);
      assert html == html[..cut] + rest;
    }
  }

  /** A page longer than `maxChars` that splits is its first chunk followed
      by the split of the rest. */
  lemma SplitHtmlStep(html: string, maxChars: nat)
    requires |html| > maxChars && SplitHtml(html, maxChars).Chunks?
    ensures 0 < CutPoint(html, maxChars)
    ensures SplitHtml(html[CutPoint(html, maxChars)..], maxChars).Chunks?
    ensures SplitHtml(html, maxChars).chunks
         == [html[..CutPoint(html, maxChars)]] + SplitHtml(html[CutPoint(html, maxChars)..], maxChars).chunks
  {
  }

  /** Putting a chunk in front puts its text in front. */
  lemma ConcatCons(x: string, ds: seq<string>)
    ensures Concat([x] + ds) == x + Concat(ds)
  {
    assert ([x] + ds)[1..] == ds;
  }

  lemma {:induction false} SplitHtmlBounded(html: string, maxChars: nat)
    requires SplitHtml(html, maxChars).Chunks?
    ensures forall k :: 0 <= k < |SplitHtml(html, maxChars).chunks| ==> |SplitHtml(html, maxChars).chunks[k]| <= maxChars
    decreases |html|
  {
    if |html| > maxChars {
      var cut := CutPoint(html, maxChars);
      var rest := html[cut..];
      SplitHtmlBounded(rest, maxChars);
      var ds := SplitHtml(rest, maxChars).chunks;
      var cs := SplitHtml(html, maxChars).chunks;
      SplitHtmlStep(html, maxChars);
    }
  }

  lemma {:induction false} SplitHtmlCuts(html: string, maxChars: nat)
    requires SplitHtml(html, maxChars).Chunks?
    ensures var cs := SplitHtml(html, maxChars).chunks;
      forall k :: 0 <= k < |cs| - 1 ==> |cs[k]| == maxChars || DivClose <= Concat(cs[k + 1..])
    decreases |html|
  {
    if |html| > maxChars {
      var cut := CutPoint(html, maxChars);
      var rest := html[cut..];
      SplitHtmlCuts(rest, maxChars);
      SplitHtmlConcat(rest, maxChars);
      var ds := SplitHtml(rest, maxChars).chunks;
      var cs := SplitHtml(html, maxChars).chunks;
      SplitHtmlStep(html, maxChars);
      if cut < maxChars {
        var i := LastIndexOf(html[..maxChars], DivClose).value;
        assert DivClose <= rest by {
          assert html[..maxChars][i..i + |DivClose|] == rest[..|DivClose|];
        }
      }
      forall k | 0 <= k < |cs| - 1
        ensures |cs[k]| == maxChars || DivClose <= Concat(cs[k + 1..])
      {
        if k > 0 {
          assert cs[k + 1..] == ds[k..];
        } else {
          assert cs[1..] == ds;
        }
      }
    }
  }

  /** The loop never ends on a page whose text, after a first cut, starts with
      `</div>` and has no other `</div>` in the window. */
  lemma SplitHtmlDivergesAfterCut()
    ensures SplitHtml("ab" + DivClose + "cdefgh", 8) == Diverges
  {
    var html := "ab" + DivClose + "cdefgh";
    var w := html[..8];
    assert w == "ab" + DivClose;
    assert OccursAt(w, DivClose, 2) by {
      assert w[2..8] == DivClose;
    }
    assert CutPoint(html, 8) == 2;
    var rest := html[2..];
    assert rest == DivClose + "cdefgh";
    var w2 := rest[..8];
    assert w2 == DivClose + "cd";
    assert OccursAt(w2, DivClose, 0) by {
      assert w2[0..6] == DivClose;
    }
    assert !OccursAt(w2, DivClose, 1) by {
      assert w2[1..7][0] == '/';
    }
    assert !OccursAt(w2, DivClose, 2) by {
      assert w2[2..8][0] == 'd';
    }
    assert CutPoint(rest, 8) == 0;
  }

  /** The corrected cut: just after the last `</div>` lying wholly in the
      window, or the full window when there is none. */
  function CutAfterDiv(html: string, maxChars: nat): (cut: nat)
    requires |html| > maxChars >= 1
    ensures 0 < cut <= maxChars
    ensures cut < maxChars ==> EndsWith(html[..cut], DivClose)
  {
    match LastIndexOf(html[..maxChars], DivClose)
    case None => maxChars
    case Some(i) =>
      assert html[..i + |DivClose|][i..] == html[..maxChars][i..i + |DivClose|];
      i + |DivClose|
  }

  /** The chunker with the cut placed after the `</div>` it found, so that
      every cut makes progress. */
  function SplitHtmlAfterDiv(html: string, maxChars: nat): (cs: seq<string>)
    requires maxChars >= 1
    decreases |html|
  {
    if |html| <= maxChars then [html]
    else
      var cut := CutAfterDiv(html, maxChars);
      [html[..cut]] + SplitHtmlAfterDiv(html[cut..], maxChars)
  }

  /** The corrected chunker always ends: its chunks put back together are the
      page, none is longer than `maxChars`, and each chunk but the last either
      ends with `</div>` or fills the window. */
  lemma {:induction false} SplitHtmlAfterDivChunks(html: string, maxChars: nat)
    requires maxChars >= 1
    ensures var cs := SplitHtmlAfterDiv(html, maxChars);
      && |cs| >= 1
      && Concat(cs) == html
      && (forall k :: 0 <= k < |cs| ==> |cs[k]| <= maxChars)
      && (forall k :: 0 <= k < |cs| - 1 ==> |cs[k]| == maxChars || EndsWith(cs[k], DivClose))
    decreases |html|
  {
    if |html| > maxChars {
      var cut := CutAfterDiv(html, maxChars);
      SplitHtmlAfterDivChunks(html[cut..], maxChars);
      var rest := SplitHtmlAfterDiv(html[cut..], maxChars);
      var cs := SplitHtmlAfterDiv(html, maxChars);
      assert cs == [html[..cut]] + rest;
      assert cs[1..] == rest;
      assert html == html[..cut] + html[cut..];
      assert forall k :: 1 <= k < |cs| ==> cs[k] == rest[k - 1];
    }
  }
}
