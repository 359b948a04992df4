/** Finding a department's faculty-listing page on the IIT Indore site: the
    department link's full URL, the anchors that become candidate links,
    the keyword/domain filter, the score, the choice of the best link, and
    the check applied to a URL proposed by the language model when no link
    survives the filter. */
module DeptLinks {
  import opened Wrappers
  import opened Strings
  import opened UrlScan

  // ---------------------------------------------------------------------
  // Department links

  const SiteRoot: string := "https://www.iiti.ac.in/"

  /** The department link: the href, trimmed, kept when it starts with
      "http", otherwise appended to the site root without its leading `/`s. */
  function FullUrl(href: string): string {
    var h := Strip(href);
    if "http" <= h then h else SiteRoot + LStripSet(h, {'/'})
  }

  /** A department link always starts with "http"; a relative href is the
      site root followed by the href with its leading slashes dropped. */
  lemma FullUrlFacts(href: string)
    ensures "http" <= FullUrl(href)
    ensures var h := Strip(href);
      !("http" <= h) ==>
        exists k :: 0 <= k <= |h| && (forall j :: 0 <= j < k ==> h[j] == '/') &&
          FullUrl(href) == SiteRoot + h[k..] && (k < |h| ==> h[k] != '/')
  {
    var h := Strip(href);
    if !("http" <= h) {
      LStripSetSuffix(h, {'/'});
      var k := |h| - |LStripSet(h, {'/'})|;
      assert FullUrl(href) == SiteRoot + h[k..];
    }
  }

  /** Resolving a department link again changes nothing. */
  lemma FullUrlIdempotent(href: string)
    ensures FullUrl(FullUrl(href)) == FullUrl(href)
  {
    var u := FullUrl(href);
    FullUrlFacts(href);
    assert u[0] == 'h';
    assert u != [] && u[0] !in Whitespace && u[|u| - 1] !in Whitespace by {
      var h := Strip(href);
      if "http" <= h {
        assert u == h;
      } else {
        assert u[|u| - 1] == (SiteRoot + LStripSet(h, {'/'}))[|u| - 1];
        if LStripSet(h, {'/'}) != [] {
          var t := LStripSet(h, {'/'});
          assert u[|u| - 1] == t[|t| - 1];
          LStripSetSuffix(h, {'/'});
          assert t[|t| - 1] == h[|h| - 1];
        }
      }
    }
    StripUnpadded(u);
  }

  // ---------------------------------------------------------------------
  // Candidate links

  /** A page anchor: its text (already trimmed) and its `href` attribute. */
  datatype Anchor = Anchor(text: string, href: Option<string>)

  /** A candidate link: anchor text and resolved URL. */
  datatype Link = Link(text: string, url: string)

  /** An anchor becomes a candidate when its href is present, non-empty and
      does not start with `#`. */
  predicate UsableHref(a: Anchor) {
    a.href.Some? && a.href.value != "" && a.href.value[0] != '#'
  }

  /** The links collected from the page's anchors, in page order, each href
      resolved against the department URL by `resolve` (`urljoin`). */
  function Candidates(anchors: seq<Anchor>, resolve: string -> string): (r: seq<Link>)
    ensures |r| <= |anchors|
    ensures forall l :: l in r <==> exists a :: a in anchors && UsableHref(a) && l == Link(a.text, resolve(a.href.value))
  {
    if anchors == [] then []
    else
      var init := anchors[..|anchors| - 1];
      var a := anchors[|anchors| - 1];
      assert anchors == init + [a];
      var r := Candidates(init, resolve);
      if UsableHref(a) then r + [Link(a.text, resolve(a.href.value))] else r
  }

  /** The loop over the page's anchors that builds `links`. */
  method CollectCandidates(anchors: seq<Anchor>, resolve: string -> string) returns (links: seq<Link>)
    ensures links == Candidates(anchors, resolve)
  {
    links := [];
    for i := 0 to |anchors|
      invariant links == Candidates(anchors[..i], resolve)
    {
      assert anchors[..i + 1][..i] == anchors[..i];
      var a := anchors[i];
      if a.href.Some? && a.href.value != "" && a.href.value[0] != '#' {
        links := links + [Link(a.text, resolve(a.href.value))];
      }
    }
    assert anchors[..|anchors|] == anchors;
  }

  /** Candidates keep page order, and anchors without a usable href add
      nothing wherever they stand. */
  lemma {:induction false} CandidatesAppend(a: seq<Anchor>, b: seq<Anchor>, resolve: string -> string)
    ensures Candidates(a + b, resolve) == Candidates(a, resolve) + Candidates(b, resolve)
    decreases |b|
  {
    if b == [] {
      assert a + b == a;
    } else {
      var init := b[..|b| - 1];
      assert (a + b)[..|a + b| - 1] == a + init;
      assert (a + b)[|a + b| - 1] == b[|b| - 1];
      CandidatesAppend(a, init, resolve);
    }
  }

  // ---------------------------------------------------------------------
  // The filter

  const FacultyKeywords: seq<string> := ["faculty", "people", "team", "group", "core", "staff", "profile", "research"]
  const DocumentSuffixes: seq<string> := [".pdf", ".doc", ".docx", "#", "/#"]
  const AllowedDomains: seq<string> := ["iiti.ac.in", "iit.ac.in", "google.com"]

  /** Some word of `words` occurs in `s`. */
  predicate AnyIn(words: seq<string>, s: string) {
    exists j :: 0 <= j < |words| && IsInfix(words[j], s)
  }

  /** `s` ends with one of `suffixes`. */
  predicate EndsWithAny(s: string, suffixes: seq<string>) {
    exists j :: 0 <= j < |suffixes| && EndsWith(s, suffixes[j])
  }

  /** A character of the class `[\w\-]`. */
  predicate Wordish(c: char) {
    'a' <= c <= 'z' || 'A' <= c <= 'Z' || '0' <= c <= '9' || c == '_' || c == '-'
  }

  predicate AllWordish(t: string) {
    forall j :: 0 <= j < |t| ==> Wordish(t[j])
  }

  /** `[\w\-]+/?` matching the whole of `t`. */
  predicate LeafTail(t: string) {
    (t != [] && AllWordish(t)) || (|t| >= 2 && t[|t| - 1] == '/' && AllWordish(t[..|t| - 1]))
  }

  /** `/<marker>[\w\-]+/?` matches a suffix of `v`. */
  predicate EndsInLeaf(v: string, marker: string) {
    exists i :: 0 <= i < |v| && v[i] == '/' && marker <= v[i + 1..] && LeafTail(v[i + 1 + |marker|..])
  }

  /** The same with `$`, which also matches before a final newline. */
  predicate LeafAtEnd(u: string, marker: string) {
    EndsInLeaf(u, marker) || (u != [] && u[|u| - 1] == '\n' && EndsInLeaf(u[..|u| - 1], marker))
  }

  /** `re.search(r"/(prof|dr)[\w\-]+/?$", u)`: an individual profile page. */
  predicate ProfLeaf(u: string) {
    LeafAtEnd(u, "prof") || LeafAtEnd(u, "dr")
  }

  /** `re.search(r"/~[\w\-]+/?$", u)`: a personal home page. */
  predicate TildeLeaf(u: string) {
    LeafAtEnd(u, "~")
  }

  /** The conditions of the filter loop, on the lower-cased URL and text. */
  predicate Survives(l: Link, deptUrl: string) {
    var url := Lower(l.url);
    var text := Lower(l.text);
    (AnyIn(FacultyKeywords, text) || AnyIn(FacultyKeywords, url)) &&
    StripSet(url, {'/'}) != StripSet(deptUrl, {'/'}) &&
    !EndsWithAny(url, DocumentSuffixes) &&
    !ProfLeaf(url) && !TildeLeaf(url) &&
    AnyIn(AllowedDomains, url)
  }

  /** The surviving links, in page order. */
  function Surviving(links: seq<Link>, deptUrl: string): (r: seq<Link>)
    ensures |r| <= |links|
    ensures forall l :: l in r <==> l in links && Survives(l, deptUrl)
  {
    if links == [] then []
    else
      var init := links[..|links| - 1];
      var l := links[|links| - 1];
      assert links == init + [l];
      var r := Surviving(init, deptUrl);
      if Survives(l, deptUrl) then r + [l] else r
  }

  /** The filter loop that builds `filtered_links`. */
  method FilterLinks(links: seq<Link>, deptUrl: string) returns (filtered: seq<Link>)
    ensures filtered == Surviving(links, deptUrl)
  {
    filtered := [];
    for i := 0 to |links|
      invariant filtered == Surviving(links[..i], deptUrl)
    {
      assert links[..i + 1][..i] == links[..i];
      if Survives(links[i], deptUrl) {
        filtered := filtered + [links[i]];
      }
    }
    assert links[..|links|] == links;
  }

  /** A leaf name starting with "prof" counts as a profile page, so a
      listing whose URL ends in `/professors/` never survives. */
  lemma ProfessorsListingRejected(base: string, deptUrl: string, text: string)
    ensures ProfLeaf(base + "/professors/")
    ensures !Survives(Link(text, base + "/professors/"), deptUrl)
  {
    var u := base + "/professors/";
    assert u[|base|..] == "/professors/";
    ProfessorsEnding(u, |base|);
    LowerProfLeaf(base);
  }

  /** A URL ending in `/professors/` has a "prof" leaf. */
  lemma ProfessorsEnding(v: string, i: nat)
    requires i <= |v| && v[i..] == "/professors/"
    ensures ProfLeaf(v)
  {
    assert v[i] == '/';
    assert v[i + 1..] == "professors/";
    assert "prof" <= v[i + 1..];
    var t := v[i + 5..];
    assert t == "essors/";
    assert AllWordish(t[..|t| - 1]);
    assert EndsInLeaf(v, "prof");
  }

  /** Lower-casing keeps the `/professors/` ending. */
  lemma LowerProfLeaf(base: string)
    ensures ProfLeaf(Lower(base + "/professors/"))
  {
    var u := base + "/professors/";
    var v := Lower(u);
    var i := |base|;
    assert v[i..] == Lower("/professors/") by {
      forall j | 0 <= j < |v| - i ensures v[i..][j] == Lower("/professors/")[j] {
        assert v[i + j] == LowerChar(u[i + j]);
      }
    }
    assert Lower("/professors/") == "/professors/";
    ProfessorsEnding(v, i);
  }

  // ---------------------------------------------------------------------
  // The score

  /** How many words of `words` occur in `s` (`sum(k in s for k in words)`). */
  function CountIn(words: seq<string>, s: string): (n: nat)
    ensures n <= |words|
  {
    if words == [] then 0
    else (if IsInfix(words[0], s) then 1 else 0) + CountIn(words[1..], s)
  }

  /** The count is positive exactly when some word occurs. */
  lemma {:induction false} CountInPositive(words: seq<string>, s: string)
    ensures CountIn(words, s) > 0 <==> AnyIn(words, s)
  {
    if words != [] {
      CountInPositive(words[1..], s);
      if AnyIn(words[1..], s) {
        var j :| 0 <= j < |words[1..]| && IsInfix(words[1..][j], s);
        assert IsInfix(words[j + 1], s);
      }
      if AnyIn(words, s) && !IsInfix(words[0], s) {
        var j :| 0 <= j < |words| && IsInfix(words[j], s);
        assert words[1..][j - 1] == words[j];
      }
    }
  }

  /** `url.count("/")`. */
  function CountChar(s: string, c: char): nat {
    if s == [] then 0 else (if s[0] == c then 1 else 0) + CountChar(s[1..], c)
  }

  /** `score(link)`. */
  function Score(l: Link): int {
    var url := Lower(l.url);
    var text := Lower(l.text);
    CountIn(FacultyKeywords, text) * 100 + CountIn(FacultyKeywords, url) * 50 +
    (if IsInfix("index.php", url) then 30 else 0) +
    (if IsInfix("people", url) && IsInfix("people", text) then 40 else 0) +
    (if CountChar(url, '/') >= 5 then 10 else 0)
  }

  /** Every surviving link scores at least 50, at least 100 when a keyword
      is in its text, and never more than 8 * 150 + 80. */
  lemma ScoreBounds(l: Link, deptUrl: string)
    ensures 0 <= Score(l) <= 1280
    ensures AnyIn(FacultyKeywords, Lower(l.text)) ==> Score(l) >= 100
    ensures Survives(l, deptUrl) ==> Score(l) >= 50
  {
    CountInPositive(FacultyKeywords, Lower(l.text));
    CountInPositive(FacultyKeywords, Lower(l.url));
  }

  // ---------------------------------------------------------------------
  // The best link

  /** The scores of a list of links. */
  function Scores(links: seq<Link>): (r: seq<int>)
    ensures |r| == |links| && forall j :: 0 <= j < |links| ==> r[j] == Score(links[j])
  {
    seq(|links|, j requires 0 <= j < |links| => Score(links[j]))
  }

  /** The position of the first highest score: the head of the list after
      the stable descending sort by score. */
  function BestIndex(scores: seq<int>): (r: nat)
    requires scores != []
    ensures r < |scores|
    ensures forall j :: 0 <= j < |scores| ==> scores[j] <= scores[r]
    ensures forall j :: 0 <= j < r ==> scores[j] < scores[r]
  {
    if |scores| == 1 then 0
    else
      var b := BestIndex(scores[..|scores| - 1]);
      if scores[|scores| - 1] > scores[b] then |scores| - 1 else b
  }

  /** `AiChoice` looks for the first `https?://` run up to whitespace, a
      quote, `)` or `]`. */
  const AiStops: set<char> := Whitespace + {'"', '\'', ')', ']'}

  const AiDocumentSuffixes: seq<string> := [".pdf", ".doc", ".docx"]

  /** The checks on a proposed URL. The domain test looks at the URL as
      given, the others at its lower-cased form. */
  predicate AcceptableChoice(chosen: string, deptUrl: string) {
    chosen != deptUrl &&
    !ProfLeaf(Lower(chosen)) &&
    !EndsWithAny(Lower(chosen), AiDocumentSuffixes) &&
    AnyIn(AllowedDomains, chosen)
  }

  /** The fall-back: the first URL in the model's reply (`None` when the
      call failed), trimmed, if it passes the checks. The answer is the
      reply's first link, and that link is returned exactly when it passes. */
  function AiChoice(reply: Option<string>, deptUrl: string): (r: Option<string>)
    ensures r.Some? ==> AcceptableChoice(r.value, deptUrl) && IsLink(r.value, AiStops)
    ensures r.Some? ==> reply.Some? && r == FirstLink(reply.value, AiStops)
    ensures r.Some? <==> (reply.Some? && FirstLink(reply.value, AiStops).Some? &&
                          AcceptableChoice(FirstLink(reply.value, AiStops).value, deptUrl))
  {
    if reply.None? then None
    else match FirstLink(reply.value, AiStops)
      case None => None
      case Some(m) =>
        LinkIsTrimmed(m);
        var chosen := Strip(m);
        if AcceptableChoice(chosen, deptUrl) then Some(chosen) else None
  }

  /** A scanned link holds no whitespace, so trimming leaves it as it is. */
  lemma LinkIsTrimmed(m: string)
    requires IsLink(m, AiStops)
    ensures Strip(m) == m
  {
    assert m[0] == 'h';
    assert m[|m| - 1] !in AiStops;
    StripUnpadded(m);
  }

  /** `find_faculty_page_ai` after the page has been read: the best
      surviving link when there is one, otherwise the model's proposal if it
      is acceptable. */
  function FindFacultyPage(links: seq<Link>, deptUrl: string, reply: Option<string>): Option<string> {
    var filtered := Surviving(links, deptUrl);
    if filtered != [] then Some(filtered[BestIndex(Scores(filtered))].url)
    else AiChoice(reply, deptUrl)
  }

  /** When a link survives, the answer is the URL of the first surviving link
      with the highest score, and the model is not consulted. */
  lemma FindFacultyPageScored(links: seq<Link>, deptUrl: string, reply: Option<string>)
    requires Surviving(links, deptUrl) != []
    ensures var f := Surviving(links, deptUrl);
      exists i :: 0 <= i < |f| && FindFacultyPage(links, deptUrl, reply) == Some(f[i].url) &&
        Survives(f[i], deptUrl) &&
        (forall j :: 0 <= j < |f| ==> Score(f[j]) <= Score(f[i])) &&
        (forall j :: 0 <= j < i ==> Score(f[j]) < Score(f[i]))
    ensures FindFacultyPage(links, deptUrl, reply) == FindFacultyPage(links, deptUrl, None)
  {
    var f := Surviving(links, deptUrl);
    var i := BestIndex(Scores(f));
    assert f[i] in f;
    FindFacultyPageBest(links, deptUrl, reply);
    FindFacultyPageBest(links, deptUrl, None);
  }

  lemma FindFacultyPageBest(links: seq<Link>, deptUrl: string, reply: Option<string>)
    requires Surviving(links, deptUrl) != []
    ensures var f := Surviving(links, deptUrl);
      FindFacultyPage(links, deptUrl, reply) == Some(f[BestIndex(Scores(f))].url)
  {
  }

  /** When nothing survives, the answer is the reply's first scanned URL,
      given exactly when that URL passes the checks. */
  lemma FindFacultyPageFallback(links: seq<Link>, deptUrl: string, reply: Option<string>)
    requires Surviving(links, deptUrl) == []
    ensures var r := FindFacultyPage(links, deptUrl, reply);
      r.Some? ==>
        reply.Some? && r == FirstLink(reply.value, AiStops) &&
        r.value != deptUrl && IsLink(r.value, AiStops) &&
        AnyIn(AllowedDomains, r.value) && !ProfLeaf(Lower(r.value))
    ensures FindFacultyPage(links, deptUrl, reply).Some? <==>
      (reply.Some? && FirstLink(reply.value, AiStops).Some? &&
       AcceptableChoice(FirstLink(reply.value, AiStops).value, deptUrl))
    ensures reply.None? ==> FindFacultyPage(links, deptUrl, reply).None?
  {
  }
}
