/** The Streamlit app's record logic: the image proxy URL, how each source
    file's records are normalised on load, interest splitting, the search
    filter and its cap, mail-body trimming, the choice of the selected
    professor and the grouping by department. A record is a dict of string
    fields. */
module App {
  import opened Wrappers
  import opened Strings
  import opened Url
  import Sorting

  type Row = map<string, string>

  /** `p.get(k, default)`. */
  function GetOr(p: Row, k: string, default: string): string {
    if k in p then p[k] else default
  }

  // ---------------------------------------------------------------------
  // proxy_image_url

  const FallbackImageUrl: string := "https://upload.wikimedia.org" + "/wikipedia/en/3/3e/IIT_Delhi_Logo.png"
  const ProxyPrefix: string := "https://images.weserv.nl/?url="
  const ProxySuffix: string := "&w=300"

  /** `proxy_image_url(url)`: the fall-back logo for a missing or empty URL,
      otherwise the image proxy with the URL as its fully encoded `url`
      parameter. */
  function ProxyImageUrl(url: Option<string>): (r: string)
    ensures r == FallbackImageUrl <==> url.None? || url.value == ""
    ensures url.Some? && url.value != "" ==> ProxyPrefix <= r && r[|r| - |ProxySuffix|..] == ProxySuffix
  {
    if url.None? || url.value == "" then FallbackImageUrl
    else
      var r := ProxyPrefix + Quote(url.value, {}) + ProxySuffix;
      assert r[8] == 'i' != FallbackImageUrl[8];
      r
  }

  /** The proxy's `url` parameter runs from the prefix to the first `&`,
      and that text decodes back to the URL. */
  lemma ProxyUrlParameter(url: string)
    requires url != ""
    ensures var r := ProxyImageUrl(Some(url));
      var rest := r[|ProxyPrefix|..];
      ProxyPrefix <= r &&
      IndexOf(rest, "&") == Some(|Quote(url, {})|) &&
      Unquote(rest[..|Quote(url, {})|]) == url
  {
    var q := Quote(url, {});
    var r := ProxyImageUrl(Some(url));
    assert r[|ProxyPrefix|..] == q + ProxySuffix;
    assert !Unreserved('&');
    FirstAmpersandAfter(q, ProxySuffix);
    UnquoteQuote(url, {});
  }

  /** In a text without `&` followed by one that starts with `&`, the first
      `&` is where the second text starts. */
  lemma FirstAmpersandAfter(q: string, suffix: string)
    requires '&' !in q && "&" <= suffix
    ensures IndexOf(q + suffix, "&") == Some(|q|)
    ensures (q + suffix)[..|q|] == q
  {
    var s := q + suffix;
    forall j | 0 <= j < |q| ensures !("&" <= s[j..]) {
      assert s[j] == q[j] && q[j] in q;
    }
    assert s[|q|..] == suffix;
    IndexOfAt(s, "&", |q|);
  }

  /** Only a missing or empty URL gets the fall-back. */
  lemma ProxyFallbackOnlyWhenEmpty(url: Option<string>)
    ensures ProxyImageUrl(url) == FallbackImageUrl <==> url.None? || url.value == ""
  {
    if url.Some? && url.value != "" {
      var r := ProxyImageUrl(url);
      assert r[8] == ProxyPrefix[8] == 'i';
      assert FallbackImageUrl[8] == 'u';
    }
  }

  // ---------------------------------------------------------------------
  // load_data

  /** The eight source files, in the order `load_data` reads them. */
  datatype Source = Gandhinagar | Jodhpur | Guwahati | Roorkee | Bhu | Hyderabad | Indore | Delhi

  const LoadOrder: seq<Source> := [Gandhinagar, Jodhpur, Guwahati, Roorkee, Bhu, Hyderabad, Indore, Delhi]

  /** The college label each source file's records get. */
  function Label(src: Source): string {
    match src
    case Gandhinagar => "IIT Gandhinagar"
    case Jodhpur => "IIT jodhpur"
    case Guwahati => "IIT Guwahati"
    case Roorkee => "IIT Roorkee"
    case Bhu => "IIT BHU (Varanasi)"
    case Hyderabad => "IIT Hyderabad"
    case Indore => "IIT Indore"
    case Delhi => "IIT delhi"
  }

  const FacultyMarker: string := "/faculty/"

  /** Where `re.search(r'/faculty/([^/]+)', url)` can match: `/faculty/`
      followed by at least one character other than `/`. */
  predicate FacultyMatchAt(url: string, i: nat) {
    i + |FacultyMarker| < |url| && FacultyMarker <= url[i..] && url[i + |FacultyMarker|] != '/'
  }

  /** The leftmost match at or after `from`. */
  function FirstFacultyMatch(url: string, from: nat): (r: Option<nat>)
    requires from <= |url|
    ensures r.Some? ==> from <= r.value < |url| && FacultyMatchAt(url, r.value)
    ensures r.Some? ==> forall j :: from <= j < r.value ==> !FacultyMatchAt(url, j)
    ensures r.None? ==> forall j :: from <= j ==> !FacultyMatchAt(url, j)
    decreases |url| - from
  {
    if FacultyMatchAt(url, from) then Some(from)
    else if from == |url| then None
    else FirstFacultyMatch(url, from + 1)
  }

  /** The length of the run of characters other than `/` that `s` starts with. */
  function SegmentLength(s: string): (n: nat)
    ensures n <= |s|
    ensures forall i :: 0 <= i < n ==> s[i] != '/'
    ensures n < |s| ==> s[n] == '/'
  {
    if s == [] || s[0] == '/' then 0 else 1 + SegmentLength(s[1..])
  }

  /** The captured group: the whole run of characters other than `/` after
      the leftmost `/faculty/` that is followed by one. */
  function FacultySegment(url: string): (r: Option<string>)
    ensures r.Some? ==> r.value != "" && '/' !in r.value
    ensures r.None? <==> forall j :: 0 <= j ==> !FacultyMatchAt(url, j)
  {
    match FirstFacultyMatch(url, 0)
    case Some(i) =>
      var rest := url[i + |FacultyMarker|..];
      var n := SegmentLength(rest);
      assert rest[..n][0] == rest[0];
      Some(rest[..n])
    case None => None
  }

  /** The Gandhinagar department: the captured segment upper-cased, else
      "UNKNOWN". */
  function GandhinagarDepartment(profileUrl: string): string {
    match FacultySegment(profileUrl)
    case Some(seg) => Upper(seg)
    case None => "UNKNOWN"
  }

  /** What the loop over one source file does to one record. */
  function NormaliseRow(src: Source, p: Row): (r: Row)
    ensures r.Keys == p.Keys + WrittenKeys(src)
    ensures r["college_name"] == Label(src) && "department" in r
  {
    match src
    case Gandhinagar =>
      p["department" := GandhinagarDepartment(GetOr(p, "profile_url", ""))]["college_name" := Label(src)]
    case Guwahati =>
      p["department" := Strip(GetOr(p, "department", "UNKNOWN"))]["college_name" := Label(src)]
    case Roorkee =>
      p["department" := Strip(GetOr(p, "department", "UNKNOWN"))]
       ["profile_url" := ReplaceAll(GetOr(p, "profile_url", "#"), " ", "%20")]
       ["college_name" := Label(src)]
    case _ =>
      p["department" := Strip(GetOr(p, "department", "UNKNOWN"))]
       ["profile_url" := GetOr(p, "profile_url", "#")]
       ["college_name" := Label(src)]
  }

  /** The keys a source's loop may write. */
  function WrittenKeys(src: Source): set<string> {
    if src == Gandhinagar || src == Guwahati then {"department", "college_name"}
    else {"department", "college_name", "profile_url"}
  }

  /** Every normalised record carries its file's label and a department; the
      keys the loop does not write are untouched. */
  lemma NormaliseRowKeys(src: Source, p: Row)
    ensures var r := NormaliseRow(src, p);
      r.Keys == p.Keys + WrittenKeys(src) &&
      r["college_name"] == Label(src) &&
      (forall k :: k in p && k !in WrittenKeys(src) ==> r[k] == p[k])
  {
  }

  /** The department of a non-Gandhinagar record is stripped; a present
      `profile_url` is kept (Roorkee aside), an absent one becomes "#". */
  lemma NormaliseRowValues(src: Source, p: Row)
    requires src != Gandhinagar
    ensures var r := NormaliseRow(src, p);
      var d := r["department"];
      (d != [] ==> d[0] !in Whitespace && d[|d| - 1] !in Whitespace) &&
      ("department" !in p ==> d == "UNKNOWN") &&
      (src != Guwahati && src != Roorkee ==> r["profile_url"] == GetOr(p, "profile_url", "#"))
  {
    if "department" !in p {
      StripUnpadded("UNKNOWN");
    }
  }

  /** A Gandhinagar department is "UNKNOWN" or a non-empty segment without
      `/` and without lower-case ASCII letters. */
  lemma GandhinagarDepartmentShape(profileUrl: string)
    ensures var d := GandhinagarDepartment(profileUrl);
      d == "UNKNOWN" ||
      (d != "" && '/' !in d && forall i :: 0 <= i < |d| ==> !('a' <= d[i] <= 'z'))
  {
    match FacultySegment(profileUrl)
    case Some(seg) =>
      var d := Upper(seg);
      forall i | 0 <= i < |d| ensures d[i] != '/' {
        assert seg[i] in seg;
      }
    case None =>
  }

  /** Roorkee profile URLs hold no space once normalised. */
  lemma RoorkeeUrlHasNoSpace(p: Row)
    ensures ' ' !in NormaliseRow(Roorkee, p)["profile_url"]
  {
    var u := ReplaceAll(GetOr(p, "profile_url", "#"), " ", "%20");
    ReplaceAllRemovesPattern(GetOr(p, "profile_url", "#"), " ", "%20");
    if ' ' in u {
      var i :| 0 <= i < |u| && u[i] == ' ';
      assert " " <= u[i..];
      InfixAt(" ", u, i);
    }
  }

  /** The loop over one source file, rewriting its records in place. */
  method NormaliseFile(src: Source, rows: array<Row>)
    modifies rows
    ensures forall i :: 0 <= i < rows.Length ==> rows[i] == NormaliseRow(src, old(rows[i]))
  {
    ghost var before := rows[..];
    for i := 0 to rows.Length
      invariant forall j :: 0 <= j < i ==> rows[j] == NormaliseRow(src, before[j])
      invariant forall j :: i <= j < rows.Length ==> rows[j] == before[j]
    {
      rows[i] := NormaliseRow(src, rows[i]);
    }
  }

  function NormaliseAll(src: Source, rows: seq<Row>): (r: seq<Row>)
    ensures |r| == |rows|
    ensures forall i :: 0 <= i < |rows| ==> r[i] == NormaliseRow(src, rows[i])
  {
    seq(|rows|, i requires 0 <= i < |rows| => NormaliseRow(src, rows[i]))
  }

  /** `all_data` after the first `k` source files. */
  function LoadedPrefix(files: seq<seq<Row>>, k: nat): seq<Row>
    requires k <= |files| <= |LoadOrder|
  {
    if k == 0 then [] else LoadedPrefix(files, k - 1) + NormaliseAll(LoadOrder[k - 1], files[k - 1])
  }

  /** `load_data()`: `files` are the eight parsed source files in load order. */
  method LoadData(files: seq<seq<Row>>) returns (allData: seq<Row>)
    requires |files| == |LoadOrder|
    ensures allData == LoadedPrefix(files, |files|)
  {
    allData := [];
    for k := 0 to |files|
      invariant allData == LoadedPrefix(files, k)
    {
      var rows := new Row[|files[k]|];
      forall i | 0 <= i < |files[k]| {
        rows[i] := files[k][i];
      }
      NormaliseFile(LoadOrder[k], rows);
      assert rows[..] == NormaliseAll(LoadOrder[k], files[k]);
      allData := allData + rows[..];
    }
  }

  /** Every loaded record has a department and one of the eight labels. */
  lemma {:induction false} LoadedRowsLabelled(files: seq<seq<Row>>, k: nat)
    requires k <= |files| <= |LoadOrder|
    ensures forall p :: p in LoadedPrefix(files, k) ==>
      "department" in p && "college_name" in p && exists s :: s in LoadOrder[..k] && p["college_name"] == Label(s)
  {
    if k > 0 {
      LoadedRowsLabelled(files, k - 1);
      var src := LoadOrder[k - 1];
      var added := NormaliseAll(src, files[k - 1]);
      forall p | p in LoadedPrefix(files, k)
        ensures "department" in p && "college_name" in p && exists s :: s in LoadOrder[..k] && p["college_name"] == Label(s)
      {
        assert src in LoadOrder[..k];
        if p in added {
          var i :| 0 <= i < |added| && added[i] == p;
          NormaliseRowKeys(src, files[k - 1][i]);
        } else {
          assert p in LoadedPrefix(files, k - 1);
          var s :| s in LoadOrder[..k - 1] && p["college_name"] == Label(s);
          assert s in LoadOrder[..k];
        }
      }
    }
  }

  // ---------------------------------------------------------------------
  // Interest splitting

  /** The fragments kept by the comprehension: those not blank after
      `strip()`, each stripped of the characters in `trim`. */
  function KeepFragments(parts: seq<string>, trim: set<char>): seq<string> {
    if parts == [] then []
    else
      var rest := KeepFragments(parts[1..], trim);
      if Strip(parts[0]) == "" then rest else [StripSet(parts[0], trim)] + rest
  }

  /** `[s.strip(trim) for s in re.split(delims, raw) if s.strip()]`. The
      delimiter class and the strip set are parameters. */
  function SplitInterests(raw: string, delims: set<char>, trim: set<char>): seq<string> {
    KeepFragments(SplitOnClass(raw, delims), trim)
  }

  lemma {:induction false} KeepFragmentsAppend(a: seq<string>, b: seq<string>, trim: set<char>)
    ensures KeepFragments(a + b, trim) == KeepFragments(a, trim) + KeepFragments(b, trim)
  {
    if a != [] {
      assert (a + b)[1..] == a[1..] + b;
      KeepFragmentsAppend(a[1..], b, trim);
    } else {
      assert a + b == b;
    }
  }

  lemma {:induction false} SplitOnClassAtDelimiter(a: string, d: char, b: string, delims: set<char>)
    requires d in delims
    ensures SplitOnClass(a + [d] + b, delims) == SplitOnClass(a, delims) + SplitOnClass(b, delims)
  {
    var s := a + [d] + b;
    if a == [] {
      assert s == [d] + b && s[1..] == b;
    } else {
      assert s[0] == a[0] && s[1..] == a[1..] + [d] + b;
      SplitOnClassAtDelimiter(a[1..], d, b, delims);
    }
  }

  /** Fragments keep the input order: text before a delimiter gives its
      fragments first, text after it the rest. */
  lemma SplitInterestsAtDelimiter(a: string, d: char, b: string, delims: set<char>, trim: set<char>)
    requires d in delims
    ensures SplitInterests(a + [d] + b, delims, trim) == SplitInterests(a, delims, trim) + SplitInterests(b, delims, trim)
  {
    SplitOnClassAtDelimiter(a, d, b, delims);
    KeepFragmentsAppend(SplitOnClass(a, delims), SplitOnClass(b, delims), trim);
  }

  lemma {:induction false} KeepFragmentsClean(parts: seq<string>, delims: set<char>, trim: set<char>)
    requires trim <= delims + Whitespace
    requires forall k :: 0 <= k < |parts| ==> forall c :: c in parts[k] ==> c !in delims
    ensures forall f :: f in KeepFragments(parts, trim) ==>
      f != "" && f[0] !in trim && f[|f| - 1] !in trim && forall c :: c in f ==> c !in delims
  {
    if parts != [] {
      KeepFragmentsClean(parts[1..], delims, trim);
      var s := parts[0];
      if Strip(s) != "" {
        StripNonBlank(s);
        var j :| 0 <= j < |s| && s[j] !in Whitespace;
        assert s[j] in s;
        StripSetKeeps(s, trim, j);
        StripSetSlice(s, trim);
      }
    }
  }

  /** A string that is not blank after `strip()` holds a non-space. */
  lemma StripNonBlank(s: string)
    ensures forall c :: c in Strip(s) ==> c in s
    ensures Strip(s) != "" ==> exists j :: 0 <= j < |s| && s[j] !in Whitespace
  {
    StripSetSlice(s, Whitespace);
    if Strip(s) != "" {
      var c := Strip(s)[0];
      assert c in s;
    }
  }

  /** When every character stripped from fragments is a delimiter or a space,
      every fragment is non-empty, has no delimiter inside and none of the
      stripped characters at either end. */
  lemma SplitInterestsClean(raw: string, delims: set<char>, trim: set<char>)
    requires trim <= delims + Whitespace
    ensures forall f :: f in SplitInterests(raw, delims, trim) ==>
      f != "" && f[0] !in trim && f[|f| - 1] !in trim && forall c :: c in f ==> c !in delims
  {
    KeepFragmentsClean(SplitOnClass(raw, delims), delims, trim);
  }

  // ---------------------------------------------------------------------
  // The search filter and its cap

  /** The sidebar's selections: the department (default "All") and the name,
      interest and college queries (a missing query is ""). */
  datatype Query = Query(dept: string, name: string, interest: string, college: string)

  const NoQuery: Query := Query("All", "", "", "")

  /** The query, trimmed and lower-cased, occurs in the field, trimmed and
      lower-cased. */
  predicate Contains(query: string, field: string) {
    IsInfix(Lower(Strip(query)), Lower(Strip(field)))
  }

  /** The condition of the `filtered` comprehension. */
  predicate Keep(q: Query, p: Row) {
    (q.dept == "All" || Lower(Strip(GetOr(p, "department", ""))) == Lower(Strip(q.dept))) &&
    Contains(q.name, GetOr(p, "name", "")) &&
    Contains(q.interest, GetOr(p, "research_interests", "")) &&
    Contains(q.college, GetOr(p, "college_name", ""))
  }

  /** The `filtered` comprehension. */
  function FilterRows(q: Query, rows: seq<Row>): (r: seq<Row>)
    ensures |r| <= |rows|
    ensures forall p :: p in r <==> p in rows && Keep(q, p)
  {
    if rows == [] then []
    else
      var init := rows[..|rows| - 1];
      var last := rows[|rows| - 1];
      assert rows == init + [last];
      var r := FilterRows(q, init);
      if Keep(q, last) then r + [last] else r
  }

  /** The filter keeps input order: the rows kept from a concatenation are
      those kept from the first part, then those kept from the second. */
  lemma {:induction false} FilterRowsAppend(q: Query, a: seq<Row>, b: seq<Row>)
    ensures FilterRows(q, a + b) == FilterRows(q, a) + FilterRows(q, b)
    decreases |b|
  {
    if b == [] {
      assert a + b == a;
    } else {
      var init := b[..|b| - 1];
      assert (a + b)[..|a + b| - 1] == a + init;
      assert (a + b)[|a + b| - 1] == b[|b| - 1];
      FilterRowsAppend(q, a, init);
    }
  }

  /** An empty name, interest and college query with department "All"
      matches every record. */
  lemma NoQueryKeepsAll(rows: seq<Row>)
    ensures FilterRows(NoQuery, rows) == rows
  {
    if rows != [] {
      var init := rows[..|rows| - 1];
      var p := rows[|rows| - 1];
      assert Strip("") == "";
      assert Contains("", GetOr(p, "name", ""));
      assert Contains("", GetOr(p, "research_interests", ""));
      assert Contains("", GetOr(p, "college_name", ""));
      NoQueryKeepsAll(init);
      assert rows == init + [p];
    }
  }

  const MaxProfsToShow: nat := 200

  /** `filtered[:MAX_PROFS_TO_SHOW]`. */
  function Shown(q: Query, rows: seq<Row>): seq<Row> {
    var f := FilterRows(q, rows);
    if |f| <= MaxProfsToShow then f else f[..MaxProfsToShow]
  }

  /** The shown records are the first at most 200 kept ones, in input order;
      when 200 or fewer are kept, all of them are shown. */
  lemma ShownIsCappedPrefix(q: Query, rows: seq<Row>)
    ensures |Shown(q, rows)| <= MaxProfsToShow
    ensures Shown(q, rows) <= FilterRows(q, rows)
    ensures |FilterRows(q, rows)| <= MaxProfsToShow ==> Shown(q, rows) == FilterRows(q, rows)
    ensures |Shown(q, rows)| == if |FilterRows(q, rows)| < MaxProfsToShow then |FilterRows(q, rows)| else MaxProfsToShow
    ensures forall p :: p in Shown(q, rows) ==> p in rows && Keep(q, p)
  {
  }

  // ---------------------------------------------------------------------
  // Mail-body trimming

  const BodyLimit: nat := 1800
  const TrimMarker: string := "\n\n[Trimmed for URL]"

  /** `safe_body`: the body as is below 1800 characters, otherwise its first
      1800 characters and the trim marker. */
  function SafeBody(email: string): string {
    if |email| < BodyLimit then email else email[..BodyLimit] + TrimMarker
  }

  /** The body grows by at most the marker, keeps its first 1800 characters,
      and is marked exactly when it reached 1800 characters. */
  lemma SafeBodyBounded(email: string)
    ensures |SafeBody(email)| <= BodyLimit + |TrimMarker|
    ensures |email| < BodyLimit ==> SafeBody(email) == email
    ensures |email| >= BodyLimit ==>
      SafeBody(email)[..BodyLimit] == email[..BodyLimit] && SafeBody(email)[BodyLimit..] == TrimMarker
  {
  }

  /** Trimming changes nothing exactly when the body is short, or is already
      1800 characters followed by the marker. */
  lemma SafeBodyUnchanged(email: string)
    ensures SafeBody(email) == email <==>
      |email| < BodyLimit || email[BodyLimit..] == TrimMarker
  {
    if |email| >= BodyLimit {
      var t := email[..BodyLimit] + TrimMarker;
      if email[BodyLimit..] == TrimMarker {
        assert email == email[..BodyLimit] + email[BodyLimit..];
      }
      if t == email {
        assert email[BodyLimit..] == t[BodyLimit..];
      }
    }
  }

  /** Trimming twice is trimming once. */
  lemma SafeBodyIdempotent(email: string)
    ensures SafeBody(SafeBody(email)) == SafeBody(email)
  {
    SafeBodyUnchanged(SafeBody(email));
  }

  /** A body of exactly 1800 characters still gets the marker. */
  lemma SafeBodyAtLimit(email: string)
    requires |email| == BodyLimit
    ensures SafeBody(email) == email + TrimMarker
  {
    assert email[..BodyLimit] == email;
  }

  /** The body as it goes into the `mailto:` and Gmail links
      (`urllib.parse.quote` keeps `/`). */
  function EncodedBody(email: string): string {
    Quote(SafeBody(email), {'/'})
  }

  /** The encoded body holds none of `&`, `#`, `=` and `?`, so it does not
      break the link's query. */
  lemma EncodedBodyUnbroken(email: string)
    ensures var e := EncodedBody(email);
      '&' !in e && '#' !in e && '=' !in e && '?' !in e
  {
    var e := EncodedBody(email);
    assert forall c :: c in e ==> c == '%' || Unreserved(c) || c == '/';
  }

  /** The encoded body decodes back to the trimmed body. */
  lemma EncodedBodyDecodes(email: string)
    ensures Unquote(EncodedBody(email)) == SafeBody(email)
  {
    UnquoteQuote(SafeBody(email), {'/'});
  }

  // ---------------------------------------------------------------------
  // The selected professor

  /** Every record offered for selection has a name. */
  predicate AllNamed(rows: seq<Row>) {
    forall i :: 0 <= i < |rows| ==> "name" in rows[i]
  }

  /** The options of the professor selector, `[prof["name"] for prof in
      filtered]`; `None` when indexing a record without a name raises
      `KeyError`. */
  function NameOptions(rows: seq<Row>): (r: Option<seq<string>>)
    ensures r.Some? <==> AllNamed(rows)
    ensures r.Some? ==> |r.value| == |rows| && forall i :: 0 <= i < |rows| ==> r.value[i] == rows[i]["name"]
  {
    if AllNamed(rows) then Some(seq(|rows|, i requires 0 <= i < |rows| => rows[i]["name"])) else None
  }

  /** One filtered record without a name is enough to make the selector
      raise, wherever it stands. */
  lemma UnnamedRecordRaises(rows: seq<Row>, k: nat)
    requires k < |rows| && "name" !in rows[k]
    ensures NameOptions(rows).None?
    ensures forall more: seq<Row> :: NameOptions(rows + more).None? && NameOptions(more + rows).None?
  {
    forall more: seq<Row> ensures NameOptions(rows + more).None? && NameOptions(more + rows).None? {
      assert (rows + more)[k] == rows[k];
      assert (more + rows)[|more| + k] == rows[k];
    }
  }

  /** The position of the first record with the given name. */
  function NameIndex(rows: seq<Row>, name: string): (r: Option<nat>)
    requires AllNamed(rows)
    ensures r.Some? ==> r.value < |rows| && rows[r.value]["name"] == name
    ensures r.Some? ==> forall j :: 0 <= j < r.value ==> rows[j]["name"] != name
    ensures r.None? <==> forall j :: 0 <= j < |rows| ==> rows[j]["name"] != name
  {
    if rows == [] then None
    else if rows[0]["name"] == name then Some(0)
    else match NameIndex(rows[1..], name)
      case None => None
      case Some(i) => Some(i + 1)
  }

  /** `next((p for p in filtered if p["name"] == name), None)`; it runs only
      after the options were built, so every record has a name. */
  function SelectedProfessor(rows: seq<Row>, name: string): Option<Row>
    requires AllNamed(rows)
  {
    match NameIndex(rows, name)
    case Some(i) => Some(rows[i])
    case None => None
  }

  /** A name picked from the selector always finds a record: the first one
      carrying that name. */
  lemma SelectionFromOptions(rows: seq<Row>, k: nat)
    requires NameOptions(rows).Some? && k < |rows|
    ensures var sel := SelectedProfessor(rows, NameOptions(rows).value[k]);
      sel.Some? && sel.value["name"] == rows[k]["name"] &&
      exists i :: 0 <= i <= k && sel.value == rows[i] &&
        forall j :: 0 <= j < i ==> rows[j]["name"] != rows[k]["name"]
  {
    var i := NameIndex(rows, rows[k]["name"]).value;
    assert i <= k;
  }

  // ---------------------------------------------------------------------
  // Grouping by department

  predicate AllHaveDepartment(rows: seq<Row>) {
    forall i :: 0 <= i < |rows| ==> "department" in rows[i]
  }

  /** The `grouped` dictionary after the first `|rows|` appends. */
  function Grouped(rows: seq<Row>): map<string, seq<Row>>
    requires AllHaveDepartment(rows)
  {
    if rows == [] then map[]
    else
      var g := Grouped(rows[..|rows| - 1]);
      var p := rows[|rows| - 1];
      var d := p["department"];
      g[d := (if d in g then g[d] else []) + [p]]
  }

  /** The records of department `d`, in input order. */
  function RowsOf(rows: seq<Row>, d: string): (r: seq<Row>)
    requires AllHaveDepartment(rows)
    ensures forall p :: p in r <==> p in rows && p["department"] == d
  {
    if rows == [] then []
    else
      var init := rows[..|rows| - 1];
      var p := rows[|rows| - 1];
      assert rows == init + [p];
      if p["department"] == d then RowsOf(init, d) + [p] else RowsOf(init, d)
  }

  function Departments(rows: seq<Row>): (r: seq<string>)
    requires AllHaveDepartment(rows)
    ensures |r| == |rows| && forall i :: 0 <= i < |rows| ==> r[i] == rows[i]["department"]
  {
    seq(|rows|, i requires 0 <= i < |rows| => rows[i]["department"])
  }

  /** The groups are keyed by exactly the departments present, and each group
      holds that department's records in filter order. */
  lemma {:induction false} GroupedByDepartment(rows: seq<Row>)
    requires AllHaveDepartment(rows)
    ensures forall d :: d in Grouped(rows) <==> d in Departments(rows)
    ensures forall d :: d in Grouped(rows) ==> Grouped(rows)[d] == RowsOf(rows, d)
  {
    if rows != [] {
      var init := rows[..|rows| - 1];
      GroupedByDepartment(init);
      assert Departments(rows) == Departments(init) + [rows[|rows| - 1]["department"]];
      forall d | d in Grouped(init) ensures Grouped(init)[d] == RowsOf(init, d) {}
      forall d | d !in Grouped(init) ensures RowsOf(init, d) == [] {
        RowsOfAbsent(init, d);
      }
    }
  }

  lemma {:induction false} RowsOfAbsent(rows: seq<Row>, d: string)
    requires AllHaveDepartment(rows) && d !in Departments(rows)
    ensures RowsOf(rows, d) == []
  {
    if rows != [] {
      var init := rows[..|rows| - 1];
      forall i | 0 <= i < |init| ensures Departments(init)[i] != d {
        assert Departments(init)[i] == Departments(rows)[i];
      }
      assert Departments(rows)[|rows| - 1] != d;
      RowsOfAbsent(init, d);
    }
  }

  /** The grouping loop. */
  method GroupByDepartment(filtered: seq<Row>) returns (grouped: map<string, seq<Row>>)
    requires AllHaveDepartment(filtered)
    ensures grouped == Grouped(filtered)
  {
    grouped := map[];
    for i := 0 to |filtered|
      invariant grouped == Grouped(filtered[..i])
    {
      var p := filtered[i];
      assert filtered[..i + 1][..i] == filtered[..i];
      var d := p["department"];
      var members := if d in grouped then grouped[d] else [];
      grouped := grouped[d := members + [p]];
    }
    assert filtered[..|filtered|] == filtered;
  }

  /** The order the groups are shown in: `sorted(grouped.items())`. The keys
      are distinct, so the items are ordered by department alone. */
  function DisplayOrder(rows: seq<Row>): seq<string>
    requires AllHaveDepartment(rows)
  {
    Sorting.SortedSet(Departments(rows))
  }

  /** Each group is shown once, in strictly ascending department order. */
  lemma DisplayOrderSorted(rows: seq<Row>)
    requires AllHaveDepartment(rows)
    ensures Sorting.StrictlySorted(DisplayOrder(rows))
    ensures forall d :: d in DisplayOrder(rows) <==> d in Grouped(rows)
  {
    Sorting.SortedSetFacts(Departments(rows));
    GroupedByDepartment(rows);
  }

  // ---------------------------------------------------------------------
  // Selector options

  /** `p.get("department", "")` of every record. */
  function DepartmentValues(rows: seq<Row>): (r: seq<string>)
    ensures |r| == |rows| && forall i :: 0 <= i < |rows| ==> r[i] == GetOr(rows[i], "department", "")
  {
    seq(|rows|, i requires 0 <= i < |rows| => GetOr(rows[i], "department", ""))
  }

  /** The non-empty ones among `values`, in order. */
  function NonEmpty(values: seq<string>): (r: seq<string>)
    ensures forall d :: d in r <==> d != "" && d in values
  {
    if values == [] then []
    else
      var init := values[..|values| - 1];
      var d := values[|values| - 1];
      assert values == init + [d];
      if d == "" then NonEmpty(init) else NonEmpty(init) + [d]
  }

  /** The department selector: "All", then the distinct non-empty
      departments in ascending order. */
  function DepartmentOptions(rows: seq<Row>): seq<string> {
    ["All"] + Sorting.SortedSet(NonEmpty(DepartmentValues(rows)))
  }

  /** The selector starts with "All" and then offers each non-empty
      department once, in strictly ascending order. */
  lemma DepartmentOptionsFacts(rows: seq<Row>)
    ensures var o := DepartmentOptions(rows);
      o[0] == "All" && Sorting.StrictlySorted(o[1..]) &&
      forall d :: d in o[1..] <==> d != "" && d in DepartmentValues(rows)
  {
    Sorting.SortedSetFacts(NonEmpty(DepartmentValues(rows)));
    assert DepartmentOptions(rows)[1..] == Sorting.SortedSet(NonEmpty(DepartmentValues(rows)));
  }
}
