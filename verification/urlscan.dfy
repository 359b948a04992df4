/** Scanning free text for URLs with the pattern `https?://[^<stops>]+`, as
    `re.search` (the leftmost match) and `re.findall` (every match, left to
    right, each scan resuming after the previous match). The set of stop
    characters is a parameter: the two callers use different classes. */
module UrlScan {
  import opened Wrappers

  /** A match starts at `i`: "https://" or "http://" followed by at least
      one character that is not a stop. The value is the length of the
      scheme part. */
  function SchemeAt(s: string, i: nat, stops: set<char>): (r: Option<nat>)
    requires i <= |s|
    ensures r.Some? ==> i + r.value < |s| && s[i + r.value] !in stops
    ensures r.Some? ==> (r.value == 8 && "https://" <= s[i..]) || (r.value == 7 && "http://" <= s[i..])
    ensures r.None? ==> !("https://" <= s[i..] && i + 8 < |s| && s[i + 8] !in stops)
    ensures r.None? ==> !("http://" <= s[i..] && i + 7 < |s| && s[i + 7] !in stops)
  {
    if "https://" <= s[i..] && i + 8 < |s| && s[i + 8] !in stops then Some(8)
    else if "http://" <= s[i..] && i + 7 < |s| && s[i + 7] !in stops then Some(7)
    else None
  }

  /** The length of the run of non-stop characters that `s` starts with. */
  function RunLength(s: string, stops: set<char>): (n: nat)
    ensures n <= |s|
    ensures forall j :: 0 <= j < n ==> s[j] !in stops
    ensures n < |s| ==> s[n] in stops
  {
    if s == [] || s[0] in stops then 0 else 1 + RunLength(s[1..], stops)
  }

  /** The length of the match at `i`: the scheme and the longest run of
      non-stop characters after it. */
  function MatchLength(s: string, i: nat, stops: set<char>): (n: nat)
    requires i <= |s| && SchemeAt(s, i, stops).Some?
    ensures i + n <= |s|
  {
    var k := SchemeAt(s, i, stops).value;
    k + RunLength(s[i + k..], stops)
  }

  /** What a match looks like: a scheme, then a non-empty run free of
      stops. */
  predicate IsLink(m: string, stops: set<char>) {
    ("https://" <= m && |m| > 8 && forall j :: 8 <= j < |m| ==> m[j] !in stops) ||
    ("http://" <= m && |m| > 7 && forall j :: 7 <= j < |m| ==> m[j] !in stops)
  }

  /** A link starts with `h` and ends in a character that is not a stop. */
  lemma LinkEnds(m: string, stops: set<char>)
    requires IsLink(m, stops)
    ensures m[0] == 'h' && m[|m| - 1] !in stops
  {
  }

  /** From the scheme's last `/` on, a link holds only that `/` and
      characters that are not stops. */
  lemma LinkCharAfterScheme(m: string, stops: set<char>, j: nat)
    requires IsLink(m, stops) && 6 <= j < |m|
    ensures m[j] == '/' || m[j] !in stops
  {
  }

  /** The match at `i` has the shape of a link and cannot be extended: it
      ends at the end of the text or before a stop. */
  lemma MatchAtShape(s: string, i: nat, stops: set<char>)
    requires i <= |s| && SchemeAt(s, i, stops).Some?
    ensures IsLink(s[i..i + MatchLength(s, i, stops)], stops)
    ensures i + MatchLength(s, i, stops) == |s| || s[i + MatchLength(s, i, stops)] in stops
  {
    var k := SchemeAt(s, i, stops).value;
    var n := MatchLength(s, i, stops);
    var rest := s[i + k..];
    var m := s[i..i + n];
    forall j | k <= j < |m| ensures m[j] !in stops {
      assert m[j] == rest[j - k];
    }
    assert m[..k] == s[i..][..k];
  }

  /** `re.search`: the leftmost match at or after `from`. */
  function Search(s: string, stops: set<char>, from: nat): (r: Option<nat>)
    requires from <= |s|
    ensures r.Some? ==> from <= r.value <= |s| && SchemeAt(s, r.value, stops).Some?
    ensures r.Some? ==> forall j :: from <= j < r.value ==> SchemeAt(s, j, stops).None?
    ensures r.None? ==> forall j :: from <= j <= |s| ==> SchemeAt(s, j, stops).None?
    decreases |s| - from
  {
    if SchemeAt(s, from, stops).Some? then Some(from)
    else if from == |s| then None
    else Search(s, stops, from + 1)
  }

  /** The text of the leftmost match, `re.search(...).group(0)`. */
  function FirstLink(s: string, stops: set<char>): (r: Option<string>)
    ensures r.Some? ==> IsLink(r.value, stops)
    ensures r.None? <==> forall j :: 0 <= j <= |s| ==> SchemeAt(s, j, stops).None?
  {
    match Search(s, stops, 0)
    case Some(i) =>
      MatchAtShape(s, i, stops);
      Some(s[i..i + MatchLength(s, i, stops)])
    case None => None
  }

  /** `re.findall` from position `pos` on. */
  function FindAllFrom(s: string, stops: set<char>, pos: nat): (r: seq<string>)
    requires pos <= |s|
    ensures forall k :: 0 <= k < |r| ==> IsLink(r[k], stops)
    decreases |s| - pos
  {
    if pos == |s| then []
    else match SchemeAt(s, pos, stops)
      case Some(_) =>
        var n := MatchLength(s, pos, stops);
        MatchAtShape(s, pos, stops);
        [s[pos..pos + n]] + FindAllFrom(s, stops, pos + n)
      case None => FindAllFrom(s, stops, pos + 1)
  }

  function FindAll(s: string, stops: set<char>): seq<string> {
    FindAllFrom(s, stops, 0)
  }

  /** `m` occurs in `s` at `i` and is followed by the end of the text or by
      a stop. */
  predicate MaximalAt(s: string, m: string, i: nat, stops: set<char>) {
    i + |m| <= |s| && s[i..i + |m|] == m && (i + |m| == |s| || s[i + |m|] in stops)
  }

  /** Every match found is a maximal run of the text: it occurs there and is
      followed by the end of the text or by a stop. */
  lemma {:induction false} FindAllMaximal(s: string, stops: set<char>, pos: nat)
    requires pos <= |s|
    ensures forall m :: m in FindAllFrom(s, stops, pos) ==>
      exists i :: pos <= i && MaximalAt(s, m, i, stops)
    decreases |s| - pos
  {
    if pos < |s| {
      match SchemeAt(s, pos, stops)
      case Some(_) =>
        var n := MatchLength(s, pos, stops);
        MatchAtShape(s, pos, stops);
        FindAllMaximal(s, stops, pos + n);
        assert MaximalAt(s, s[pos..pos + n], pos, stops);
      case None =>
        FindAllMaximal(s, stops, pos + 1);
    }
  }

  /** `findall` is repeated `search`: when `search` finds a match at `i`,
      `findall` reports that match first, then what the scan finds from the
      end of that match on. */
  lemma FindAllStartsWithSearch(s: string, stops: set<char>, pos: nat, i: nat)
    requires pos <= |s| && Search(s, stops, pos) == Some(i)
    ensures FindAllFrom(s, stops, pos) ==
      [s[i..i + MatchLength(s, i, stops)]] + FindAllFrom(s, stops, i + MatchLength(s, i, stops))
  {
    assert forall j :: pos <= j < i ==> NoMatchAt(s, stops, j);
    FindAllSkips(s, stops, pos, i);
    FindAllAtMatch(s, stops, i);
  }

  /** When `search` finds nothing, neither does `findall`. */
  lemma FindAllEmptyWithoutSearch(s: string, stops: set<char>, pos: nat)
    requires pos <= |s| && Search(s, stops, pos).None?
    ensures FindAllFrom(s, stops, pos) == []
  {
    assert forall j :: pos <= j < |s| ==> NoMatchAt(s, stops, j);
    FindAllSkips(s, stops, pos, |s|);
  }

  /** No match starts at `j`. */
  predicate NoMatchAt(s: string, stops: set<char>, j: nat)
    requires j <= |s|
  {
    SchemeAt(s, j, stops).None?
  }

  /** Positions where no match starts contribute nothing. */
  lemma {:induction false} FindAllSkips(s: string, stops: set<char>, pos: nat, i: nat)
    requires pos <= i <= |s|
    requires forall j {:trigger NoMatchAt(s, stops, j)} :: pos <= j < i ==> NoMatchAt(s, stops, j)
    ensures FindAllFrom(s, stops, pos) == FindAllFrom(s, stops, i)
    decreases i - pos
  {
    if pos < i {
      assert FindAllFrom(s, stops, pos) == FindAllFrom(s, stops, pos + 1) by {
        assert NoMatchAt(s, stops, pos);
        FindAllNoMatch(s, stops, pos);
      }
      assert FindAllFrom(s, stops, pos + 1) == FindAllFrom(s, stops, i) by {
        FindAllSkips(s, stops, pos + 1, i);
      }
    }
  }

  /** Where no match starts, `findall` moves on by one character. */
  lemma FindAllNoMatch(s: string, stops: set<char>, pos: nat)
    requires pos < |s| && SchemeAt(s, pos, stops).None?
    ensures FindAllFrom(s, stops, pos) == FindAllFrom(s, stops, pos + 1)
  {
  }

  /** At a match, `findall` reports it and resumes after it. */
  lemma FindAllAtMatch(s: string, stops: set<char>, i: nat)
    requires i <= |s| && SchemeAt(s, i, stops).Some?
    ensures var n := MatchLength(s, i, stops);
      FindAllFrom(s, stops, i) == [s[i..i + n]] + FindAllFrom(s, stops, i + n)
  {
  }
}
