/** The search-driven discovery of faculty pages: the links taken from the
    search results, the URLs pulled out of the model's reply and cleaned,
    the one-entry result map, and the merge of that map into the JSON file
    that accumulates results. */
module Serp {
  import opened Wrappers
  import opened Json
  import opened Strings
  import opened UrlScan
  import Sorting

  // ---------------------------------------------------------------------
  // get_search_results

  /** One organic search result: a JSON object. */
  type SearchResult = map<string, Json>

  /** The `link` of every result that has one, in order. */
  function LinksOf(results: seq<SearchResult>): (r: seq<Json>)
    ensures |r| <= |results|
  {
    if results == [] then []
    else
      var init := results[..|results| - 1];
      var res := results[|results| - 1];
      if "link" in res then LinksOf(init) + [res["link"]] else LinksOf(init)
  }

  /** The loop of `get_search_results` over the `organic_results` list (an
      absent list is empty). */
  method GetSearchResults(organic: seq<SearchResult>) returns (links: seq<Json>)
    ensures links == LinksOf(organic)
  {
    links := [];
    for i := 0 to |organic|
      invariant links == LinksOf(organic[..i])
    {
      assert organic[..i + 1][..i] == organic[..i];
      if "link" in organic[i] {
        links := links + [organic[i]["link"]];
      }
    }
    assert organic[..|organic|] == organic;
  }

  /** The links keep the order of the results: those of a concatenation are
      the links of the first part, then those of the second. */
  lemma {:induction false} LinksOfAppend(a: seq<SearchResult>, b: seq<SearchResult>)
    ensures LinksOf(a + b) == LinksOf(a) + LinksOf(b)
    decreases |b|
  {
    if b == [] {
      assert a + b == a;
    } else {
      var init := b[..|b| - 1];
      assert (a + b)[..|a + b| - 1] == a + init;
      assert (a + b)[|a + b| - 1] == b[|b| - 1];
      LinksOfAppend(a, init);
    }
  }

  /** The links are exactly the `link` values of the results that have
      one. */
  lemma {:induction false} LinksOfMembers(results: seq<SearchResult>)
    ensures forall x :: x in LinksOf(results) <==>
      exists i :: 0 <= i < |results| && "link" in results[i] && results[i]["link"] == x
  {
    if results != [] {
      var n := |results| - 1;
      var init := results[..n];
      LinksOfMembers(init);
      forall x | x in LinksOf(results)
        ensures exists i :: 0 <= i < |results| && "link" in results[i] && results[i]["link"] == x
      {
        if x in LinksOf(init) {
          var i :| 0 <= i < |init| && "link" in init[i] && init[i]["link"] == x;
          assert results[i] == init[i];
        } else {
          assert "link" in results[n] && results[n]["link"] == x;
        }
      }
      forall x | exists i :: 0 <= i < |results| && "link" in results[i] && results[i]["link"] == x
        ensures x in LinksOf(results)
      {
        var i :| 0 <= i < |results| && "link" in results[i] && results[i]["link"] == x;
        if i < n {
          assert init[i] == results[i];
        }
      }
    }
  }

  // ---------------------------------------------------------------------
  // extract_faculty_structure

  /** The class the URL pattern stops at: whitespace, `)`, `]`, `"`, `'`,
      `}`, `<` and `>`. */
  const LinkStops: set<char> := Whitespace + {')', ']', '"', '\'', '}', '<', '>'}

  /** One found link, trimmed and stripped of trailing `.` and `,`. */
  function CleanLink(link: string): string {
    RStripSet(Strip(link), {'.', ','})
  }

  /** The cleaned links: `sorted(set(...))` of the cleaned matches, which
      holds each cleaned match once, in ascending order. */
  function CleanLinks(links: seq<string>): (r: seq<string>)
    ensures Sorting.StrictlySorted(r)
    ensures forall c :: c in r <==> exists m :: m in links && c == CleanLink(m)
  {
    var cleaned := seq(|links|, i requires 0 <= i < |links| => CleanLink(links[i]));
    Sorting.SortedSetFacts(cleaned);
    forall c ensures c in cleaned <==> exists m :: m in links && c == CleanLink(m) {
      if exists m :: m in links && c == CleanLink(m) {
        var m :| m in links && c == CleanLink(m);
        var i :| 0 <= i < |links| && links[i] == m;
        assert cleaned[i] == c;
      }
    }
    Sorting.SortedSet(cleaned)
  }

  const NotFound: seq<string> := ["Not found"]

  /** The marker cannot be mistaken for a link: a cleaned link starts with
      its scheme. */
  lemma MarkerIsNoLink(m: string)
    requires IsLink(m, LinkStops)
    ensures CleanLink(m) != "Not found"
  {
    CleanLinkKeepsScheme(m);
    assert "http://" <= CleanLink(m) || "https://" <= CleanLink(m);
  }

  /** `extract_faculty_structure(iit_name, ...)` once the model has answered:
      `reply` is the reply text, or `None` when the call timed out or failed.
      The one entry is "Not found" exactly when the call failed or the reply
      holds no URL; otherwise it holds exactly the cleaned `findall`
      matches. */
  function ExtractFacultyStructure(iitName: string, reply: Option<string>): (r: map<string, seq<string>>)
    ensures r.Keys == {iitName}
    ensures r[iitName] != []
    ensures r[iitName] == NotFound <==> reply.None? || FindAll(Strip(reply.value), LinkStops) == []
    ensures reply.Some? && r[iitName] != NotFound ==>
      forall c :: c in r[iitName] <==> exists m :: m in FindAll(Strip(reply.value), LinkStops) && c == CleanLink(m)
  {
    if reply.None? then map[iitName := NotFound]
    else
      var found := FindAll(Strip(reply.value), LinkStops);
      var links := CleanLinks(found);
      assert found != [] ==> found[0] in found && CleanLink(found[0]) in links;
      assert "Not found" !in links by {
        forall m | m in found ensures CleanLink(m) != "Not found" {
          MarkerIsNoLink(m);
        }
      }
      map[iitName := if links == [] then NotFound else links]
  }

  /** A found link starts with `h` and ends in a non-stop, so trimming
      leaves it as it is. */
  lemma LinkIsTrimmed(m: string)
    requires IsLink(m, LinkStops)
    ensures Strip(m) == m
  {
    LinkEnds(m, LinkStops);
    StripUnpadded(m);
  }

  /** Cleaning a found link only drops its trailing dots and commas, and
      never reaches into the scheme. */
  lemma CleanLinkKeepsScheme(m: string)
    requires IsLink(m, LinkStops)
    ensures CleanLink(m) == RStripSet(m, {'.', ','})
    ensures |CleanLink(m)| >= 7 && CleanLink(m) <= m
    ensures "http://" <= m ==> "http://" <= CleanLink(m)
    ensures "https://" <= m ==> "https://" <= CleanLink(m)
  {
    LinkIsTrimmed(m);
    var c := RStripSet(m, {'.', ','});
    RStripSetPrefix(m, {'.', ','});
    var k := if "https://" <= m then 8 else 7;
    assert m[k - 1] == '/';
    assert m[k - 1] !in {'.', ','};
    assert c[..k] == m[..k];
  }

  /** A cleaned link has no whitespace at either end. */
  lemma CleanLinkTrimmed(m: string)
    requires IsLink(m, LinkStops)
    ensures Strip(CleanLink(m)) == CleanLink(m)
  {
    CleanLinkKeepsScheme(m);
    var c := CleanLink(m);
    var j := |c| - 1;
    assert c[0] !in Whitespace by {
      LinkEnds(m, LinkStops);
      assert c[0] == m[0];
    }
    assert c[j] !in Whitespace by {
      assert c[j] == m[j];
      LinkCharAfterScheme(m, LinkStops, j);
    }
    StripUnpadded(c);
  }

  /** A found link holds no whitespace, so cleaning only drops trailing dots
      and commas: the cleaned link keeps its scheme, ends in neither `.` nor
      `,`, and has no whitespace at either end. */
  lemma CleanLinkShape(m: string)
    requires IsLink(m, LinkStops)
    ensures var c := CleanLink(m);
      ("http://" <= c || "https://" <= c) &&
      c[|c| - 1] != '.' && c[|c| - 1] != ',' &&
      Strip(c) == c
  {
    CleanLinkKeepsScheme(m);
    CleanLinkTrimmed(m);
  }

  /** Every link of a result map that is not the "Not found" marker is a
      cleaned link: it starts with a scheme, ends in neither `.` nor `,` and
      is trimmed; the list is strictly ascending. */
  lemma ExtractFacultyStructureClean(iitName: string, reply: Option<string>)
    ensures var v := ExtractFacultyStructure(iitName, reply)[iitName];
      v == NotFound ||
      (Sorting.StrictlySorted(v) &&
       forall c :: c in v ==>
         ("http://" <= c || "https://" <= c) && c[|c| - 1] != '.' && c[|c| - 1] != ',' && Strip(c) == c)
  {
    if reply.Some? {
      var found := FindAll(Strip(reply.value), LinkStops);
      forall c | c in CleanLinks(found)
        ensures ("http://" <= c || "https://" <= c) && c[|c| - 1] != '.' && c[|c| - 1] != ',' && Strip(c) == c
      {
        var m :| m in found && c == CleanLink(m);
        CleanLinkShape(m);
      }
    }
  }

  /** A reply without a URL gives the "Not found" marker, as a failed call
      does. */
  lemma NoUrlNotFound(iitName: string, text: string)
    requires forall j :: 0 <= j <= |Strip(text)| ==> SchemeAt(Strip(text), j, LinkStops).None?
    ensures ExtractFacultyStructure(iitName, Some(text)) == map[iitName := NotFound]
  {
    FindAllEmptyWithoutSearch(Strip(text), LinkStops, 0);
  }

  // ---------------------------------------------------------------------
  // write_partial_json

  /** The JSON file that accumulates the results: `None` while it does not
      exist. */
  class ResultFile {
    var content: Option<Json>

    constructor (initial: Option<Json>)
      ensures content == initial
    {
      content := initial;
    }

    /** `write_partial_json(path, data)`: the existing object (an empty one
        when there is no file) updated with `data`, written back. A file that
        holds something other than an object makes `update` fail; the file
        is then left as it was and `ok` is false. */
    method WritePartialJson(data: map<string, Json>) returns (ok: bool)
      modifies this
      ensures ok <==> old(content).None? || old(content).value.Obj?
      ensures ok ==> content.Some? && content.value.Obj?
      ensures ok ==> content.value.fields == Merged(old(content), data)
      ensures !ok ==> content == old(content)
    {
      var existing: map<string, Json>;
      if content.None? {
        existing := map[];
      } else if content.value.Obj? {
        existing := content.value.fields;
      } else {
        return false;
      }
      existing := existing + data;
      content := Some(Obj(existing));
      return true;
    }
  }

  /** `existing.update(data)` on the file's object. */
  function Merged(file: Option<Json>, data: map<string, Json>): map<string, Json>
    requires file.None? || file.value.Obj?
  {
    (if file.None? then map[] else file.value.fields) + data
  }

  /** Keys of `data` take its values; other keys keep theirs; nothing else
      appears. An absent file acts as an empty object. */
  lemma MergedUpdates(file: Option<Json>, data: map<string, Json>)
    requires file.None? || file.value.Obj?
    ensures var before := if file.None? then map[] else file.value.fields;
      var m := Merged(file, data);
      m.Keys == before.Keys + data.Keys &&
      (forall k :: k in data ==> m[k] == data[k]) &&
      (forall k :: k in before && k !in data ==> m[k] == before[k])
  {
  }

  /** Writing one institution's result map adds or replaces exactly that
      institution's entry. */
  lemma WriteOneInstitution(file: Option<Json>, iitName: string, reply: Option<string>)
    requires file.None? || file.value.Obj?
    ensures var r := ExtractFacultyStructure(iitName, reply);
      var m := Merged(file, map k | k in r :: Arr(seq(|r[k]|, i requires 0 <= i < |r[k]| => Str(r[k][i]))));
      iitName in m && m[iitName].Arr? && |m[iitName].items| >= 1 &&
      (file.Some? ==> forall k :: k in file.value.fields && k != iitName ==> k in m && m[k] == file.value.fields[k])
  {
  }
}
