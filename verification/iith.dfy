/** The IIT Hyderabad profile-link scraper: the profile URL built from each
    faculty card, the cards whose extraction fails being skipped, and the
    de-duplication of the collected entries by URL through a dictionary
    keyed by URL. */
module Iith {
  import opened Wrappers
  import opened Strings
  import Sorting

  // ---------------------------------------------------------------------
  // Extraction

  const SiteRoot: string := "https://www.iith.ac.in/"
  const UpTwoLevels: string := "../../"

  /** `"https://www.iith.ac.in/" + href.strip().replace("../../", "")`. */
  function ProfileUrl(href: string): (r: string)
    ensures SiteRoot <= r
    ensures |r| <= |SiteRoot| + |Strip(href)|
  {
    ReplaceAllShorter(Strip(href), UpTwoLevels, "");
    SiteRoot + ReplaceAll(Strip(href), UpTwoLevels, "")
  }

  /** A link written relative to the page two levels up leads to the same
      profile as the bare path. */
  lemma ProfileUrlDropsUpLevels(path: string)
    requires Strip(path) == path
    ensures ProfileUrl(UpTwoLevels + path) == ProfileUrl(path)
  {
    var h := UpTwoLevels + path;
    assert h[0] == '.';
    assert h[|h| - 1] !in Whitespace by {
      if path == [] {
        assert h[|h| - 1] == '/';
      } else {
        assert h[|h| - 1] == path[|path| - 1];
      }
    }
    StripUnpadded(h);
    assert UpTwoLevels <= h && h[|UpTwoLevels|..] == path;
  }

  /** One collected entry. */
  datatype Entry = Entry(name: string, url: string)

  /** What a faculty card offers: the link's `href` attribute and the
      heading's text, each missing when the element or attribute is absent.
      Reading a missing one raises, and the card is then skipped. */
  datatype Card = Card(href: Option<string>, nameText: Option<string>)

  function CardEntry(card: Card): (r: Option<Entry>)
    ensures r.Some? <==> card.href.Some? && card.nameText.Some?
    ensures r.Some? ==> r.value.url == ProfileUrl(card.href.value)
  {
    if card.href.Some? && card.nameText.Some? then
      Some(Entry(Strip(card.nameText.value), ProfileUrl(card.href.value)))
    else None
  }

  /** The entries of the cards that extract, in page order. */
  function Extracted(cards: seq<Card>): (r: seq<Entry>)
    ensures |r| <= |cards|
  {
    if cards == [] then []
    else
      var init := cards[..|cards| - 1];
      match CardEntry(cards[|cards| - 1])
      case Some(e) => Extracted(init) + [e]
      case None => Extracted(init)
  }

  /** The loop over the cards: each one either yields its entry or is
      skipped. */
  method ExtractProfiles(cards: seq<Card>) returns (profiles: seq<Entry>)
    ensures profiles == Extracted(cards)
  {
    profiles := [];
    for i := 0 to |cards|
      invariant profiles == Extracted(cards[..i])
    {
      assert cards[..i + 1][..i] == cards[..i];
      var e := CardEntry(cards[i]);
      if e.Some? {
        profiles := profiles + [e.value];
      }
    }
    assert cards[..|cards|] == cards;
  }

  /** Extraction keeps page order: the entries of two stretches of cards
      are the first stretch's, then the second's. */
  lemma {:induction false} ExtractedAppend(a: seq<Card>, b: seq<Card>)
    ensures Extracted(a + b) == Extracted(a) + Extracted(b)
    decreases |b|
  {
    if b == [] {
      assert a + b == a;
    } else {
      var init := b[..|b| - 1];
      assert (a + b)[..|a + b| - 1] == a + init;
      assert (a + b)[|a + b| - 1] == b[|b| - 1];
      ExtractedAppend(a, init);
    }
  }

  /** A card that fails is skipped and changes nothing about the others. */
  lemma FailingCardSkipped(before: seq<Card>, bad: Card, after: seq<Card>)
    requires CardEntry(bad).None?
    ensures Extracted(before + [bad] + after) == Extracted(before) + Extracted(after)
  {
    ExtractedAppend(before + [bad], after);
    ExtractedAppend(before, [bad]);
    assert [bad][..0] == [];
  }

  // ---------------------------------------------------------------------
  // De-duplication

  function Urls(entries: seq<Entry>): (r: seq<string>)
    ensures |r| == |entries|
    ensures forall k :: 0 <= k < |r| ==> r[k] == entries[k].url
  {
    seq(|entries|, k requires 0 <= k < |entries| => entries[k].url)
  }

  /** The position of the last entry with URL `u`. */
  function LastIndex(entries: seq<Entry>, u: string): (r: Option<nat>)
    ensures r.Some? ==> r.value < |entries| && entries[r.value].url == u
    ensures r.Some? ==> forall k :: r.value < k < |entries| ==> entries[k].url != u
    ensures r.None? <==> forall k :: 0 <= k < |entries| ==> entries[k].url != u
  {
    if entries == [] then None
    else if entries[|entries| - 1].url == u then Some(|entries| - 1)
    else LastIndex(entries[..|entries| - 1], u)
  }

  /** The de-duplicated list: one entry per URL, in the order in which the
      URLs first appear, each the last entry collected with that URL. */
  function Deduped(entries: seq<Entry>): (r: seq<Entry>)
    ensures |r| <= |entries|
    ensures forall i :: 0 <= i < |r| ==> r[i] in entries
  {
    var urls := Sorting.Distinct(Urls(entries));
    var d := seq(|urls|, i requires 0 <= i < |urls| =>
      assert urls[i] in Urls(entries);
      entries[LastIndex(entries, urls[i]).value]);
    assert forall i :: 0 <= i < |d| ==> d[i] in entries by {
      forall i | 0 <= i < |d| ensures d[i] in entries {
        assert urls[i] in Urls(entries);
        assert d[i] == entries[LastIndex(entries, urls[i]).value];
      }
    }
    d
  }

  /** The URLs of one more entry. */
  lemma UrlsSnoc(entries: seq<Entry>, e: Entry)
    ensures Urls(entries + [e]) == Urls(entries) + [e.url]
  {
  }

  /** The dictionary after the entries have been assigned in turn. */
  function Table(entries: seq<Entry>): map<string, Entry> {
    if entries == [] then map[]
    else
      var last := entries[|entries| - 1];
      Table(entries[..|entries| - 1])[last.url := last]
  }

  /** The dictionary holds the collected URLs, each with the last entry
      assigned to it. */
  lemma {:induction false} TableLast(entries: seq<Entry>)
    ensures forall u :: u in Table(entries) <==> u in Urls(entries)
    ensures forall u :: u in Table(entries) ==>
      LastIndex(entries, u).Some? && Table(entries)[u] == entries[LastIndex(entries, u).value]
  {
    if entries != [] {
      var n := |entries| - 1;
      var init := entries[..n];
      TableLast(init);
      assert entries == init + [entries[n]];
      UrlsSnoc(init, entries[n]);
      forall u | u in Table(entries) && u != entries[n].url
        ensures LastIndex(entries, u) == LastIndex(init, u)
      {
      }
    }
  }

  /** The dictionary loop and `list(unique_profiles.values())`: a key
      assigned again keeps its place and takes the new value. */
  method Deduplicate(entries: seq<Entry>) returns (deduped: seq<Entry>)
    ensures deduped == Deduped(entries)
  {
    var keys: seq<string> := [];
    var table: map<string, Entry> := map[];
    for i := 0 to |entries|
      invariant keys == Sorting.Distinct(Urls(entries[..i]))
      invariant table == Table(entries[..i])
    {
      var e := entries[i];
      assert entries[..i + 1] == entries[..i] + [e];
      UrlsSnoc(entries[..i], e);
      TableLast(entries[..i]);
      if e.url !in table {
        keys := keys + [e.url];
      }
      table := table[e.url := e];
    }
    assert entries[..|entries|] == entries;
    TableLast(entries);
    deduped := seq(|keys|, i requires 0 <= i < |keys| => table[keys[i]]);
  }

  /** The URLs of the de-duplicated list are the distinct collected URLs in
      order of first appearance. */
  lemma DedupedUrlsDistinct(entries: seq<Entry>)
    ensures Urls(Deduped(entries)) == Sorting.Distinct(Urls(entries))
  {
    var urls := Sorting.Distinct(Urls(entries));
    var d := Deduped(entries);
    forall k | 0 <= k < |d| ensures d[k].url == urls[k] {
      assert urls[k] in Urls(entries);
    }
  }

  /** No two kept entries share a URL. */
  lemma DedupedDistinct(entries: seq<Entry>)
    ensures Sorting.NoDuplicates(Urls(Deduped(entries)))
  {
    DedupedUrlsDistinct(entries);
  }

  /** The kept URLs are exactly the collected ones, and the list is no
      longer than what was collected. */
  lemma DedupedUrls(entries: seq<Entry>)
    ensures forall u :: u in Urls(Deduped(entries)) <==> u in Urls(entries)
    ensures |Deduped(entries)| <= |entries|
  {
    DedupedUrlsDistinct(entries);
  }

  /** No entry after the `k`th has its URL. */
  predicate LastWithItsUrl(entries: seq<Entry>, k: nat) {
    k < |entries| && forall j :: k < j < |entries| ==> entries[j].url != entries[k].url
  }

  /** Each kept entry is the last collected entry with its URL. */
  lemma DedupedKeepsLast(entries: seq<Entry>, i: nat)
    requires i < |Deduped(entries)|
    ensures exists k: nat :: LastWithItsUrl(entries, k) && Deduped(entries)[i] == entries[k]
  {
    var urls := Sorting.Distinct(Urls(entries));
    assert urls[i] in Urls(entries);
    var k := LastIndex(entries, urls[i]).value;
    assert Deduped(entries)[i] == entries[k];
    assert LastWithItsUrl(entries, k);
  }

  /** The position of the first occurrence of `u`. */
  function FirstIndex(s: seq<string>, u: string): (r: nat)
    requires u in s
    ensures r < |s| && s[r] == u
    ensures forall k :: 0 <= k < r ==> s[k] != u
  {
    if s[0] == u then 0 else 1 + FirstIndex(s[1..], u)
  }

  /** Appending leaves the first occurrence of an element already present
      where it was. */
  lemma FirstIndexAppend(s: seq<string>, x: string, u: string)
    requires u in s
    ensures FirstIndex(s + [x], u) == FirstIndex(s, u)
  {
    var f := FirstIndex(s, u);
    var g := FirstIndex(s + [x], u);
    assert (s + [x])[f] == u;
    forall k | 0 <= k < f ensures (s + [x])[k] != u {
      assert (s + [x])[k] == s[k];
    }
  }

  /** An element new to `s` first occurs where it is appended. */
  lemma FirstIndexNew(s: seq<string>, x: string)
    requires x !in s
    ensures FirstIndex(s + [x], x) == |s|
  {
    assert (s + [x])[|s|] == x;
    forall k | 0 <= k < |s| ensures (s + [x])[k] != x {
      assert (s + [x])[k] == s[k] && s[k] in s;
    }
  }

  /** The elements of `d` occur in `s`, and in `d` they come in the order
      of their first occurrence in `s`. */
  predicate InFirstAppearanceOrder(s: seq<string>, d: seq<string>) {
    forall i, j :: 0 <= i < j < |d| ==> d[i] in s && d[j] in s && FirstIndex(s, d[i]) < FirstIndex(s, d[j])
  }

  /** `set`-like removal of repeats lists the elements in the order of their
      first occurrence. */
  lemma {:induction false} DistinctFirstAppearance(s: seq<string>)
    ensures InFirstAppearanceOrder(s, Sorting.Distinct(s))
  {
    if s != [] {
      var init := s[..|s| - 1];
      var x := s[|s| - 1];
      assert s == init + [x];
      DistinctFirstAppearance(init);
      var d0 := Sorting.Distinct(init);
      assert InFirstAppearanceOrder(init, d0);
      if x in d0 {
        assert Sorting.Distinct(s) == d0;
        forall i, j | 0 <= i < j < |d0| ensures d0[i] in s && d0[j] in s && FirstIndex(s, d0[i]) < FirstIndex(s, d0[j]) {
          assert FirstIndex(init, d0[i]) < FirstIndex(init, d0[j]);
          assert d0[i] in d0 && d0[j] in d0;
          FirstIndexAppend(init, x, d0[i]);
          FirstIndexAppend(init, x, d0[j]);
        }
      } else {
        var d := d0 + [x];
        assert Sorting.Distinct(s) == d;
        FirstIndexNew(init, x);
        forall i, j | 0 <= i < j < |d| ensures d[i] in s && d[j] in s && FirstIndex(s, d[i]) < FirstIndex(s, d[j]) {
          assert d[i] == d0[i] && d0[i] in d0;
          FirstIndexAppend(init, x, d0[i]);
          if j < |d0| {
            assert FirstIndex(init, d0[i]) < FirstIndex(init, d0[j]);
            assert d[j] == d0[j] && d0[j] in d0;
            FirstIndexAppend(init, x, d0[j]);
          }
        }
      }
    }
  }

  /** The kept entries are in the order in which their URLs first appear
      among the collected entries. */
  lemma DedupedOrder(entries: seq<Entry>)
    ensures InFirstAppearanceOrder(Urls(entries), Urls(Deduped(entries)))
  {
    DedupedUrlsDistinct(entries);
    DistinctFirstAppearance(Urls(entries));
  }
}
