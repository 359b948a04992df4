/** `deduplicate_professors` and `merge_professor_lists` of the general
    scraper. A professor is a dict of string fields. The `seen` dict is an
    insertion-ordered list of (key, record) entries. */
module ProfScraper {
  import opened Wrappers
  import opened Strings
  import Sorting

  type Prof = map<string, string>

  /** `prof.get(k) or ""`. */
  function Get(p: Prof, k: string): string {
    if k in p then p[k] else ""
  }

  /** `normalize(text)`: lower-cased, then stripped. */
  function Normalize(text: string): string {
    Strip(Lower(text))
  }

  /** The name with every "dr." and then every "prof." removed. */
  function NameKey(n: string): string {
    ReplaceAll(ReplaceAll(n, "dr.", ""), "prof.", "")
  }

  /** `name_similarity`: equal once normalised and stripped of titles. */
  predicate NameSimilar(n1: string, n2: string) {
    NameKey(Normalize(n1)) == NameKey(Normalize(n2))
  }

  datatype Entry = Entry(key: string, prof: Prof)

  /** The match test of the scan for a record without e-mail: similar names
      and one department contained in the other. */
  predicate Matches(e: Entry, name: string, dept: string) {
    NameSimilar(name, Normalize(Get(e.prof, "name")))
    && (IsInfix(dept, Normalize(Get(e.prof, "department"))) || IsInfix(Normalize(Get(e.prof, "department")), dept))
  }

  /** The position of the first `true`. */
  function FirstTrue(flags: seq<bool>): (r: Option<nat>)
    ensures r.Some? ==> r.value < |flags| && flags[r.value] && forall j :: 0 <= j < r.value ==> !flags[j]
    ensures r.None? ==> forall j :: 0 <= j < |flags| ==> !flags[j]
  {
    if flags == [] then None
    else if flags[0] then Some(0)
    else match FirstTrue(flags[1..])
      case None => None
      case Some(j) => Some(j + 1)
  }

  /** The first `true` is where it is: a `true` with none before it. */
  lemma {:induction false} FirstTrueAt(flags: seq<bool>, j: nat)
    requires j < |flags| && flags[j]
    requires forall i :: 0 <= i < j ==> !flags[i]
    ensures FirstTrue(flags) == Some(j)
  {
    if j > 0 {
      assert !flags[0];
      FirstTrueAt(flags[1..], j - 1);
    }
  }

  /** For each entry, in insertion order, whether it matches. */
  function MatchFlags(seen: seq<Entry>, name: string, dept: string): (r: seq<bool>)
    ensures |r| == |seen|
    ensures forall k :: 0 <= k < |seen| ==> r[k] == Matches(seen[k], name, dept)
  {
    seq(|seen|, k requires 0 <= k < |seen| => Matches(seen[k], name, dept))
  }

  /** The key of the first entry, in insertion order, that matches. */
  function SimilarKey(seen: seq<Entry>, name: string, dept: string): Option<string> {
    match FirstTrue(MatchFlags(seen, name, dept))
    case Some(k) => Some(seen[k].key)
    case None => None
  }

  /** The identity key a record is filed under, given the entries so far. */
  function KeyFor(seen: seq<Entry>, prof: Prof): string {
    var email := Normalize(Get(prof, "email"));
    var name := Normalize(Get(prof, "name"));
    var dept := Normalize(Get(prof, "department"));
    if email != "" then "email:" + email
    else match SimilarKey(seen, name, dept)
      case Some(k) => if k != "" then k else "name:" + name + "|dept:" + dept
      case None => "name:" + name + "|dept:" + dept
  }

  /** `key in seen`, as the position of the entry. */
  function FindKey(seen: seq<Entry>, key: string): (r: Option<nat>)
    ensures r.Some? ==> r.value < |seen| && seen[r.value].key == key
    ensures r.None? ==> forall k :: 0 <= k < |seen| ==> seen[k].key != key
  {
    if seen == [] then None
    else if seen[|seen| - 1].key == key then Some(|seen| - 1)
    else FindKey(seen[..|seen| - 1], key)
  }

  /** The seven scalar fields merged by length. */
  function ScalarFields(): seq<string> {
    ["designation", "email", "website", "photo", "profile_url", "academic_background", "work_experience"]
  }

  /** Every field a merge may write. */
  const MergedKeys: set<string> := {
    "designation", "email", "website", "photo", "profile_url", "academic_background", "work_experience",
    "research_interests", "department"
  }

  /** Whether the incoming value of field `f` replaces the existing one: the
      existing value is empty and the incoming one is not, or the incoming one
      is strictly longer. */
  predicate Replaces(existing: Prof, incoming: Prof, f: string) {
    (Get(existing, f) == "" && Get(incoming, f) != "") || |Get(incoming, f)| > |Get(existing, f)|
  }

  /** One iteration of the field loop. */
  function MergeField(existing: Prof, incoming: Prof, f: string): Prof {
    if Replaces(existing, incoming, f) then existing[f := Get(incoming, f)] else existing
  }

  /** The record after the field loop over `fields`. */
  function MergeFields(existing: Prof, incoming: Prof, fields: seq<string>): Prof {
    if fields == [] then existing
    else MergeField(MergeFields(existing, incoming, fields[..|fields| - 1]), incoming, fields[|fields| - 1])
  }

  /** The merge rule of the scalar fields is "keep the longer value, the
      existing one on a tie": the empty-existing test adds nothing to the
      length test, and a field listed twice is not changed again. Fields
      outside the list are untouched. */
  lemma {:induction false} MergeFieldsKeepsLonger(existing: Prof, incoming: Prof, fields: seq<string>)
    ensures forall f :: f in fields ==> (Get(MergeFields(existing, incoming, fields), f)
      == if |Get(incoming, f)| > |Get(existing, f)| then Get(incoming, f) else Get(existing, f))
    ensures forall k :: k !in fields ==>
      (k in MergeFields(existing, incoming, fields) <==> k in existing)
      && Get(MergeFields(existing, incoming, fields), k) == Get(existing, k)
  {
    if fields != [] {
      var init := fields[..|fields| - 1];
      var last := fields[|fields| - 1];
      assert fields == init + [last];
      MergeFieldsKeepsLonger(existing, incoming, init);
    }
  }

  /** Fields the incoming record leaves empty stay as they are. */
  lemma {:induction false} MergeFieldsNothingIncoming(existing: Prof, incoming: Prof, fields: seq<string>)
    requires forall k :: 0 <= k < |fields| ==> Get(incoming, fields[k]) == ""
    ensures MergeFields(existing, incoming, fields) == existing
  {
    if fields != [] {
      MergeFieldsNothingIncoming(existing, incoming, fields[..|fields| - 1]);
    }
  }

  const InterestDelims: set<char> := {'●', '•', ',', '|'}

  /** `[i.strip() for i in xs if i.strip()]`. */
  function StrippedNonEmpty(xs: seq<string>): (r: seq<string>)
    ensures forall k :: 0 <= k < |r| ==> r[k] != ""
  {
    if xs == [] then []
    else
      var t := Strip(xs[0]);
      (if t != "" then [t] else []) + StrippedNonEmpty(xs[1..])
  }

  /** The fragments of the merged interests: the union of both split lists,
      every fragment stripped, blanks dropped, sorted. The union is enumerated
      here in order of first appearance; `InterestsOrderIrrelevant` shows any
      enumeration gives the same list. */
  function InterestParts(existing: string, incoming: string): seq<string> {
    var union := Sorting.Distinct(SplitOnClass(existing, InterestDelims) + SplitOnClass(incoming, InterestDelims));
    Sorting.Sort(StrippedNonEmpty(union))
  }

  /** The merged `research_interests` value. */
  function MergedInterests(existing: string, incoming: string): string {
    Join(InterestParts(existing, incoming), ", ")
  }

  /** The merged interests are sorted, non-blank fragments. */
  lemma InterestPartsSorted(existing: string, incoming: string)
    ensures Sorting.Sorted(InterestParts(existing, incoming))
    ensures forall k :: 0 <= k < |InterestParts(existing, incoming)| ==> InterestParts(existing, incoming)[k] != ""
  {
    var union := Sorting.Distinct(SplitOnClass(existing, InterestDelims) + SplitOnClass(incoming, InterestDelims));
    var parts := StrippedNonEmpty(union);
    var sorted := Sorting.Sort(parts);
    forall k | 0 <= k < |sorted| ensures sorted[k] != "" {
      assert sorted[k] in multiset(parts);
    }
  }

  lemma {:induction false} StrippedNonEmptyAppend(a: seq<string>, b: seq<string>)
    ensures StrippedNonEmpty(a + b) == StrippedNonEmpty(a) + StrippedNonEmpty(b)
    decreases |a|
  {
    if a == [] {
      assert a + b == b;
    } else {
      assert (a + b)[0] == a[0];
      assert (a + b)[1..] == a[1..] + b;
      StrippedNonEmptyAppend(a[1..], b);
    }
  }

  lemma StrippedNonEmptyRemove(b: seq<string>, j: nat)
    requires j < |b|
    ensures multiset(StrippedNonEmpty(b))
         == multiset(StrippedNonEmpty([b[j]])) + multiset(StrippedNonEmpty(b[..j] + b[j + 1..]))
  {
    var p, x, q := b[..j], [b[j]], b[j + 1..];
    CutAround(b, j);
    var sp, sx, sq := StrippedNonEmpty(p), StrippedNonEmpty(x), StrippedNonEmpty(q);
    assert StrippedNonEmpty(b) == sp + (sx + sq) by {
      StrippedNonEmptyAppend(p, x + q);
      StrippedNonEmptyAppend(x, q);
    }
    assert StrippedNonEmpty(p + q) == sp + sq by {
      StrippedNonEmptyAppend(p, q);
    }
    MultisetMiddle(sp, sx, sq);
  }

  /** A list is its part before position `j`, the element at `j` and the
      part after it. */
  lemma CutAround(b: seq<string>, j: nat)
    requires j < |b|
    ensures b == b[..j] + ([b[j]] + b[j + 1..])
  {
  }

  /** Taking the middle piece out of a concatenation removes its elements
      from the multiset and no others. */
  lemma MultisetMiddle(a: seq<string>, m: seq<string>, c: seq<string>)
    ensures multiset(a + (m + c)) == multiset(m) + multiset(a + c)
  {
  }

  lemma {:induction false} StrippedNonEmptyMultiset(a: seq<string>, b: seq<string>)
    requires multiset(a) == multiset(b)
    ensures multiset(StrippedNonEmpty(a)) == multiset(StrippedNonEmpty(b))
    decreases |a|
  {
    if a != [] {
      var x := a[0];
      assert x in multiset(b);
      var j :| 0 <= j < |b| && b[j] == x;
      var b' := b[..j] + b[j + 1..];
      assert b == b[..j] + [x] + b[j + 1..];
      assert multiset(b') == multiset(b) - multiset{x};
      assert a == [x] + a[1..];
      assert multiset(a[1..]) == multiset(a) - multiset{x};
      StrippedNonEmptyMultiset(a[1..], b');
      StrippedNonEmptyRemove(b, j);
      assert StrippedNonEmpty(a) == StrippedNonEmpty([x]) + StrippedNonEmpty(a[1..]) by {
        StrippedNonEmptyAppend([x], a[1..]);
      }
    }
  }

  /** A Python set has no fixed iteration order; the merged interests do not
      depend on it: any duplicate-free listing of the union gives the same
      sorted fragments. */
  lemma InterestsOrderIrrelevant(existing: string, incoming: string, listing: seq<string>)
    requires Sorting.NoDuplicates(listing)
    requires forall x :: x in listing <==> x in SplitOnClass(existing, InterestDelims) || x in SplitOnClass(incoming, InterestDelims)
    ensures Sorting.Sort(StrippedNonEmpty(listing)) == InterestParts(existing, incoming)
  {
    var union := Sorting.Distinct(SplitOnClass(existing, InterestDelims) + SplitOnClass(incoming, InterestDelims));
    Sorting.NoDuplicatesMultiset(listing, union);
    StrippedNonEmptyMultiset(listing, union);
    Sorting.SortedUnique(Sorting.Sort(StrippedNonEmpty(listing)), InterestParts(existing, incoming));
  }

  lemma SplitAB()
    ensures SplitOnClass("A, B", InterestDelims) == ["A", " B"]
  {
    assert "A, B"[1..] == ", B" && ", B"[1..] == " B" && " B"[1..] == "B" && "B"[1..] == "";
    assert ',' in InterestDelims && ' ' !in InterestDelims && 'A' !in InterestDelims && 'B' !in InterestDelims;
    assert SplitOnClass("", InterestDelims) == [""];
    assert SplitOnClass("B", InterestDelims) == ["B"] by { assert ['B'] + "" == "B"; }
    assert SplitOnClass(" B", InterestDelims) == [" B"] by { assert [' '] + "B" == " B"; }
    assert SplitOnClass(", B", InterestDelims) == ["", " B"];
    assert SplitOnClass("A, B", InterestDelims) == ["A", " B"] by { assert ['A'] + "" == "A"; }
  }

  lemma SplitBC()
    ensures SplitOnClass("B, C", InterestDelims) == ["B", " C"]
  {
    assert "B, C"[1..] == ", C" && ", C"[1..] == " C" && " C"[1..] == "C" && "C"[1..] == "";
    assert ',' in InterestDelims && ' ' !in InterestDelims && 'B' !in InterestDelims && 'C' !in InterestDelims;
    assert SplitOnClass("", InterestDelims) == [""];
    assert SplitOnClass("C", InterestDelims) == ["C"] by { assert ['C'] + "" == "C"; }
    assert SplitOnClass(" C", InterestDelims) == [" C"] by { assert [' '] + "C" == " C"; }
    assert SplitOnClass(", C", InterestDelims) == ["", " C"];
    assert SplitOnClass("B, C", InterestDelims) == ["B", " C"] by { assert ['B'] + "" == "B"; }
  }

  /** `StrippedNonEmpty` of four fragments none of which strips to blank. */
  lemma StrippedFour(w: string, x: string, y: string, z: string)
    requires Strip(w) != "" && Strip(x) != "" && Strip(y) != "" && Strip(z) != ""
    ensures StrippedNonEmpty([w, x, y, z]) == [Strip(w), Strip(x), Strip(y), Strip(z)]
  {
    assert StrippedNonEmpty([z]) == [Strip(z)] by {
      assert [z][1..] == [];
    }
    assert StrippedNonEmpty([y, z]) == [Strip(y), Strip(z)] by {
      assert [y, z][1..] == [z];
    }
    assert StrippedNonEmpty([x, y, z]) == [Strip(x), Strip(y), Strip(z)] by {
      assert [x, y, z][1..] == [y, z];
    }
    assert [w, x, y, z][1..] == [x, y, z];
  }

  lemma StripsABBC()
    ensures Strip("A") == "A" && Strip(" B") == "B" && Strip("B") == "B" && Strip(" C") == "C"
  {
    StripUnpadded("A");
    StripUnpadded("B");
    StripUnpadded("C");
    assert LStripSet(" B", Whitespace) == LStripSet(" B"[1..], Whitespace);
    assert LStripSet(" C", Whitespace) == LStripSet(" C"[1..], Whitespace);
  }

  lemma StrippedABBC()
    ensures StrippedNonEmpty(["A", " B", "B", " C"]) == ["A", "B", "B", "C"]
  {
    StripsABBC();
    StrippedFour("A", " B", "B", " C");
  }

  lemma DistinctABBC()
    ensures Sorting.Distinct(["A", " B", "B", " C"]) == ["A", " B", "B", " C"]
  {
    var both := ["A", " B", "B", " C"];
    assert both[..1] == ["A"] && both[..1][..0] == [];
    assert Sorting.Distinct(both[..1]) == ["A"];
    assert both[..2] == ["A", " B"] && both[..2][..1] == both[..1];
    assert Sorting.Distinct(both[..2]) == ["A", " B"];
    assert both[..3] == ["A", " B", "B"] && both[..3][..2] == both[..2];
    assert "B" !in ["A", " B"];
    assert Sorting.Distinct(both[..3]) == ["A", " B", "B"];
    assert both[..4] == both && both[..4][..3] == both[..3];
    assert " C" !in ["A", " B", "B"];
  }

  /** The interest parts from what the split, the union and the strip give;
      stated over variables so that no literal is unrolled. */
  lemma InterestPartsFrom(existing: string, incoming: string, both: seq<string>, stripped: seq<string>)
    requires SplitOnClass(existing, InterestDelims) + SplitOnClass(incoming, InterestDelims) == both
    requires Sorting.Distinct(both) == both && StrippedNonEmpty(both) == stripped
    requires Sorting.Sorted(stripped)
    ensures InterestParts(existing, incoming) == stripped
  {
    Sorting.SortedUnique(InterestParts(existing, incoming), stripped);
  }

  lemma SortedABBC()
    ensures Sorting.Sorted(["A", "B", "B", "C"])
  {
    assert Sorting.Less("A", "B") && Sorting.Less("B", "C");
  }

  lemma SplitsABBC()
    ensures SplitOnClass("A, B", InterestDelims) + SplitOnClass("B, C", InterestDelims) == ["A", " B", "B", " C"]
  {
    SplitAB();
    SplitBC();
  }

  lemma InterestPartsABBC()
    ensures InterestParts("A, B", "B, C") == ["A", "B", "B", "C"]
  {
    SplitsABBC();
    DistinctABBC();
    StrippedABBC();
    SortedABBC();
    InterestPartsFrom("A, B", "B, C", ["A", " B", "B", " C"], ["A", "B", "B", "C"]);
  }

  lemma MergedInterestsFrom(existing: string, incoming: string, parts: seq<string>, joined: string)
    requires InterestParts(existing, incoming) == parts && Join(parts, ", ") == joined
    ensures MergedInterests(existing, incoming) == joined
  {
  }

  lemma JoinABBC()
    ensures Join(["A", "B", "B", "C"], ", ") == "A, B, B, C"
  {
    assert Join(["A", "B", "B", "C"], ", ") == "A" + ", " + ("B" + ", " + ("B" + ", " + "C"));
  }

  /** The union is taken before stripping, so " B" and "B" both survive: the
      merged interests can repeat a fragment. */
  lemma InterestsKeepDuplicates()
    ensures MergedInterests("A, B", "B, C") == "A, B, B, C"
  {
    InterestPartsABBC();
    JoinABBC();
    MergedInterestsFrom("A, B", "B, C", ["A", "B", "B", "C"], "A, B, B, C");
  }

  /** `s` without the elements equal to `x`. */
  function Without(s: seq<string>, x: string): (r: seq<string>)
    ensures forall y :: y in r <==> y in s && y != x
    ensures Sorting.NoDuplicates(s) ==> Sorting.NoDuplicates(r)
  {
    if s == [] then []
    else
      var rest := Without(s[1..], x);
      assert Sorting.NoDuplicates(s) ==> s[0] !in s[1..];
      (if s[0] == x then [] else [s[0]]) + rest
  }

  /** The parts of the merged department: the union of both `" | "`-split lists
      without the empty part, sorted. */
  function DepartmentParts(existing: string, incoming: string): seq<string> {
    var union := Sorting.Distinct(SplitOn(existing, " | ") + SplitOn(incoming, " | "));
    Sorting.Sort(Without(union, ""))
  }

  /** The merged department lists every non-empty part of either department
      once, in strictly ascending order. */
  lemma DepartmentPartsFacts(existing: string, incoming: string)
    ensures Sorting.StrictlySorted(DepartmentParts(existing, incoming))
    ensures forall x :: (x in DepartmentParts(existing, incoming)
      <==> x != "" && (x in SplitOn(existing, " | ") || x in SplitOn(incoming, " | ")))
  {
    var union := Sorting.Distinct(SplitOn(existing, " | ") + SplitOn(incoming, " | "));
    var parts := Without(union, "");
    var sorted := Sorting.Sort(parts);
    assert sorted == DepartmentParts(existing, incoming);
    forall x ensures x in sorted <==> x in parts {
      assert x in sorted <==> x in multiset(sorted);
      assert x in parts <==> x in multiset(parts);
    }
    Sorting.NoDuplicatesPermutation(parts, sorted);
    Sorting.SortedNoDuplicatesStrict(sorted);
  }

  /** The merged `department` value. */
  function MergedDepartment(existing: string, incoming: string): string {
    Join(DepartmentParts(existing, incoming), " | ")
  }

  /** The merge of a duplicate into the kept record. */
  function Merge(existing: Prof, incoming: Prof): Prof {
    var fields := MergeFields(existing, incoming, ScalarFields());
    var withInterests := fields["research_interests" :=
      MergedInterests(Get(fields, "research_interests"), Get(incoming, "research_interests"))];
    withInterests["department" := MergedDepartment(Get(withInterests, "department"), Get(incoming, "department"))]
  }

  /** A merge writes the seven scalar fields, the interests and the department
      and nothing else. */
  lemma MergeKeepsOthers(existing: Prof, incoming: Prof)
    ensures Merge(existing, incoming) - MergedKeys == existing - MergedKeys
    ensures "research_interests" in Merge(existing, incoming) && "department" in Merge(existing, incoming)
  {
    var fields := MergeFields(existing, incoming, ScalarFields());
    MergeFieldsKeepsLonger(existing, incoming, ScalarFields());
    var interests := MergedInterests(Get(fields, "research_interests"), Get(incoming, "research_interests"));
    var withInterests := fields["research_interests" := interests];
    SetMergedKeys(fields, existing, interests, MergedDepartment(Get(withInterests, "department"), Get(incoming, "department")));
  }

  /** Writing the interests and the department over a record that agrees with
      `existing` outside the scalar fields leaves it agreeing outside the
      merged keys. */
  lemma SetMergedKeys(fields: Prof, existing: Prof, interests: string, dept: string)
    requires forall x :: x !in ScalarFields() ==> (x in fields <==> x in existing)
    requires forall x :: x !in ScalarFields() ==> Get(fields, x) == Get(existing, x)
    ensures fields["research_interests" := interests]["department" := dept] - MergedKeys == existing - MergedKeys
  {
    var m := fields["research_interests" := interests]["department" := dept];
    forall x | x !in MergedKeys ensures x !in ScalarFields() {
    }
    assert forall x :: x in m - MergedKeys <==> x in existing - MergedKeys;
  }

  /** How a duplicate is folded into the kept record. The loop below is
      written over any such rule, so that what it does with keys is stated
      apart from how fields merge; the scraper's rule is `Merge`. */
  type MergeRule = (Prof, Prof) -> Prof

  /** Filing a record under a key: a new key is appended, a known one merged
      in place (its position in the dict stays). */
  function Place(seen: seq<Entry>, key: string, prof: Prof, merge: MergeRule): seq<Entry> {
    match FindKey(seen, key)
    case None => seen + [Entry(key, prof)]
    case Some(i) => seen[i := Entry(key, merge(seen[i].prof, prof))]
  }

  /** How the key of a record is chosen from the entries so far; the
      scraper's rule is `KeyFor`. */
  type KeyRule = (seq<Entry>, Prof) -> string

  /** The `seen` dict after the loop has run over `profs`. */
  function DedupWith(profs: seq<Prof>, keyOf: KeyRule, merge: MergeRule): seq<Entry> {
    if profs == [] then []
    else
      var seen := DedupWith(profs[..|profs| - 1], keyOf, merge);
      Place(seen, keyOf(seen, profs[|profs| - 1]), profs[|profs| - 1], merge)
  }

  /** The `seen` dict of `deduplicate_professors`. */
  function DedupEntries(profs: seq<Prof>): seq<Entry> {
    DedupWith(profs, KeyFor, Merge)
  }

  function Keys(entries: seq<Entry>): (ks: seq<string>)
    ensures |ks| == |entries|
    ensures forall k :: 0 <= k < |entries| ==> ks[k] == entries[k].key
  {
    seq(|entries|, k requires 0 <= k < |entries| => entries[k].key)
  }

  function Values(entries: seq<Entry>): (vs: seq<Prof>)
    ensures |vs| == |entries|
    ensures forall k :: 0 <= k < |entries| ==> vs[k] == entries[k].prof
  {
    seq(|entries|, k requires 0 <= k < |entries| => entries[k].prof)
  }

  /** `list(seen.values())` after the loop. */
  function Deduplicated(profs: seq<Prof>): seq<Prof> {
    Values(DedupEntries(profs))
  }

  /** The scan for an existing entry with a similar name and department. */
  method FindSimilar(seen: seq<Entry>, name: string, dept: string) returns (key: Option<string>)
    ensures key == SimilarKey(seen, name, dept)
  {
    ghost var flags := MatchFlags(seen, name, dept);
    var j := 0;
    while j < |seen|
      invariant 0 <= j <= |seen|
      invariant forall i :: 0 <= i < j ==> !flags[i]
    {
      if Matches(seen[j], name, dept) {
        FirstTrueAt(flags, j);
        return Some(seen[j].key);
      }
      FlagsExtend(flags, j);
      j := j + 1;
    }
    FirstTrueNone(flags);
    return None;
  }
  lemma FlagsExtend(flags: seq<bool>, j: nat)
    requires j < |flags| && !flags[j]
    requires forall i :: 0 <= i < j ==> !flags[i]
    ensures forall i :: 0 <= i < j + 1 ==> !flags[i]
  {
  }
  lemma FirstTrueNone(flags: seq<bool>)
    requires forall i :: 0 <= i < |flags| ==> !flags[i]
    ensures FirstTrue(flags) == None
  {
  }

  /** The loop over the scalar fields, updating the kept record. */
  method MergeScalarFields(existing: Prof, prof: Prof, fields: seq<string>) returns (merged: Prof)
    ensures merged == MergeFields(existing, prof, fields)
  {
    merged := existing;
    var i := 0;
    while i < |fields|
      invariant 0 <= i <= |fields|
      invariant merged == MergeFields(existing, prof, fields[..i])
    {
      assert fields[..i + 1][..i] == fields[..i];
      var field := fields[i];
      if (Get(merged, field) == "" && Get(prof, field) != "") || |Get(prof, field)| > |Get(merged, field)| {
        merged := merged[field := Get(prof, field)];
      }
      i := i + 1;
    }
    assert fields[..i] == fields;
  }

  /** The merge of a duplicate into the kept record. */
  method MergeRecord(existing: Prof, prof: Prof) returns (merged: Prof)
    ensures merged == Merge(existing, prof)
  {
    merged := MergeScalarFields(existing, prof, ScalarFields());
    merged := merged["research_interests" :=
      MergedInterests(Get(merged, "research_interests"), Get(prof, "research_interests"))];
    merged := merged["department" := MergedDepartment(Get(merged, "department"), Get(prof, "department"))];
  }

  /** The key selection of one record. */
  method ChooseKey(seen: seq<Entry>, prof: Prof) returns (key: string)
    ensures key == KeyFor(seen, prof)
  {
    var email := Normalize(Get(prof, "email"));
    var name := Normalize(Get(prof, "name"));
    var dept := Normalize(Get(prof, "department"));
    var similar: Option<string> := None;
    if email != "" {
      similar := Some("email:" + email);
    } else {
      similar := FindSimilar(seen, name, dept);
    }
    if similar.None? || similar.value == "" {
      key := "name:" + name + "|dept:" + dept;
    } else {
      key := similar.value;
    }
  }

  /** One iteration of the loop: the record's key is chosen and the record is
      either added under it or merged into the entry already filed there. */
  method FileRecord(seen: seq<Entry>, prof: Prof) returns (next: seq<Entry>)
    ensures next == Place(seen, KeyFor(seen, prof), prof, Merge)
  {
    var key := ChooseKey(seen, prof);
    match FindKey(seen, key) {
      case None =>
        next := seen + [Entry(key, prof)];
      case Some(k) =>
        var merged := MergeRecord(seen[k].prof, prof);
        next := seen[k := Entry(key, merged)];
    }
  }

  /** `deduplicate_professors(prof_list)`. */
  method DeduplicateProfessors(profs: seq<Prof>) returns (result: seq<Prof>)
    ensures result == Deduplicated(profs)
  {
    var seen: seq<Entry> := [];
    var i := 0;
    while i < |profs|
      invariant 0 <= i <= |profs|
      invariant seen == DedupEntries(profs[..i])
    {
      DedupWithStep(profs, KeyFor, Merge, i);
      seen := FileRecord(seen, profs[i]);
      i := i + 1;
    }
    assert profs[..|profs|] == profs;
    result := Values(seen);
  }

  // ---------------------------------------------------------------------------
  // Properties of the de-duplication

  /** Filing keeps the existing keys in place and appends the key when it is
      new. */
  lemma PlaceKeys(seen: seq<Entry>, key: string, prof: Prof, merge: MergeRule)
    ensures Keys(Place(seen, key, prof, merge)) == if key in Keys(seen) then Keys(seen) else Keys(seen) + [key]
  {
    match FindKey(seen, key)
    case None =>
      assert key !in Keys(seen);
      assert Keys(Place(seen, key, prof, merge)) == Keys(seen) + [key];
    case Some(i) =>
      assert Keys(seen)[i] == key;
      assert Keys(Place(seen, key, prof, merge)) == Keys(seen);
  }

  /** Filing a record either appends it as it is or merges it into the entry
      with its key, leaving every other entry alone. */
  lemma PlaceValues(seen: seq<Entry>, key: string, prof: Prof, merge: MergeRule)
    ensures |Place(seen, key, prof, merge)| > |seen| ==> Place(seen, key, prof, merge)[|seen|].prof == prof
    ensures forall k :: 0 <= k < |seen| ==>
      Place(seen, key, prof, merge)[k] == seen[k]
      || (seen[k].key == key && Place(seen, key, prof, merge)[k].prof == merge(seen[k].prof, prof))
  {
  }

  /** One more record is one more filing. */
  lemma DedupWithStep(profs: seq<Prof>, keyOf: KeyRule, merge: MergeRule, i: nat)
    requires i < |profs|
    ensures DedupWith(profs[..i + 1], keyOf, merge)
         == Place(DedupWith(profs[..i], keyOf, merge), keyOf(DedupWith(profs[..i], keyOf, merge), profs[i]), profs[i], merge)
  {
    assert profs[..i + 1][..i] == profs[..i];
  }

  /** The output holds one entry per identity key, and never more records than
      the input. */
  lemma {:induction false} DedupKeysDistinct(profs: seq<Prof>, keyOf: KeyRule, merge: MergeRule)
    ensures Sorting.NoDuplicates(Keys(DedupWith(profs, keyOf, merge)))
    ensures |DedupWith(profs, keyOf, merge)| <= |profs|
  {
    if profs != [] {
      var seen := DedupWith(profs[..|profs| - 1], keyOf, merge);
      var last := profs[|profs| - 1];
      var key := keyOf(seen, last);
      assert DedupWith(profs, keyOf, merge) == Place(seen, key, last, merge);
      DedupKeysDistinct(profs[..|profs| - 1], keyOf, merge);
      PlaceKeys(seen, key, last, merge);
      if key !in Keys(seen) {
        NoDuplicatesSnoc(Keys(seen), key);
      }
    }
  }

  /** A list without repetitions stays so when a new element is appended. */
  lemma NoDuplicatesSnoc(s: seq<string>, x: string)
    requires Sorting.NoDuplicates(s) && x !in s
    ensures Sorting.NoDuplicates(s + [x])
  {
    forall i, j | 0 <= i < j < |s + [x]| ensures (s + [x])[i] != (s + [x])[j] {
      if j == |s| {
        assert (s + [x])[i] == s[i] && s[i] in s;
      } else {
        assert (s + [x])[i] == s[i] && (s + [x])[j] == s[j];
      }
    }
  }

  /** Entries appear in order of first appearance of their key: the keys after
      a prefix of the input are a prefix of the final keys. */
  lemma {:induction false} DedupKeysGrow(profs: seq<Prof>, keyOf: KeyRule, merge: MergeRule, i: nat)
    requires i <= |profs|
    ensures Keys(DedupWith(profs[..i], keyOf, merge)) <= Keys(DedupWith(profs, keyOf, merge))
    decreases |profs| - i
  {
    if i < |profs| {
      DedupKeysGrow(profs, keyOf, merge, i + 1);
      DedupWithStep(profs, keyOf, merge, i);
      var seen := DedupWith(profs[..i], keyOf, merge);
      PlaceKeys(seen, keyOf(seen, profs[i]), profs[i], merge);
    } else {
      assert profs[..i] == profs;
    }
  }

  /** The key each record is filed under is a key of the output. */
  lemma KeyFiled(profs: seq<Prof>, keyOf: KeyRule, merge: MergeRule, i: nat)
    requires i < |profs|
    ensures keyOf(DedupWith(profs[..i], keyOf, merge), profs[i]) in Keys(DedupWith(profs, keyOf, merge))
  {
    var seen := DedupWith(profs[..i], keyOf, merge);
    var key := keyOf(seen, profs[i]);
    DedupWithStep(profs, keyOf, merge, i);
    PlaceKeys(seen, key, profs[i], merge);
    DedupKeysGrow(profs, keyOf, merge, i + 1);
    var mid := Keys(DedupWith(profs[..i + 1], keyOf, merge));
    assert key in mid;
    var j :| 0 <= j < |mid| && mid[j] == key;
    assert Keys(DedupWith(profs, keyOf, merge))[j] == key;
  }

  /** A record with a non-empty e-mail is keyed by it. */
  lemma KeyForEmail(seen: seq<Entry>, prof: Prof)
    requires Normalize(Get(prof, "email")) != ""
    ensures KeyFor(seen, prof) == "email:" + Normalize(Get(prof, "email"))
  {
  }

  /** A record with a non-empty e-mail ends up in the one entry keyed
      `email:<email>`, whatever came before or after it. */
  lemma EmailsCollapse(profs: seq<Prof>, i: nat)
    requires i < |profs| && Normalize(Get(profs[i], "email")) != ""
    ensures "email:" + Normalize(Get(profs[i], "email")) in Keys(DedupEntries(profs))
  {
    KeyFiled(profs, KeyFor, Merge, i);
    KeyForEmail(DedupEntries(profs[..i]), profs[i]);
  }

  /** A record without e-mail is filed under the key of the first entry, in
      insertion order, whose name and department match it. */
  lemma NoEmailJoinsFirstMatch(seen: seq<Entry>, prof: Prof, k: nat)
    requires Normalize(Get(prof, "email")) == ""
    requires k < |seen| && seen[k].key != ""
    requires Matches(seen[k], Normalize(Get(prof, "name")), Normalize(Get(prof, "department")))
    requires forall j :: 0 <= j < k ==> !Matches(seen[j], Normalize(Get(prof, "name")), Normalize(Get(prof, "department")))
    ensures KeyFor(seen, prof) == seen[k].key
  {
    var flags := MatchFlags(seen, Normalize(Get(prof, "name")), Normalize(Get(prof, "department")));
    FirstTrueAt(flags, k);
  }

  /** A record without e-mail and without a matching entry gets a fresh
      name/department key. */
  lemma NoEmailNoMatch(seen: seq<Entry>, prof: Prof)
    requires Normalize(Get(prof, "email")) == ""
    requires forall j :: 0 <= j < |seen| ==> !Matches(seen[j], Normalize(Get(prof, "name")), Normalize(Get(prof, "department")))
    ensures KeyFor(seen, prof) == "name:" + Normalize(Get(prof, "name")) + "|dept:" + Normalize(Get(prof, "department"))
  {
    var flags := MatchFlags(seen, Normalize(Get(prof, "name")), Normalize(Get(prof, "department")));
    assert FirstTrue(flags).None?;
  }

  /** The key record `i` is filed under: the one chosen from the entries
      made by the records before it. */
  function FilingKey(profs: seq<Prof>, keyOf: KeyRule, merge: MergeRule, i: nat): string
    requires i < |profs|
  {
    keyOf(DedupWith(profs[..i], keyOf, merge), profs[i])
  }

  /** Record `i` is the first record filed under `key`. */
  predicate FirstFiledAt(profs: seq<Prof>, keyOf: KeyRule, merge: MergeRule, i: nat, key: string) {
    i < |profs| && FilingKey(profs, keyOf, merge, i) == key
    && forall j :: 0 <= j < i ==> FilingKey(profs, keyOf, merge, j) != key
  }

  /** Records after a prefix do not change the keys the prefix's records
      were filed under. */
  lemma FilingKeyPrefix(profs: seq<Prof>, keyOf: KeyRule, merge: MergeRule, m: nat, i: nat)
    requires i < m <= |profs|
    ensures FilingKey(profs[..m], keyOf, merge, i) == FilingKey(profs, keyOf, merge, i)
  {
    assert profs[..m][..i] == profs[..i];
  }

  /** Nor which record of the prefix was the first filed under a key. */
  lemma FirstFiledPrefix(profs: seq<Prof>, keyOf: KeyRule, merge: MergeRule, m: nat, i: nat, key: string)
    requires m <= |profs| && FirstFiledAt(profs[..m], keyOf, merge, i, key)
    ensures FirstFiledAt(profs, keyOf, merge, i, key)
  {
    FilingKeyPrefix(profs, keyOf, merge, m, i);
    forall j | 0 <= j < i ensures FilingKey(profs, keyOf, merge, j) != key {
      FilingKeyPrefix(profs, keyOf, merge, m, j);
    }
  }

  /** Under a merge rule that leaves every other field alone, output entry `k`
      is the record first filed under its key, with only the merged fields
      changed by the records filed after it. */
  lemma {:induction false} DedupWithKeepsFirstRecord(profs: seq<Prof>, keyOf: KeyRule, merge: MergeRule, k: nat)
    requires forall a, b :: merge(a, b) - MergedKeys == a - MergedKeys
    requires k < |DedupWith(profs, keyOf, merge)|
    ensures exists i: nat ::
      FirstFiledAt(profs, keyOf, merge, i, Keys(DedupWith(profs, keyOf, merge))[k]) &&
      DedupWith(profs, keyOf, merge)[k].prof - MergedKeys == profs[i] - MergedKeys
  {
    var n := |profs| - 1;
    var pre := profs[..n];
    var seen := DedupWith(pre, keyOf, merge);
    var last := keyOf(seen, profs[n]);
    var next := DedupWith(profs, keyOf, merge);
    assert next == Place(seen, last, profs[n], merge);
    PlaceValues(seen, last, profs[n], merge);
    PlaceKeys(seen, last, profs[n], merge);
    var key := Keys(next)[k];
    if k < |seen| {
      DedupWithKeepsFirstRecord(pre, keyOf, merge, k);
      assert key == Keys(seen)[k];
      var i: nat :| FirstFiledAt(pre, keyOf, merge, i, key) && seen[k].prof - MergedKeys == pre[i] - MergedKeys;
      FirstFiledPrefix(profs, keyOf, merge, n, i, key);
      assert pre[i] == profs[i];
      assert next[k].prof - MergedKeys == seen[k].prof - MergedKeys;
    } else {
      assert last !in Keys(seen) && key == last;
      assert FilingKey(profs, keyOf, merge, n) == last;
      FirstFiledLast(profs, keyOf, merge);
      assert next[k].prof == profs[n];
    }
  }

  /** A key that no earlier record was filed under is first filed by the last
      record. */
  lemma FirstFiledLast(profs: seq<Prof>, keyOf: KeyRule, merge: MergeRule)
    requires profs != []
    requires FilingKey(profs, keyOf, merge, |profs| - 1) !in Keys(DedupWith(profs[..|profs| - 1], keyOf, merge))
    ensures FirstFiledAt(profs, keyOf, merge, |profs| - 1, FilingKey(profs, keyOf, merge, |profs| - 1))
  {
    var n := |profs| - 1;
    var key := FilingKey(profs, keyOf, merge, n);
    forall j | 0 <= j < n ensures FilingKey(profs, keyOf, merge, j) != key {
      KeyFiled(profs[..n], keyOf, merge, j);
      FilingKeyPrefix(profs, keyOf, merge, n, j);
    }
  }

  /** The kept record is the first one filed under its key; merges change only
      the merged fields, so every other field of output record `k` is that
      first record's. */
  lemma DedupKeepsFirstRecord(profs: seq<Prof>, k: nat)
    requires k < |Deduplicated(profs)|
    ensures exists i: nat ::
      FirstFiledAt(profs, KeyFor, Merge, i, Keys(DedupEntries(profs))[k]) &&
      Deduplicated(profs)[k] - MergedKeys == profs[i] - MergedKeys
  {
    forall a, b ensures Merge(a, b) - MergedKeys == a - MergedKeys {
      MergeKeepsOthers(a, b);
    }
    DedupWithKeepsFirstRecord(profs, KeyFor, Merge, k);
  }

  /** The output has one record per identity key, at most one per input
      record. */
  lemma DeduplicatedKeys(profs: seq<Prof>)
    ensures Sorting.NoDuplicates(Keys(DedupEntries(profs)))
    ensures |Deduplicated(profs)| <= |profs|
  {
    DedupKeysDistinct(profs, KeyFor, Merge);
  }

  // A concrete run showing that de-duplication is not idempotent. The facts
  // are stated over variables where possible, so that the solver does not
  // unroll the recursive functions on the literals.

  /** A record named "x" with department `dept` and no e-mail. */
  function Named(dept: string): Prof {
    map["name" := "x", "department" := dept]
  }

  /** The composite key of such a record. */
  function NameDeptKey(dept: string): string {
    "name:x|dept:" + dept
  }

  lemma NormalizePlain(s: string)
    requires forall i :: 0 <= i < |s| ==> 'a' <= s[i] <= 'z' || s[i] == ' ' || s[i] == '|'
    requires s != [] ==> s[0] != ' ' && s[|s| - 1] != ' '
    ensures Normalize(s) == s
  {
    LowerNoCapitals(s);
    StripUnpadded(s);
  }

  lemma {:induction false} NotInfixLonger(p: string, s: string)
    requires |s| < |p|
    ensures !IsInfix(p, s)
    decreases |s|
  {
    if s != [] {
      NotInfixLonger(p, s[1..]);
    }
  }

  lemma NotInfixOneChar(p: string, s: string)
    requires |p| == 1 && |s| == 1 && p != s
    ensures !IsInfix(p, s)
  {
    NotInfixLonger(p, s[1..]);
  }

  lemma SplitOnShort(s: string, sep: string)
    requires sep != [] && |s| < |sep|
    ensures SplitOn(s, sep) == [s]
  {
    NotInfixLonger(sep, s);
  }

  lemma MergedDepartmentFrom(existing: string, incoming: string, parts: seq<string>)
    requires SplitOn(existing, " | ") + SplitOn(incoming, " | ") == parts
    requires Sorting.Distinct(parts) == parts && Without(parts, "") == parts && Sorting.Sorted(parts)
    ensures MergedDepartment(existing, incoming) == Join(parts, " | ")
  {
    Sorting.SortedUnique(DepartmentParts(existing, incoming), parts);
  }

  lemma MergedDepartmentAAB()
    ensures MergedDepartment("a", "ab") == "a | ab"
  {
    SplitsAAB();
    PartsAAB();
    MergedDepartmentFrom("a", "ab", ["a", "ab"]);
    JoinAAB();
  }

  lemma SplitsAAB()
    ensures SplitOn("a", " | ") + SplitOn("ab", " | ") == ["a", "ab"]
  {
    SplitOnShort("a", " | ");
    SplitOnShort("ab", " | ");
  }

  lemma JoinAAB()
    ensures Join(["a", "ab"], " | ") == "a | ab"
  {
    assert Join(["a", "ab"], " | ") == "a" + " | " + "ab";
  }

  lemma PartsAAB()
    ensures Sorting.Distinct(["a", "ab"]) == ["a", "ab"]
    ensures Without(["a", "ab"], "") == ["a", "ab"]
    ensures Sorting.Sorted(["a", "ab"])
  {
    var both := ["a", "ab"];
    assert Sorting.Distinct(both) == both by {
      assert both[..1] == ["a"] && both[..1][..0] == [];
    }
    assert Without(both, "") == both by {
      assert both[1..] == ["ab"];
    }
    assert Sorting.Less("a", "ab");
  }

  lemma SimilarNone(seen: seq<Entry>, name: string, dept: string)
    requires forall k :: 0 <= k < |seen| ==> !Matches(seen[k], name, dept)
    ensures SimilarKey(seen, name, dept) == None
  {
  }

  lemma SimilarAt(seen: seq<Entry>, name: string, dept: string, j: nat)
    requires j < |seen| && Matches(seen[j], name, dept)
    requires forall k :: 0 <= k < j ==> !Matches(seen[k], name, dept)
    ensures SimilarKey(seen, name, dept) == Some(seen[j].key)
  {
    FirstTrueAt(MatchFlags(seen, name, dept), j);
  }

  /** What the key choice reads from a record named "x" without e-mail. */
  lemma PlainFacts(p: Prof, d: string)
    requires "email" !in p && "name" in p && p["name"] == "x" && Get(p, "department") == d && Normalize(d) == d
    ensures Normalize(Get(p, "email")) == "" && Normalize(Get(p, "name")) == "x"
    ensures Normalize(Get(p, "department")) == d
  {
    NormalizePlain("");
    NormalizePlain("x");
  }

  lemma MatchesPlain(key: string, p: Prof, d: string, dept: string)
    requires "email" !in p && "name" in p && p["name"] == "x" && Get(p, "department") == d && Normalize(d) == d
    ensures Matches(Entry(key, p), "x", dept) <==> IsInfix(dept, d) || IsInfix(d, dept)
  {
    PlainFacts(p, d);
  }

  lemma KeyForNew(seen: seq<Entry>, p: Prof, d: string)
    requires "email" !in p && "name" in p && p["name"] == "x" && Get(p, "department") == d && Normalize(d) == d
    requires forall k :: 0 <= k < |seen| ==> !Matches(seen[k], "x", d)
    ensures KeyFor(seen, p) == NameDeptKey(d)
  {
    PlainFacts(p, d);
    SimilarNone(seen, "x", d);
  }

  lemma KeyForJoins(seen: seq<Entry>, p: Prof, d: string, j: nat)
    requires "email" !in p && "name" in p && p["name"] == "x" && Get(p, "department") == d && Normalize(d) == d
    requires j < |seen| && Matches(seen[j], "x", d) && seen[j].key != ""
    requires forall k :: 0 <= k < j ==> !Matches(seen[k], "x", d)
    ensures KeyFor(seen, p) == seen[j].key
  {
    PlainFacts(p, d);
    SimilarAt(seen, "x", d, j);
  }

  lemma DedupAppend(prefix: seq<Prof>, prof: Prof, seen: seq<Entry>, key: string, keyOf: KeyRule, merge: MergeRule)
    requires DedupWith(prefix, keyOf, merge) == seen && keyOf(seen, prof) == key && FindKey(seen, key) == None
    ensures DedupWith(prefix + [prof], keyOf, merge) == seen + [Entry(key, prof)]
  {
    assert (prefix + [prof])[..|prefix|] == prefix;
  }

  lemma DedupMergeInto(prefix: seq<Prof>, prof: Prof, seen: seq<Entry>, key: string, k: nat, keyOf: KeyRule, merge: MergeRule, merged: Prof)
    requires DedupWith(prefix, keyOf, merge) == seen && keyOf(seen, prof) == key && FindKey(seen, key) == Some(k)
    requires merge(seen[k].prof, prof) == merged
    ensures DedupWith(prefix + [prof], keyOf, merge) == seen[k := Entry(key, merged)]
  {
    assert (prefix + [prof])[..|prefix|] == prefix;
  }

  /** A merge with a record that has none of the scalar fields. */
  lemma MergeNoScalars(existing: Prof, incoming: Prof)
    requires forall k :: 0 <= k < |ScalarFields()| ==> Get(incoming, ScalarFields()[k]) == ""
    ensures Merge(existing, incoming)
         == existing["research_interests" := MergedInterests(Get(existing, "research_interests"), Get(incoming, "research_interests"))]
                    ["department" := MergedDepartment(Get(existing, "department"), Get(incoming, "department"))]
  {
    MergeFieldsNothingIncoming(existing, incoming, ScalarFields());
    MergeAfterFields(existing, incoming, MergeFields(existing, incoming, ScalarFields()));
  }

  lemma MergeAfterFields(existing: Prof, incoming: Prof, fields: Prof)
    requires fields == MergeFields(existing, incoming, ScalarFields())
    ensures Merge(existing, incoming)
         == fields["research_interests" := MergedInterests(Get(fields, "research_interests"), Get(incoming, "research_interests"))]
                  ["department" := MergedDepartment(Get(fields["research_interests" := MergedInterests(Get(fields, "research_interests"), Get(incoming, "research_interests"))], "department"), Get(incoming, "department"))]
  {
  }

  lemma MergedInterestsFromNothing(existing: string, incoming: string)
    requires existing == "" && incoming == ""
    ensures MergedInterests(existing, incoming) == ""
  {
    assert SplitOnClass("", InterestDelims) == [""];
    assert Sorting.Distinct(["", ""]) == [""] by {
      assert ["", ""][..1] == [""] && [""][..0] == [];
    }
    assert StrippedNonEmpty([""]) == [];
  }

  /** The merge of `Named("ab")` into `Named("a")`. */
  function MergedAAB(): Prof {
    Named("a")["research_interests" := ""]["department" := "a | ab"]
  }

  lemma MergeAAB()
    ensures Merge(Named("a"), Named("ab")) == MergedAAB()
  {
    MergeNoScalars(Named("a"), Named("ab"));
    MergedInterestsFromNothing(Get(Named("a"), "research_interests"), Get(Named("ab"), "research_interests"));
    MergedDepartmentAAB();
  }

  /** Three records where the third joins the first: the loop over any key
      and merge rules. */
  lemma DedupThreeJoinFirst(a: Prof, b: Prof, c: Prof, keyOf: KeyRule, merge: MergeRule, ka: string, kb: string, m: Prof)
    requires keyOf([], a) == ka
    requires keyOf([Entry(ka, a)], b) == kb && kb != ka
    requires keyOf([Entry(ka, a), Entry(kb, b)], c) == ka
    requires merge(a, c) == m
    ensures DedupWith([a, b, c], keyOf, merge) == [Entry(ka, m), Entry(kb, b)]
  {
    DedupAppend([], a, [], ka, keyOf, merge);
    assert [] + [a] == [a];
    var s1 := [Entry(ka, a)];
    DedupAppend([a], b, s1, kb, keyOf, merge);
    assert [a] + [b] == [a, b];
    var s2 := [Entry(ka, a), Entry(kb, b)];
    assert FindKey(s2, ka) == Some(0) by {
      assert s2[..1] == s1;
    }
    DedupMergeInto([a, b], c, s2, ka, 0, keyOf, merge, m);
    assert [a, b] + [c] == [a, b, c];
  }

  /** Two records where the second joins the first. */
  lemma DedupTwoJoinFirst(a: Prof, b: Prof, keyOf: KeyRule, merge: MergeRule, ka: string, m: Prof)
    requires keyOf([], a) == ka
    requires keyOf([Entry(ka, a)], b) == ka
    requires merge(a, b) == m
    ensures DedupWith([a, b], keyOf, merge) == [Entry(ka, m)]
  {
    DedupAppend([], a, [], ka, keyOf, merge);
    assert [] + [a] == [a];
    var s1 := [Entry(ka, a)];
    DedupMergeInto([a], b, s1, ka, 0, keyOf, merge, m);
    assert [a] + [b] == [a, b];
  }

  lemma KeyOfA()
    ensures KeyFor([], Named("a")) == NameDeptKey("a")
  {
    NormalizePlain("a");
    KeyForNew([], Named("a"), "a");
  }

  lemma KeyOfB()
    ensures KeyFor([Entry(NameDeptKey("a"), Named("a"))], Named("b")) == NameDeptKey("b")
  {
    NormalizePlain("a");
    NormalizePlain("b");
    MatchesPlain(NameDeptKey("a"), Named("a"), "a", "b");
    NotInfixOneChar("b", "a");
    NotInfixOneChar("a", "b");
    KeyForNew([Entry(NameDeptKey("a"), Named("a"))], Named("b"), "b");
  }

  lemma KeyOfAB()
    ensures KeyFor([Entry(NameDeptKey("a"), Named("a")), Entry(NameDeptKey("b"), Named("b"))], Named("ab")) == NameDeptKey("a")
  {
    NormalizePlain("a");
    NormalizePlain("ab");
    MatchesPlain(NameDeptKey("a"), Named("a"), "a", "ab");
    assert "a" <= "ab";
    KeyForJoins([Entry(NameDeptKey("a"), Named("a")), Entry(NameDeptKey("b"), Named("b"))], Named("ab"), "ab", 0);
  }

  lemma KeyOfMerged()
    ensures KeyFor([], MergedAAB()) == NameDeptKey("a | ab")
  {
    NormalizePlain("a | ab");
    KeyForNew([], MergedAAB(), "a | ab");
  }

  lemma KeyOfBAfterMerged()
    ensures KeyFor([Entry(NameDeptKey("a | ab"), MergedAAB())], Named("b")) == NameDeptKey("a | ab")
  {
    NormalizePlain("b");
    NormalizePlain("a | ab");
    MatchesPlain(NameDeptKey("a | ab"), MergedAAB(), "a | ab", "b");
    InfixBInMerged();
    KeyForJoins([Entry(NameDeptKey("a | ab"), MergedAAB())], Named("b"), "b", 0);
  }

  lemma InfixBInMerged()
    ensures IsInfix("b", "a | ab")
  {
    assert "b" <= "a | ab"[5..];
    assert "a | ab"[1..][1..][1..][1..][1..] == "a | ab"[5..];
  }

  lemma KeysDiffer()
    ensures NameDeptKey("b") != NameDeptKey("a")
  {
    assert NameDeptKey("b")[12] != NameDeptKey("a")[12];
  }

  lemma FirstPass()
    ensures DedupEntries([Named("a"), Named("b"), Named("ab")])
         == [Entry(NameDeptKey("a"), MergedAAB()), Entry(NameDeptKey("b"), Named("b"))]
  {
    KeyOfA();
    KeyOfB();
    KeysDiffer();
    KeyOfAB();
    MergeAAB();
    DedupThreeJoinFirst(Named("a"), Named("b"), Named("ab"), KeyFor, Merge,
      NameDeptKey("a"), NameDeptKey("b"), MergedAAB());
  }

  lemma SecondPass()
    ensures |DedupEntries([MergedAAB(), Named("b")])| == 1
  {
    KeyOfMerged();
    KeyOfBAfterMerged();
    DedupTwoJoinFirst(MergedAAB(), Named("b"), KeyFor, Merge,
      NameDeptKey("a | ab"), Merge(MergedAAB(), Named("b")));
  }

  /** De-duplication is not idempotent: with no e-mails and the departments
      "a", "b" and "ab", one pass leaves two records and a second pass merges
      them, since "b" lies inside the merged department "a | ab". */
  lemma DedupNotIdempotent()
    ensures |Deduplicated([Named("a"), Named("b"), Named("ab")])| == 2
    ensures |Deduplicated(Deduplicated([Named("a"), Named("b"), Named("ab")]))| == 1
  {
    FirstPassValues();
    SecondPass();
  }

  lemma FirstPassValues()
    ensures Deduplicated([Named("a"), Named("b"), Named("ab")]) == [MergedAAB(), Named("b")]
  {
    FirstPass();
  }

  // ---------------------------------------------------------------------------
  // merge_professor_lists

  /** The lists one after the other. */
  function Flatten(lists: seq<seq<Prof>>): seq<Prof> {
    if lists == [] then [] else Flatten(lists[..|lists| - 1]) + lists[|lists| - 1]
  }

  /** `merge_professor_lists(list_of_lists)`. */
  method MergeProfessorLists(lists: seq<seq<Prof>>) returns (merged: seq<Prof>)
    ensures merged == Flatten(lists)
  {
    merged := [];
    var i := 0;
    while i < |lists|
      invariant 0 <= i <= |lists|
      invariant merged == Flatten(lists[..i])
    {
      assert lists[..i + 1][..i] == lists[..i];
      merged := merged + lists[i];
      i := i + 1;
    }
    assert lists[..|lists|] == lists;
  }

  /** Merging two groups of lists appends their merges. */
  lemma {:induction false} FlattenAppend(a: seq<seq<Prof>>, b: seq<seq<Prof>>)
    ensures Flatten(a + b) == Flatten(a) + Flatten(b)
    decreases |b|
  {
    if b == [] {
      assert a + b == a;
    } else {
      assert (a + b)[..|a + b| - 1] == a + b[..|b| - 1];
      FlattenAppend(a, b[..|b| - 1]);
    }
  }

  /** Every record of every list appears, list after list, and nothing else. */
  lemma {:induction false} FlattenIndex(lists: seq<seq<Prof>>, i: nat, j: nat)
    requires i < |lists| && j < |lists[i]|
    ensures |Flatten(lists[..i])| + j < |Flatten(lists)|
    ensures Flatten(lists)[|Flatten(lists[..i])| + j] == lists[i][j]
  {
    assert lists == lists[..i] + [lists[i]] + lists[i + 1..];
    FlattenAppend(lists[..i] + [lists[i]], lists[i + 1..]);
    assert (lists[..i] + [lists[i]])[..i] == lists[..i];
  }
}
