/** The corpus pipeline of `recommender.py`: loading the per-institute JSON
    files, the DataFrame clean-up (duplicate removal on name and department,
    interest tagging, document texts) and the retrieval that maps ranked
    document texts back to faculty records.

    The vector store is not modelled: a search is an abstract ranked list of
    document texts (`Search`), and the store handle is an `Option`. */
module Recommender {
  import opened Wrappers
  import opened Json
  import opened Strings
  import Sorting

  // ---------------------------------------------------------------------------
  // infer_college_name

  /** The file-name keys and institute labels, in the order the table is
      iterated. */
  const CollegeTable: seq<(string, string)> := [
    ("iitgn", "IIT Gandhinagar"),
    ("iitj", "IIT Jodhpur"),
    ("iitg", "IIT Guwahati"),
    ("iitr", "IIT Roorkee"),
    ("iitbhu", "IIT BHU (Varanasi)"),
    ("iith", "IIT Hyderabad"),
    ("iiti", "IIT Indore"),
    ("iitd", "IIT Delhi")
  ]

  /** Key `m` is the first table key, from position `k` on, that occurs in `lname`. */
  predicate FirstKeyFrom(lname: string, k: nat, m: nat)
    requires k <= m < |CollegeTable|
  {
    IsInfix(CollegeTable[m].0, lname)
    && forall j :: k <= j < m ==> !IsInfix(CollegeTable[j].0, lname)
  }

  /** The lookup loop of `infer_college_name` from table position `k` on. */
  function LabelFrom(lname: string, k: nat): (r: string)
    requires k <= |CollegeTable|
    ensures forall m :: k <= m < |CollegeTable| && FirstKeyFrom(lname, k, m) ==> r == CollegeTable[m].1
    ensures (forall j :: k <= j < |CollegeTable| ==> !IsInfix(CollegeTable[j].0, lname)) ==> r == "Unknown"
    decreases |CollegeTable| - k
  {
    if k == |CollegeTable| then "Unknown"
    else if IsInfix(CollegeTable[k].0, lname) then CollegeTable[k].1
    else
      var r := LabelFrom(lname, k + 1);
      assert forall m :: k + 1 <= m < |CollegeTable| && FirstKeyFrom(lname, k, m) ==> FirstKeyFrom(lname, k + 1, m);
      r
  }

  /** The institute label of a data file: the label of the first table key that
      occurs in the lower-cased file name, else "Unknown". */
  function InferCollegeName(filename: string): (r: string)
    ensures forall m :: 0 <= m < |CollegeTable| && FirstKeyFrom(Lower(filename), 0, m) ==> r == CollegeTable[m].1
    ensures (forall j :: 0 <= j < |CollegeTable| ==> !IsInfix(CollegeTable[j].0, Lower(filename))) ==> r == "Unknown"
  {
    LabelFrom(Lower(filename), 0)
  }

  /** "iitgn" is tried before "iitg": a Gandhinagar file is never labelled
      Guwahati. */
  lemma GandhinagarBeforeGuwahati(filename: string)
    requires IsInfix("iitgn", Lower(filename))
    ensures InferCollegeName(filename) == "IIT Gandhinagar"
  {
    assert FirstKeyFrom(Lower(filename), 0, 0);
  }

  /** A file whose name holds "iitg" but neither "iitgn" nor "iitj" is a
      Guwahati file. */
  lemma GuwahatiFile(filename: string)
    requires IsInfix("iitg", Lower(filename))
    requires !IsInfix("iitgn", Lower(filename)) && !IsInfix("iitj", Lower(filename))
    ensures InferCollegeName(filename) == "IIT Guwahati"
  {
    assert FirstKeyFrom(Lower(filename), 0, 2);
  }

  // ---------------------------------------------------------------------------
  // load_all_faculty_data

  /** A file of the faculty folder: its name and the value `json.load` gave,
      or `None` when parsing raised. */
  datatype SourceFile = SourceFile(name: string, parsed: Option<Json>)

  /** The keys that loading back-fills. */
  const DefaultKeys: set<string> := {
    "profile_url", "photo", "academic_background", "work_experience", "selected_publications",
    "research_interests", "name", "department"
  }

  /** The default of each back-filled key: "#" for the profile URL, the empty
      string for the others. */
  function DefaultFor(key: string): Option<Json> {
    if key == "profile_url" then Some(Str("#"))
    else if key in DefaultKeys then Some(Str(""))
    else None
  }

  /** One loaded record: `college_name` overwritten with the file's label,
      missing default keys filled in, everything else kept. */
  function NormalizeRecord(prof: Record, college: string): (r: Record)
    ensures r.Keys == prof.Keys + DefaultKeys + {"college_name"}
    ensures r["college_name"] == Str(college)
    ensures forall k :: k in prof && k != "college_name" ==> r[k] == prof[k]
    ensures forall k :: k in DefaultKeys && k !in prof ==> Some(r[k]) == DefaultFor(k)
  {
    var withCollege := prof["college_name" := Str(college)];
    assert withCollege.Keys == prof.Keys + {"college_name"};
    var r := map k | k in withCollege.Keys + DefaultKeys ::
      if k in withCollege then withCollege[k] else DefaultFor(k).GetOr(Str(""));
    assert r.Keys == withCollege.Keys + DefaultKeys;
    r
  }

  /** The records one parsed value contributes: a dict entry becomes a record,
      anything else is skipped. Defined element by element from the back, as
      the loop appends. */
  function ItemRecords(items: seq<Json>, college: string): (r: seq<Record>)
    ensures |r| <= |items|
    ensures forall i :: 0 <= i < |r| ==>
      "college_name" in r[i] && r[i]["college_name"] == Str(college) && DefaultKeys <= r[i].Keys
  {
    if items == [] then []
    else
      var last := items[|items| - 1];
      ItemRecords(items[..|items| - 1], college)
        + (if last.Obj? then [NormalizeRecord(last.fields, college)] else [])
  }

  /** The items of a parsed file: a list as it is, any other value as a
      one-element list. */
  function Items(v: Json): seq<Json> {
    if v.Arr? then v.items else [v]
  }

  /** The records one file contributes. */
  function FileRecords(f: SourceFile): seq<Record> {
    if !EndsWith(f.name, ".json") || f.parsed.None? then []
    else ItemRecords(Items(f.parsed.value), InferCollegeName(f.name))
  }

  /** The records a full load of the folder appends, file after file. */
  function LoadedRecords(files: seq<SourceFile>): seq<Record> {
    if files == [] then []
    else LoadedRecords(files[..|files| - 1]) + FileRecords(files[|files| - 1])
  }

  /** The module-level list `all_faculty_data` and the loader that fills it. */
  class FacultyData {
    var allFacultyData: seq<Record>

    constructor ()
      ensures allFacultyData == []
    {
      allFacultyData := [];
    }

    /** Loads every file of the folder (`None` when the folder does not exist)
        unless data is already loaded. */
    method LoadAllFacultyData(folder: Option<seq<SourceFile>>) returns (r: seq<Record>)
      modifies this
      ensures old(allFacultyData) != [] ==> allFacultyData == old(allFacultyData)
      ensures old(allFacultyData) == [] && folder.None? ==> allFacultyData == [] && r == []
      ensures old(allFacultyData) == [] && folder.Some? ==> allFacultyData == LoadedRecords(folder.value)
      ensures folder.Some? || old(allFacultyData) != [] ==> r == allFacultyData
    {
      if allFacultyData != [] {
        return allFacultyData;
      }
      if folder.None? {
        return [];
      }
      var files := folder.value;
      var i := 0;
      while i < |files|
        invariant 0 <= i <= |files|
        invariant allFacultyData == LoadedRecords(files[..i])
      {
        var file := files[i];
        assert files[..i + 1][..i] == files[..i];
        if EndsWith(file.name, ".json") && file.parsed.Some? {
          AppendItems(Items(file.parsed.value), InferCollegeName(file.name));
        }
        i := i + 1;
      }
      assert files[..|files|] == files;
      r := allFacultyData;
    }

    /** The inner loop of the loader: appends a record for every dict item. */
    method AppendItems(data: seq<Json>, college: string)
      modifies this
      ensures allFacultyData == old(allFacultyData) + ItemRecords(data, college)
    {
      ghost var start := allFacultyData;
      var j := 0;
      while j < |data|
        invariant 0 <= j <= |data|
        invariant allFacultyData == start + ItemRecords(data[..j], college)
      {
        ItemRecordsNext(start, data, j, college);
        if data[j].Obj? {
          allFacultyData := allFacultyData + [NormalizeRecord(data[j].fields, college)];
        }
        j := j + 1;
      }
      assert data[..|data|] == data;
    }
  }

  /** One more item adds its record, if it is a dict, after the others. */
  lemma ItemRecordsNext(start: seq<Record>, data: seq<Json>, j: nat, college: string)
    requires j < |data|
    ensures start + ItemRecords(data[..j + 1], college)
         == start + ItemRecords(data[..j], college) + (if data[j].Obj? then [NormalizeRecord(data[j].fields, college)] else [])
  {
    assert data[..j + 1][..j] == data[..j];
  }

  /** Loading two groups of files appends their records. */
  lemma {:induction false} LoadedRecordsAppend(a: seq<SourceFile>, b: seq<SourceFile>)
    ensures LoadedRecords(a + b) == LoadedRecords(a) + LoadedRecords(b)
    decreases |b|
  {
    if b == [] {
      assert a + b == a;
    } else {
      var b' := b[..|b| - 1];
      assert (a + b)[..|a + b| - 1] == a + b';
      LoadedRecordsAppend(a, b');
    }
  }

  /** A file that fails to parse, or whose name does not end in ".json",
      contributes nothing, and the files around it still load. */
  lemma SkippedFileLeavesOthers(before: seq<SourceFile>, f: SourceFile, after: seq<SourceFile>)
    requires f.parsed.None? || !EndsWith(f.name, ".json")
    ensures LoadedRecords(before + [f] + after) == LoadedRecords(before) + LoadedRecords(after)
  {
    var x := before + [f];
    assert LoadedRecords(x) == LoadedRecords(before) by {
      assert x[..|x| - 1] == before;
    }
    LoadedRecordsAppend(x, after);
  }

  /** A file holding one JSON object (not a list) yields exactly that object as
      one normalised record. */
  lemma SingleObjectFile(name: string, fields: Record)
    requires EndsWith(name, ".json")
    ensures FileRecords(SourceFile(name, Some(Obj(fields))))
         == [NormalizeRecord(fields, InferCollegeName(name))]
  {
    assert [Obj(fields)][..0] == [];
  }

  // ---------------------------------------------------------------------------
  // The DataFrame: text columns and drop_duplicates(subset=["name", "department"])

  /** One DataFrame row: the loaded record and its three text columns after
      `fillna("").astype(str)`. */
  datatype Row = Row(record: Record, name: string, department: string, interests: string)

  /** `str()` of a JSON scalar as pandas renders a non-null cell; containers are
      rendered by a fixed placeholder (see README). */
  function CellText(v: Json): string {
    match v
    case Null => ""
    case Str(s) => s
    case Bool(b) => if b then "True" else "False"
    case Num(n) => if n < 0 then "-" + NatToString(-n) else NatToString(n)
    case Arr(_) => "[...]"
    case Obj(_) => "{...}"
  }

  /** A column cell: missing keys are NaN, and NaN becomes "". */
  function Text(prof: Record, key: string): string {
    if key in prof then CellText(prof[key]) else ""
  }

  function ToRow(prof: Record): Row {
    Row(prof, Text(prof, "name"), Text(prof, "department"), Text(prof, "research_interests"))
  }

  function Frame(all: seq<Record>): (rows: seq<Row>)
    ensures |rows| == |all|
    ensures forall i :: 0 <= i < |all| ==> rows[i] == ToRow(all[i])
  {
    seq(|all|, i requires 0 <= i < |all| => ToRow(all[i]))
  }

  predicate SameKey(a: Row, b: Row) {
    a.name == b.name && a.department == b.department
  }

  /** Row `i` is the first row with its (name, department). */
  predicate IsFirstOccurrence(rows: seq<Row>, i: nat)
    requires i < |rows|
  {
    forall j :: 0 <= j < i ==> !SameKey(rows[j], rows[i])
  }

  /** Some row of `rows` has the (name, department) of `row`. */
  predicate HasKeyOf(rows: seq<Row>, row: Row) {
    exists k :: 0 <= k < |rows| && SameKey(rows[k], row)
  }

  /** `drop_duplicates(subset=["name", "department"], keep="first")`. */
  function DropDuplicates(rows: seq<Row>): (r: seq<Row>)
    ensures |r| <= |rows|
  {
    if rows == [] then []
    else
      var kept := DropDuplicates(rows[..|rows| - 1]);
      var last := rows[|rows| - 1];
      if HasKeyOf(kept, last) then kept else kept + [last]
  }

  /** The indices `drop_duplicates` keeps: the first occurrences, ascending. */
  function KeptIndices(rows: seq<Row>): (ks: seq<nat>)
    ensures forall k :: 0 <= k < |ks| ==> ks[k] < |rows|
  {
    if rows == [] then []
    else
      var n := |rows| - 1;
      KeptIndices(rows[..n]) + (if IsFirstOccurrence(rows, n) then [n] else [])
  }

  lemma PrefixFirstOccurrence(rows: seq<Row>, n: nat)
    requires n <= |rows|
    ensures forall i :: 0 <= i < n ==> (IsFirstOccurrence(rows[..n], i) <==> IsFirstOccurrence(rows, i))
  {
    assert forall i :: 0 <= i < n ==> rows[..n][i] == rows[i];
  }

  /** The kept indices are ascending and are exactly the first occurrences. */
  lemma {:induction false} KeptIndicesAreFirstOccurrences(rows: seq<Row>)
    ensures forall k :: 0 <= k < |KeptIndices(rows)| ==> IsFirstOccurrence(rows, KeptIndices(rows)[k])
    ensures forall k, l :: 0 <= k < l < |KeptIndices(rows)| ==> KeptIndices(rows)[k] < KeptIndices(rows)[l]
    ensures forall i :: 0 <= i < |rows| && IsFirstOccurrence(rows, i) ==> i in KeptIndices(rows)
  {
    if rows != [] {
      var n := |rows| - 1;
      KeptIndicesAreFirstOccurrences(rows[..n]);
      PrefixFirstOccurrence(rows, n);
      var ks0 := KeptIndices(rows[..n]);
      var ks := KeptIndices(rows);
      assert forall k :: 0 <= k < |ks0| ==> ks[k] == ks0[k] && ks0[k] < n;
      forall k | 0 <= k < |ks| ensures IsFirstOccurrence(rows, ks[k]) {
        if k < |ks0| {
          assert IsFirstOccurrence(rows[..n], ks0[k]);
        }
      }
      forall i | 0 <= i < |rows| && IsFirstOccurrence(rows, i) ensures i in ks {
        if i < n {
          assert IsFirstOccurrence(rows[..n], i);
          assert i in ks0;
        }
      }
    }
  }

  /** `drop_duplicates` keeps the rows at the kept indices, in order, and no two
      of them share a (name, department). */
  lemma {:induction false} DropDuplicatesKeepsFirst(rows: seq<Row>)
    ensures var r := DropDuplicates(rows); var ks := KeptIndices(rows);
      && |r| == |ks|
      && (forall k :: 0 <= k < |ks| ==> r[k] == rows[ks[k]])
      && (forall k, l :: 0 <= k < l < |r| ==> !SameKey(r[k], r[l]))
  {
    if rows != [] {
      var n := |rows| - 1;
      var init := rows[..n];
      DropDuplicatesKeepsFirst(init);
      KeptIndicesAreFirstOccurrences(init);
      PrefixFirstOccurrence(rows, n);
      var kept := DropDuplicates(init);
      var ks0 := KeptIndices(init);
      assert forall k :: 0 <= k < |ks0| ==> kept[k] == rows[ks0[k]];
      if HasKeyOf(kept, rows[n]) {
        var k :| 0 <= k < |kept| && SameKey(kept[k], rows[n]);
        assert !IsFirstOccurrence(rows, n);
      } else {
        assert IsFirstOccurrence(rows, n) by {
          forall j | 0 <= j < n ensures !SameKey(rows[j], rows[n]) {
            DropDuplicatesCoversKeys(init);
            assert HasKeyOf(kept, init[j]);
            var k :| 0 <= k < |kept| && SameKey(kept[k], init[j]);
          }
        }
      }
    }
  }

  /** Every (name, department) of the input is still present afterwards. */
  lemma {:induction false} DropDuplicatesCoversKeys(rows: seq<Row>)
    ensures forall i :: 0 <= i < |rows| ==> HasKeyOf(DropDuplicates(rows), rows[i])
  {
    if rows != [] {
      var n := |rows| - 1;
      DropDuplicatesCoversKeys(rows[..n]);
      var kept := DropDuplicates(rows[..n]);
      var r := DropDuplicates(rows);
      assert forall k :: 0 <= k < |kept| ==> r[k] == kept[k];
      forall i | 0 <= i < |rows| ensures HasKeyOf(r, rows[i]) {
        if i < n {
          assert rows[..n][i] == rows[i];
          assert HasKeyOf(kept, rows[..n][i]);
          var k :| 0 <= k < |kept| && SameKey(kept[k], rows[..n][i]);
          assert SameKey(r[k], rows[i]);
        } else if HasKeyOf(kept, rows[n]) {
          var k :| 0 <= k < |kept| && SameKey(kept[k], rows[n]);
          assert SameKey(r[k], rows[i]);
        } else {
          assert SameKey(r[|kept|], rows[i]);
        }
      }
    }
  }

  // ---------------------------------------------------------------------------
  // Tagging: cleaned interests and pd.factorize

  const Sentinel: string := "no research interests specified"

  /** `research_interests` with "" replaced by the sentinel. */
  function Cleaned(row: Row): (c: string)
    ensures c != ""
  {
    if row.interests == "" then Sentinel else row.interests
  }

  /** The position of `v` in a list that holds it. */
  function PositionOf(us: seq<string>, v: string): (p: nat)
    requires v in us
    ensures p < |us| && us[p] == v
    ensures forall q :: 0 <= q < p ==> us[q] != v
  {
    if us[0] == v then 0 else 1 + PositionOf(us[1..], v)
  }

  /** The uniques of `pd.factorize(values)`: the distinct values in order of
      first appearance. */
  function Uniques(values: seq<string>): seq<string> {
    Sorting.Distinct(values)
  }

  /** The codes of `pd.factorize(values)`: each value's position among the
      uniques. */
  function Tags(values: seq<string>): (tags: seq<nat>)
    ensures |tags| == |values|
  {
    seq(|values|, i requires 0 <= i < |values| => PositionOf(Uniques(values), values[i]))
  }

  /** The values seen before position `i` form a prefix of the unique list. */
  lemma {:induction false} DistinctPrefix(values: seq<string>, i: nat)
    requires i <= |values|
    ensures Sorting.Distinct(values[..i]) <= Sorting.Distinct(values)
    decreases |values| - i
  {
    if i < |values| {
      DistinctPrefix(values, i + 1);
      var pre := values[..i + 1];
      assert pre[..|pre| - 1] == values[..i];
    } else {
      assert values[..i] == values;
    }
  }

  /** Tags of `pd.factorize`: every tag names the unique value of its row, and
      every unique value is carried by some row. */
  lemma FactorizeCovers(values: seq<string>)
    ensures forall i {:trigger values[i]} :: 0 <= i < |values| ==>
      Tags(values)[i] < |Uniques(values)| && Uniques(values)[Tags(values)[i]] == values[i]
    ensures forall t :: 0 <= t < |Uniques(values)| ==>
      exists i :: 0 <= i < |values| && values[i] == Uniques(values)[t] && Tags(values)[i] == t
  {
    var tags, uniques := Tags(values), Uniques(values);
    forall t | 0 <= t < |uniques|
      ensures exists i :: 0 <= i < |values| && values[i] == uniques[t] && tags[i] == t
    {
      assert uniques[t] in values;
      var i :| 0 <= i < |values| && values[i] == uniques[t];
      assert tags[i] == PositionOf(uniques, values[i]);
      assert Sorting.NoDuplicates(uniques);
    }
  }

  /** Two rows share a tag exactly when their values are equal. */
  lemma FactorizeSameTag(values: seq<string>, i: nat, j: nat)
    requires i < |values| && j < |values|
    ensures Tags(values)[i] == Tags(values)[j] <==> values[i] == values[j]
  {
    FactorizeCovers(values);
  }

  /** A value first seen at position `i` gets the next unused tag: the number of
      distinct values before it. */
  lemma FactorizeFirstAppearance(values: seq<string>, i: nat)
    requires i < |values| && values[i] !in values[..i]
    ensures Tags(values)[i] == |Uniques(values[..i])|
  {
    var uniques := Uniques(values);
    var before := Uniques(values[..i]);
    var upto := values[..i + 1];
    assert upto[..i] == values[..i];
    assert Uniques(upto) == before + [values[i]];
    DistinctPrefix(values, i + 1);
    assert uniques[|before|] == values[i];
    assert values[i] !in before;
    assert forall q :: 0 <= q < |before| ==> uniques[q] == before[q];
  }

  // ---------------------------------------------------------------------------
  // Document texts

  /** `str(tag) + " " + cleaned`, then every backslash-comma replaced by a
      comma. */
  function DocumentText(tag: nat, cleaned: string): string {
    ReplaceAll(NatToString(tag) + " " + cleaned, "\\,", ",")
  }

  /** The placeholder document used when the frame has no rows. */
  const PlaceholderDocument: string := "0 no research interests specified"

  /** The document list: one text per row, or the placeholder alone. */
  function Documents(cleaned: seq<string>, tags: seq<nat>): (docs: seq<string>)
    requires |cleaned| == |tags|
    ensures |docs| == if cleaned == [] then 1 else |cleaned|
  {
    if cleaned == [] then [PlaceholderDocument]
    else seq(|cleaned|, i requires 0 <= i < |cleaned| => DocumentText(tags[i], cleaned[i]))
  }

  /** The text of a document is its tag in decimal, one space, and the cleaned
      interests with `\,` turned into `,`: the replacement never reaches the tag. */
  lemma DocumentTextShape(tag: nat, cleaned: string)
    ensures DocumentText(tag, cleaned) == NatToString(tag) + " " + ReplaceAll(cleaned, "\\,", ",")
  {
    var p := NatToString(tag) + " ";
    assert forall c :: c in p ==> c != '\\';
    ReplaceAllPrefix(p, cleaned, "\\,", ",");
  }

  /** The in-memory corpus that the module builds once from the loaded data. */
  datatype Corpus = Corpus(
    rows: seq<Row>,
    cleaned: seq<string>,
    tags: seq<nat>,
    uniques: seq<string>,
    documents: seq<string>)

  ghost predicate WellFormed(c: Corpus) {
    && |c.cleaned| == |c.rows| == |c.tags|
    && (forall i :: 0 <= i < |c.rows| ==> c.cleaned[i] == Cleaned(c.rows[i]))
    && c.tags == Tags(c.cleaned)
    && c.uniques == Uniques(c.cleaned)
    && c.documents == Documents(c.cleaned, c.tags)
  }

  /** The corpus derived from the loaded records: rows with duplicates on
      (name, department) dropped, cleaned interests, tags and documents. */
  function BuildCorpus(all: seq<Record>): (c: Corpus)
    ensures WellFormed(c)
    ensures c.rows == DropDuplicates(Frame(all))
  {
    var rows := DropDuplicates(Frame(all));
    var cleaned := seq(|rows|, i requires 0 <= i < |rows| => Cleaned(rows[i]));
    var tags := Tags(cleaned);
    Corpus(rows, cleaned, tags, Uniques(cleaned), Documents(cleaned, tags))
  }

  /** Each row yields exactly one document, carrying its own tag; with no rows
      there is the single placeholder. */
  lemma OneDocumentPerRow(c: Corpus)
    requires WellFormed(c)
    ensures c.rows == [] ==> c.documents == [PlaceholderDocument]
    ensures c.rows != [] ==> |c.documents| == |c.rows|
    ensures forall i :: 0 <= i < |c.rows| ==>
      c.documents[i] == NatToString(c.tags[i]) + " " + ReplaceAll(c.cleaned[i], "\\,", ",")
  {
    forall i | 0 <= i < |c.rows|
      ensures c.documents[i] == NatToString(c.tags[i]) + " " + ReplaceAll(c.cleaned[i], "\\,", ",")
    {
      DocumentTextShape(c.tags[i], c.cleaned[i]);
    }
  }

  /** Records without interests all share the sentinel's tag. */
  lemma NoInterestsShareTag(c: Corpus, i: nat, j: nat)
    requires WellFormed(c)
    requires i < |c.rows| && j < |c.rows|
    requires c.rows[i].interests == "" && c.rows[j].interests == ""
    ensures c.tags[i] == c.tags[j]
  {
    FactorizeSameTag(c.cleaned, i, j);
  }

  // ---------------------------------------------------------------------------
  // Retrieval

  /** `s.split()[0]`: the first whitespace-separated token, `None` when there is
      none (the `IndexError` the loop catches). */
  function FirstToken(s: string): Option<string> {
    var t := LStripSet(s, Whitespace);
    if t == [] then None else Some(TakeWord(t))
  }

  /** The longest prefix without whitespace. */
  function TakeWord(s: string): (w: string)
    ensures w <= s
    ensures forall c :: c in w ==> c !in Whitespace
  {
    if s == [] || s[0] in Whitespace then [] else [s[0]] + TakeWord(s[1..])
  }

  /** The tag a search hit names: strip double quotes, take the first token, and
      read it when it is all digits; `None` when the loop skips the hit. */
  function HitTag(hit: string): Option<nat> {
    var content := StripSet(hit, {'"'});
    if content == [] then None
    else match FirstToken(content)
      case None => None
      case Some(token) => if IsDigits(token) then Some(ParseDigits(token)) else None
  }

  /** `"` is stripped from the right only: the digits and the space survive. */
  lemma {:induction false} RStripQuotesKeepsHead(head: string, rest: string)
    requires head != [] && '"' !in head && forall c :: c in head ==> c !in Whitespace
    requires head[|head| - 1] != '"'
    ensures exists r' :: RStripSet(head + " " + rest, {'"'}) == head + " " + r'
    decreases |rest|
  {
    var s := head + " " + rest;
    if rest != [] && rest[|rest| - 1] == '"' {
      assert s[..|s| - 1] == head + " " + rest[..|rest| - 1];
      RStripQuotesKeepsHead(head, rest[..|rest| - 1]);
    } else {
      assert RStripSet(s, {'"'}) == head + " " + rest;
    }
  }

  lemma {:induction false} TakeWordOfHead(head: string, rest: string)
    requires forall c :: c in head ==> c !in Whitespace
    ensures TakeWord(head + " " + rest) == head
    decreases |head|
  {
    if head == [] {
      assert (head + " " + rest)[0] == ' ';
    } else {
      assert (head + " " + rest)[1..] == head[1..] + " " + rest;
      assert forall c :: c in head[1..] ==> c in head;
      TakeWordOfHead(head[1..], rest);
    }
  }

  /** Decimal digits are neither quotes nor whitespace. */
  lemma DigitsPlain(digits: string)
    requires IsDigits(digits)
    ensures digits != [] && '"' !in digits && digits[0] != '"' && digits[|digits| - 1] != '"'
    ensures forall c :: c in digits ==> c !in Whitespace
  {
    forall c | c in digits ensures c !in Whitespace && c != '"' {
      assert IsDigit(c);
    }
  }

  /** Round trip: the hit a document text produces reads back as its tag. */
  lemma DocumentTagRoundTrip(tag: nat, cleaned: string)
    ensures HitTag(DocumentText(tag, cleaned)) == Some(tag)
  {
    DocumentTextShape(tag, cleaned);
    var digits := NatToString(tag);
    var rest := ReplaceAll(cleaned, "\\,", ",");
    var doc := digits + " " + rest;
    DigitsPlain(digits);
    assert LStripSet(doc, {'"'}) == doc;
    RStripQuotesKeepsHead(digits, rest);
    var r' :| RStripSet(doc, {'"'}) == digits + " " + r';
    var content := digits + " " + r';
    assert StripSet(doc, {'"'}) == content;
    assert LStripSet(content, Whitespace) == content;
    TakeWordOfHead(digits, r');
    ParseNatToString(tag);
  }

  /** The tag each hit names, in hit order. */
  function ParsedHits(hits: seq<string>): (p: seq<Option<nat>>)
    ensures |p| == |hits|
    ensures forall j :: 0 <= j < |hits| ==> p[j] == HitTag(hits[j])
  {
    seq(|hits|, j requires 0 <= j < |hits| => HitTag(hits[j]))
  }

  /** Adds the tag a hit names when it is new and belongs to the corpus. */
  function AddTag(acc: seq<nat>, hit: Option<nat>, valid: set<nat>): seq<nat> {
    match hit
    case None => acc
    case Some(t) => if t !in acc && t in valid then acc + [t] else acc
  }

  /** Every valid tag named by the parsed hits, each once, in first-seen order
      after those already in `acc`. */
  function DistinctValidTags(parsed: seq<Option<nat>>, valid: set<nat>, acc: seq<nat>): seq<nat>
    decreases |parsed|
  {
    if parsed == [] then acc
    else DistinctValidTags(parsed[1..], valid, AddTag(acc, parsed[0], valid))
  }

  /** The collecting loop of `retrieve_symantic_recommendations` over the parsed
      hits: after a hit that names a tag it stops once `topK` tags are held. */
  function Collect(parsed: seq<Option<nat>>, valid: set<nat>, topK: int, acc: seq<nat>): seq<nat>
    decreases |parsed|
  {
    if parsed == [] then acc
    else match parsed[0]
      case None => Collect(parsed[1..], valid, topK, acc)
      case Some(t) =>
        var acc' := AddTag(acc, Some(t), valid);
        if |acc'| >= topK then acc' else Collect(parsed[1..], valid, topK, acc')
  }

  /** The loop itself: grows `ids` (and the `seen` set, which is always the set
      of `ids`) and breaks at `topK`. */
  method CollectTags(hits: seq<string>, valid: set<nat>, topK: int) returns (ids: seq<nat>)
    ensures ids == Collect(ParsedHits(hits), valid, topK, [])
  {
    ghost var parsed := ParsedHits(hits);
    ids := [];
    var seen: set<nat> := {};
    var i := 0;
    while i < |hits|
      invariant 0 <= i <= |hits|
      invariant forall t :: t in seen <==> t in ids
      invariant Collect(parsed, valid, topK, []) == Collect(parsed[i..], valid, topK, ids)
    {
      assert parsed[i..][1..] == parsed[i + 1..];
      var tag := HitTag(hits[i]);
      if tag.None? {
        i := i + 1;
        continue;
      }
      if tag.value !in seen && tag.value in valid {
        ids := ids + [tag.value];
        seen := seen + {tag.value};
      }
      if |ids| >= topK {
        return;
      }
      i := i + 1;
    }
  }

  function Take(s: seq<nat>, n: int): seq<nat> {
    if n <= 0 then [] else if n < |s| then s[..n] else s
  }

  lemma {:induction false} DistinctValidTagsExtends(parsed: seq<Option<nat>>, valid: set<nat>, acc: seq<nat>)
    ensures acc <= DistinctValidTags(parsed, valid, acc)
    decreases |parsed|
  {
    if parsed != [] {
      DistinctValidTagsExtends(parsed[1..], valid, AddTag(acc, parsed[0], valid));
    }
  }

  /** The loop collects exactly the first `topK` distinct valid tags. */
  lemma {:induction false} CollectTakesFirst(parsed: seq<Option<nat>>, valid: set<nat>, topK: int, acc: seq<nat>)
    requires topK >= 1 && |acc| < topK
    ensures Collect(parsed, valid, topK, acc) == Take(DistinctValidTags(parsed, valid, acc), topK)
    decreases |parsed|
  {
    if parsed != [] {
      var acc' := AddTag(acc, parsed[0], valid);
      if parsed[0].Some? && |acc'| >= topK {
        DistinctValidTagsExtends(parsed[1..], valid, acc');
        assert |acc'| == topK;
      } else {
        CollectTakesFirst(parsed[1..], valid, topK, acc');
      }
    }
  }

  /** Tags collected from the hits are distinct, belong to the corpus and are
      each named by some hit. */
  lemma {:induction false} DistinctValidTagsFacts(parsed: seq<Option<nat>>, valid: set<nat>, acc: seq<nat>)
    requires Sorting.NoDuplicates(acc) && forall t :: t in acc ==> t in valid
    ensures Sorting.NoDuplicates(DistinctValidTags(parsed, valid, acc))
    ensures forall t :: t in DistinctValidTags(parsed, valid, acc) ==> t in valid
    ensures forall t :: t in DistinctValidTags(parsed, valid, acc) && t !in acc ==> Some(t) in parsed
    decreases |parsed|
  {
    if parsed != [] {
      var acc' := AddTag(acc, parsed[0], valid);
      DistinctValidTagsFacts(parsed[1..], valid, acc');
      forall t | t in DistinctValidTags(parsed, valid, acc) && t !in acc ensures Some(t) in parsed {
        if t in acc' {
          assert parsed[0] == Some(t);
        } else {
          assert Some(t) in parsed[1..];
        }
      }
    }
  }

  /** The outcome of `similarity_search`: the ranked texts, or an exception. */
  datatype Search = Ranked(docs: seq<string>) | Raised

  /** The corpus tags, as `df["tag_id"].values`. */
  function TagSet(c: Corpus): set<nat> {
    set i | 0 <= i < |c.tags| :: c.tags[i]
  }

  /** The number of hits requested: `min(top_k * 10, len(documents))`. */
  function RequestedHits(c: Corpus, topK: int): int {
    if topK * 10 < |c.documents| then topK * 10 else |c.documents|
  }

  /** The hits the search returns for the request (a non-positive request makes
      the store raise). */
  function Hits(c: Corpus, store: Option<Search>, topK: int): Option<seq<string>> {
    var k := RequestedHits(c, topK);
    if store.None? || store.value.Raised? || k <= 0 then None
    else Some(if k < |store.value.docs| then store.value.docs[..k] else store.value.docs)
  }

  /** The tags retrieval collects; [] on every failure path. */
  function RetrievedTags(c: Corpus, store: Option<Search>, topK: int): seq<nat> {
    match Hits(c, store, topK)
    case None => []
    case Some(hits) => if hits == [] then [] else Collect(ParsedHits(hits), TagSet(c), topK, [])
  }

  /** A row as returned: the DataFrame record without the bookkeeping columns. */
  function Public(row: Row): (r: Record)
    ensures "tag_id" !in r && "tagged_research_interests" !in r && "cleaned_interests" !in r
  {
    var cells := row.record["name" := Str(row.name)]["department" := Str(row.department)]
      ["research_interests" := Str(row.interests)];
    cells - {"tag_id", "tagged_research_interests", "cleaned_interests"}
  }

  /** The rows whose tag is among `ids`, in corpus order, made public. */
  function Expand(rows: seq<Row>, tags: seq<nat>, ids: seq<nat>): seq<Record>
    requires |rows| == |tags|
  {
    if rows == [] then []
    else (if tags[0] in ids then [Public(rows[0])] else []) + Expand(rows[1..], tags[1..], ids)
  }

  /** `retrieve_symantic_recommendations` as a value. */
  function Retrieve(c: Corpus, store: Option<Search>, topK: int): seq<Record>
    requires WellFormed(c)
  {
    var ids := RetrievedTags(c, store, topK);
    if ids == [] then [] else Expand(c.rows, c.tags, ids)
  }

  /** The retrieval, with its collecting loop. */
  method RetrieveSemanticRecommendations(c: Corpus, store: Option<Search>, topK: int)
    returns (result: seq<Record>)
    requires WellFormed(c)
    ensures result == Retrieve(c, store, topK)
  {
    if store.None? {
      return [];
    }
    var k := if topK * 10 < |c.documents| then topK * 10 else |c.documents|;
    if store.value.Raised? || k <= 0 {
      return [];
    }
    var docs := store.value.docs;
    var recs := if k < |docs| then docs[..k] else docs;
    if recs == [] {
      return [];
    }
    var profIds := CollectTags(recs, TagSet(c), topK);
    if profIds == [] {
      return [];
    }
    result := SelectRows(c.rows, c.tags, profIds);
  }

  /** `df[df["tag_id"].isin(prof_ids)]` with the bookkeeping columns dropped. */
  method SelectRows(rows: seq<Row>, tags: seq<nat>, ids: seq<nat>) returns (result: seq<Record>)
    requires |rows| == |tags|
    ensures result == Expand(rows, tags, ids)
  {
    result := [];
    var i := 0;
    while i < |rows|
      invariant 0 <= i <= |rows|
      invariant result + Expand(rows[i..], tags[i..], ids) == Expand(rows, tags, ids)
    {
      assert rows[i..][1..] == rows[i + 1..] && tags[i..][1..] == tags[i + 1..];
      if tags[i] in ids {
        result := result + [Public(rows[i])];
      }
      i := i + 1;
    }
  }

  /** Every expanded record is the public form of a row whose tag was collected. */
  lemma {:induction false} ExpandOnlySelected(rows: seq<Row>, tags: seq<nat>, ids: seq<nat>)
    requires |rows| == |tags|
    ensures forall x :: x in Expand(rows, tags, ids) ==>
      exists i :: 0 <= i < |rows| && tags[i] in ids && x == Public(rows[i])
  {
    if rows != [] {
      ExpandOnlySelected(rows[1..], tags[1..], ids);
      var rest := Expand(rows[1..], tags[1..], ids);
      forall x | x in Expand(rows, tags, ids)
        ensures exists i :: 0 <= i < |rows| && tags[i] in ids && x == Public(rows[i])
      {
        if x in rest {
          var i :| 0 <= i < |rows[1..]| && tags[1..][i] in ids && x == Public(rows[1..][i]);
          assert tags[i + 1] in ids && x == Public(rows[i + 1]);
        } else {
          assert tags[0] in ids && x == Public(rows[0]);
        }
      }
    }
  }

  /** Every row whose tag was collected is expanded. */
  lemma {:induction false} ExpandAllSelected(rows: seq<Row>, tags: seq<nat>, ids: seq<nat>)
    requires |rows| == |tags|
    ensures forall i :: 0 <= i < |rows| && tags[i] in ids ==> Public(rows[i]) in Expand(rows, tags, ids)
  {
    if rows != [] {
      ExpandAllSelected(rows[1..], tags[1..], ids);
      forall i | 0 <= i < |rows| && tags[i] in ids ensures Public(rows[i]) in Expand(rows, tags, ids) {
        if i > 0 {
          assert tags[1..][i - 1] == tags[i] && rows[1..][i - 1] == rows[i];
        }
      }
    }
  }

  /** The expansion keeps every record of every collected tag and nothing else. */
  lemma ExpandSelects(rows: seq<Row>, tags: seq<nat>, ids: seq<nat>)
    requires |rows| == |tags|
    ensures var r := Expand(rows, tags, ids);
      && (forall x :: x in r ==> exists i :: 0 <= i < |rows| && tags[i] in ids && x == Public(rows[i]))
      && (forall i :: 0 <= i < |rows| && tags[i] in ids ==> Public(rows[i]) in r)
  {
    ExpandOnlySelected(rows, tags, ids);
    ExpandAllSelected(rows, tags, ids);
  }

  /** Only which tags were collected matters, not the order they were ranked
      in: `isin` tests membership. */
  lemma {:induction false} ExpandIdsAsSet(rows: seq<Row>, tags: seq<nat>, ids: seq<nat>, ids2: seq<nat>)
    requires |rows| == |tags|
    requires forall t :: t in ids <==> t in ids2
    ensures Expand(rows, tags, ids) == Expand(rows, tags, ids2)
  {
    if rows != [] {
      ExpandIdsAsSet(rows[1..], tags[1..], ids, ids2);
    }
  }

  /** The expansion keeps corpus order: the records of a concatenation of
      rows are those of the first part, then those of the second. */
  lemma {:induction false} ExpandAppend(r1: seq<Row>, t1: seq<nat>, r2: seq<Row>, t2: seq<nat>, ids: seq<nat>)
    requires |r1| == |t1| && |r2| == |t2|
    ensures Expand(r1 + r2, t1 + t2, ids) == Expand(r1, t1, ids) + Expand(r2, t2, ids)
    decreases |r1|
  {
    if r1 == [] {
      assert r1 + r2 == r2 && t1 + t2 == t2;
    } else {
      var rows, tags := r1 + r2, t1 + t2;
      assert rows[0] == r1[0] && tags[0] == t1[0];
      assert rows[1..] == r1[1..] + r2 && tags[1..] == t1[1..] + t2;
      var h := if t1[0] in ids then [Public(r1[0])] else [];
      assert Expand(rows, tags, ids) == h + Expand(r1[1..] + r2, t1[1..] + t2, ids);
      assert Expand(r1, t1, ids) == h + Expand(r1[1..], t1[1..], ids);
      ExpandAppend(r1[1..], t1[1..], r2, t2, ids);
      assert h + (Expand(r1[1..], t1[1..], ids) + Expand(r2, t2, ids)) ==
        (h + Expand(r1[1..], t1[1..], ids)) + Expand(r2, t2, ids);
    }
  }

  /** Cutting the rows anywhere cuts the expansion there. */
  lemma ExpandSplit(rows: seq<Row>, tags: seq<nat>, ids: seq<nat>, n: nat)
    requires |rows| == |tags| && n <= |rows|
    ensures Expand(rows, tags, ids) == Expand(rows[..n], tags[..n], ids) + Expand(rows[n..], tags[n..], ids)
  {
    assert rows[..n] + rows[n..] == rows && tags[..n] + tags[n..] == tags;
    ExpandAppend(rows[..n], tags[..n], rows[n..], tags[n..], ids);
  }

  /** The collecting loop holds at most `topK` tags, distinct, valid, and each
      named by a hit. */
  lemma CollectContract(parsed: seq<Option<nat>>, valid: set<nat>, topK: int)
    requires topK >= 1
    ensures |Collect(parsed, valid, topK, [])| <= topK
    ensures Sorting.NoDuplicates(Collect(parsed, valid, topK, []))
    ensures forall t :: t in Collect(parsed, valid, topK, []) ==> t in valid && Some(t) in parsed
  {
    var ids := Collect(parsed, valid, topK, []);
    CollectTakesFirst(parsed, valid, topK, []);
    DistinctValidTagsFacts(parsed, valid, []);
    var all := DistinctValidTags(parsed, valid, []);
    assert ids == Take(all, topK);
    assert forall t :: t in ids ==> t in all;
    assert forall k :: 0 <= k < |ids| ==> ids[k] == all[k];
  }

  /** The tags retrieval collects: at most `topK` of them, distinct, each the
      tag of some corpus row and each named by one of the requested hits. */
  lemma RetrievedTagsContract(c: Corpus, store: Option<Search>, topK: int)
    requires WellFormed(c)
    ensures |RetrievedTags(c, store, topK)| <= (if topK < 0 then 0 else topK)
    ensures Sorting.NoDuplicates(RetrievedTags(c, store, topK))
    ensures forall t :: t in RetrievedTags(c, store, topK) ==> exists i :: 0 <= i < |c.rows| && c.tags[i] == t
    ensures RetrievedTags(c, store, topK) != [] ==>
      Hits(c, store, topK).Some? &&
      forall t :: t in RetrievedTags(c, store, topK) ==> Some(t) in ParsedHits(Hits(c, store, topK).value)
  {
    var hits := Hits(c, store, topK);
    if hits.Some? && hits.value != [] {
      assert RequestedHits(c, topK) > 0;
      CollectContract(ParsedHits(hits.value), TagSet(c), topK);
    }
  }

  /** The result is exactly the public form of every corpus row whose tag was
      collected. */
  lemma RetrieveSelectsTaggedRows(c: Corpus, store: Option<Search>, topK: int)
    requires WellFormed(c)
    ensures forall x :: x in Retrieve(c, store, topK) ==>
      exists i :: 0 <= i < |c.rows| && c.tags[i] in RetrievedTags(c, store, topK) && x == Public(c.rows[i])
    ensures forall i :: 0 <= i < |c.rows| && c.tags[i] in RetrievedTags(c, store, topK) ==>
      Public(c.rows[i]) in Retrieve(c, store, topK)
  {
    var ids := RetrievedTags(c, store, topK);
    ExpandSelects(c.rows, c.tags, ids);
    if ids == [] {
      assert Retrieve(c, store, topK) == [];
    } else {
      assert Retrieve(c, store, topK) == Expand(c.rows, c.tags, ids);
    }
  }

  /** The result is in corpus order, not in the rank order of the hits: it
      is the expansion of any list holding the collected tags, and it splits
      at every row boundary into the results of the two parts. */
  lemma RetrieveInCorpusOrder(c: Corpus, store: Option<Search>, topK: int, ids: seq<nat>, n: nat)
    requires WellFormed(c) && n <= |c.rows|
    requires forall t :: t in ids <==> t in RetrievedTags(c, store, topK)
    ensures Retrieve(c, store, topK) == Expand(c.rows, c.tags, ids)
    ensures Retrieve(c, store, topK) ==
      Expand(c.rows[..n], c.tags[..n], ids) + Expand(c.rows[n..], c.tags[n..], ids)
  {
    RetrieveIsExpand(c, store, topK);
    var got := RetrievedTags(c, store, topK);
    ExpandIdsAsSet(c.rows, c.tags, got, ids);
    ExpandSplit(c.rows, c.tags, ids, n);
  }

  /** Retrieval is the expansion of the collected tags, also when none were
      collected. */
  lemma RetrieveIsExpand(c: Corpus, store: Option<Search>, topK: int)
    requires WellFormed(c)
    ensures Retrieve(c, store, topK) == Expand(c.rows, c.tags, RetrievedTags(c, store, topK))
  {
    if RetrievedTags(c, store, topK) == [] {
      ExpandNoIds(c.rows, c.tags, []);
    }
  }

  /** With no collected tag nothing is selected. */
  lemma {:induction false} ExpandNoIds(rows: seq<Row>, tags: seq<nat>, ids: seq<nat>)
    requires |rows| == |tags| && ids == []
    ensures Expand(rows, tags, ids) == []
  {
    if rows != [] {
      ExpandNoIds(rows[1..], tags[1..], ids);
    }
  }

  /** With no rows there is no valid tag, so retrieval returns [] whatever the
      store answers. */
  lemma EmptyCorpusRetrievesNothing(store: Option<Search>, topK: int)
    ensures Retrieve(BuildCorpus([]), store, topK) == []
  {
    var c := BuildCorpus([]);
    assert TagSet(c) == {};
    RetrievedTagsContract(c, store, topK);
  }

  /** No store, a failing search, or no hits: the empty result. */
  lemma FailuresRetrieveNothing(c: Corpus, store: Option<Search>, topK: int)
    requires WellFormed(c)
    requires store.None? || store.value.Raised? || topK <= 0 || (store.value.Ranked? && store.value.docs == [])
    ensures Retrieve(c, store, topK) == []
  {
  }
}
