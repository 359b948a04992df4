/** The IIT Roorkee profile scraper's pure parts: the department read off a
    profile URL, and the clean-up of the scraped e-mail. */
module Iitr {
  import opened Wrappers
  import opened Strings
  import opened Url

  /** `parts.index(x)`, or `None` where Python's `x in parts` is false. */
  function IndexOfPart(parts: seq<string>, x: string): (r: Option<nat>)
    ensures r.Some? ==> r.value < |parts| && parts[r.value] == x
    ensures r.Some? ==> forall j :: 0 <= j < r.value ==> parts[j] != x
    ensures r.None? <==> x !in parts
  {
    if parts == [] then None
    else if parts[0] == x then Some(0)
    else match IndexOfPart(parts[1..], x)
      case None => None
      case Some(i) => Some(i + 1)
  }

  predicate StartsWithTilde(part: string) {
    part != [] && part[0] == '~'
  }

  /** The index of the first part that starts with `~`. */
  function FirstTilde(parts: seq<string>): (r: Option<nat>)
    ensures r.Some? ==> r.value < |parts| && StartsWithTilde(parts[r.value])
    ensures r.Some? ==> forall j :: 0 <= j < r.value ==> !StartsWithTilde(parts[j])
    ensures r.None? ==> forall j :: 0 <= j < |parts| ==> !StartsWithTilde(parts[j])
  {
    if parts == [] then None
    else if StartsWithTilde(parts[0]) then Some(0)
    else match FirstTilde(parts[1..])
      case None => None
      case Some(i) => Some(i + 1)
  }

  /** The fall-back of `extract_department`: the first `~user` segment
      without its tilde, else "Unknown". */
  function TildeOrUnknown(parts: seq<string>): string {
    match FirstTilde(parts)
    case Some(k) => parts[k][1..]
    case None => "Unknown"
  }

  /** The department read off the path segments: the segment after the
      first "Departments", with every " Department" removed and then
      stripped; when "Departments" is absent or last, the fall-back. */
  function DepartmentFromParts(parts: seq<string>): string {
    match IndexOfPart(parts, "Departments")
    case Some(idx) =>
      if idx + 1 < |parts| then Strip(ReplaceAll(parts[idx + 1], " Department", ""))
      else TildeOrUnknown(parts)
    case None => TildeOrUnknown(parts)
  }

  /** `extract_department(profile_url)`: the URL's path, percent-decoded and
      split on `/`, read by `DepartmentFromParts`. */
  function ExtractDepartment(profileUrl: string): string {
    DepartmentFromParts(SplitOn(Unquote(UrlPath(profileUrl)), "/"))
  }

  /** The segment after the first "Departments" names the department. */
  lemma DepartmentAfterMarker(parts: seq<string>, i: nat)
    requires i + 1 < |parts| && parts[i] == "Departments"
    requires forall j :: 0 <= j < i ==> parts[j] != "Departments"
    ensures DepartmentFromParts(parts) == Strip(ReplaceAll(parts[i + 1], " Department", ""))
  {
  }

  /** Only the first "Departments" counts: when it is the last segment the
      function falls through to the `~` scan, whatever else the path holds. */
  lemma MarkerLastFallsThrough(parts: seq<string>)
    requires parts != [] && parts[|parts| - 1] == "Departments"
    requires forall j :: 0 <= j < |parts| - 1 ==> parts[j] != "Departments"
    ensures DepartmentFromParts(parts) == TildeOrUnknown(parts)
  {
  }

  /** Without "Departments" the department is the first `~user` segment
      without its tilde. */
  lemma DepartmentFromTilde(parts: seq<string>, k: nat)
    requires "Departments" !in parts
    requires k < |parts| && StartsWithTilde(parts[k])
    requires forall j :: 0 <= j < k ==> !StartsWithTilde(parts[j])
    ensures DepartmentFromParts(parts) == parts[k][1..]
  {
  }

  /** With neither a usable "Departments" nor a `~` segment the result is
      "Unknown". */
  lemma DepartmentUnknown(parts: seq<string>)
    requires forall j :: 0 <= j < |parts| - 1 ==> parts[j] != "Departments"
    requires forall j :: 0 <= j < |parts| ==> !StartsWithTilde(parts[j])
    ensures DepartmentFromParts(parts) == "Unknown"
  {
  }

  /** Read off segments without `/`, the department holds no `/`. */
  lemma PartsNoSlash(parts: seq<string>)
    requires forall k :: 0 <= k < |parts| ==> '/' !in parts[k]
    ensures '/' !in DepartmentFromParts(parts)
  {
    match IndexOfPart(parts, "Departments")
    case Some(idx) =>
      if idx + 1 < |parts| {
        var seg := parts[idx + 1];
        ReplaceAllChars(seg, " Department", "");
        StripSetSlice(ReplaceAll(seg, " Department", ""), Whitespace);
      }
    case None =>
  }

  /** A department never holds a `/`: it comes from one path segment, or it
      is "Unknown". */
  lemma DepartmentHasNoSlash(profileUrl: string)
    ensures '/' !in ExtractDepartment(profileUrl)
  {
    SplitOnCharParts(Unquote(UrlPath(profileUrl)), '/');
    PartsNoSlash(SplitOn(Unquote(UrlPath(profileUrl)), "/"));
  }

  /** For a plain `https://host/path` URL without `%`, the department is read
      straight off the path's segments: no decoding happens. */
  lemma PlainUrlDepartment(host: string, path: string)
    requires forall c :: c in host ==> c !in {'/', '?', '#'} && c !in UnsafeUrlChars
    requires path != [] && path[0] == '/'
    requires forall c :: c in path ==> c !in {'?', '#', ';', '%'} && c !in UnsafeUrlChars
    ensures ExtractDepartment("https://" + host + path) == DepartmentFromParts(SplitOn(path, "/"))
  {
    UrlPathOfPlainUrl(host, path);
    UnquoteNoPercent(path);
  }

  /** The scraped e-mail: stripped, then every "[at]" replaced by "@". */
  function FixEmail(raw: string): string {
    ReplaceAll(Strip(raw), "[at]", "@")
  }

  lemma FixEmailNoAt(raw: string)
    ensures !IsInfix("[at]", FixEmail(raw))
    ensures |FixEmail(raw)| <= |raw|
  {
    ReplaceAllRemovesPattern(Strip(raw), "[at]", "@");
    ReplaceAllShorter(Strip(raw), "[at]", "@");
  }
}
