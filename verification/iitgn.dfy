/** The IIT Gandhinagar spider's pure parts: the department and profile links
    read off the listing pages, the department label taken from the page URL,
    and the fields of the yielded profile record (the e-mail picked and
    normalised, the joined lists, the photo). Resolving a relative link
    against the page (`response.urljoin`) is a parameter. */
module Iitgn {
  import opened Wrappers
  import opened Json
  import opened Strings

  // ---------------------------------------------------------------------
  // Links

  /** The links of `links` that `keep` accepts, each resolved by `join`, in
      page order. */
  function KeepResolved(links: seq<string>, keep: string -> bool, join: string -> string): (r: seq<string>)
    ensures |r| <= |links|
  {
    if links == [] then []
    else
      var init := links[..|links| - 1];
      var last := links[|links| - 1];
      if keep(last) then KeepResolved(init, keep, join) + [join(last)] else KeepResolved(init, keep, join)
  }

  /** The kept links are exactly the resolved links that `keep` accepts. */
  lemma {:induction false} KeepResolvedMembers(links: seq<string>, keep: string -> bool, join: string -> string)
    ensures forall x :: x in KeepResolved(links, keep, join) <==>
      exists i :: 0 <= i < |links| && keep(links[i]) && join(links[i]) == x
  {
    if links != [] {
      var n := |links| - 1;
      var init := links[..n];
      KeepResolvedMembers(init, keep, join);
      forall x | x in KeepResolved(links, keep, join)
        ensures exists i :: 0 <= i < |links| && keep(links[i]) && join(links[i]) == x
      {
        if x in KeepResolved(init, keep, join) {
          var i :| 0 <= i < |init| && keep(init[i]) && join(init[i]) == x;
          assert links[i] == init[i];
        } else {
          assert keep(links[n]) && join(links[n]) == x;
        }
      }
      forall x | exists i :: 0 <= i < |links| && keep(links[i]) && join(links[i]) == x
        ensures x in KeepResolved(links, keep, join)
      {
        var i :| 0 <= i < |links| && keep(links[i]) && join(links[i]) == x;
        if i < n {
          assert init[i] == links[i];
        }
      }
    }
  }

  /** The links keep page order: those of two consecutive stretches of the
      page are the first stretch's, then the second's. */
  lemma {:induction false} KeepResolvedAppend(a: seq<string>, b: seq<string>, keep: string -> bool, join: string -> string)
    ensures KeepResolved(a + b, keep, join) == KeepResolved(a, keep, join) + KeepResolved(b, keep, join)
    decreases |b|
  {
    if b == [] {
      assert a + b == a;
    } else {
      var init := b[..|b| - 1];
      assert (a + b)[..|a + b| - 1] == a + init;
      assert (a + b)[|a + b| - 1] == b[|b| - 1];
      KeepResolvedAppend(a, init, keep, join);
    }
  }

  const FacultyMarker: string := "/faculty/"

  predicate IsFacultyHref(href: string) {
    IsInfix(FacultyMarker, href)
  }

  /** `parse`: the department pages, the hrefs holding "/faculty/",
      resolved against the listing page. */
  function DepartmentLinks(hrefs: seq<string>, join: string -> string): seq<string> {
    KeepResolved(hrefs, IsFacultyHref, join)
  }

  /** The department links are exactly the resolved hrefs that contain
      "/faculty/". */
  lemma DepartmentLinksExactly(hrefs: seq<string>, join: string -> string)
    ensures forall x :: x in DepartmentLinks(hrefs, join) <==>
      exists i :: 0 <= i < |hrefs| && IsInfix(FacultyMarker, hrefs[i]) && join(hrefs[i]) == x
  {
    KeepResolvedMembers(hrefs, IsFacultyHref, join);
  }

  /** The department pages and other non-profile pages that a department page
      links to under "/faculty/". */
  const Blacklist: set<string> := {
    "bioe", "civil", "cse", "cl", "chemistry", "cogs", "guestprof", "me",
    "design", "maths", "mse", "hss", "earths", "phy", "ee", "former"
  }

  /** `link.rstrip('/').split('/')[-1]`: the last path segment. */
  function LeafName(link: string): string {
    LastSegment(RStripSet(link, {'/'}))
  }

  predicate IsProfileHref(href: string) {
    LeafName(href) !in Blacklist
  }

  /** `parse_department`: the profile pages, the links whose last segment is
      not blacklisted, resolved against the department page. */
  function ProfileLinks(hrefs: seq<string>, join: string -> string): seq<string> {
    KeepResolved(hrefs, IsProfileHref, join)
  }

  /** A link is kept iff its last segment is not blacklisted; the kept links
      keep page order. */
  lemma ProfileLinksExactly(hrefs: seq<string>, more: seq<string>, join: string -> string)
    ensures forall x :: x in ProfileLinks(hrefs, join) <==>
      exists i :: 0 <= i < |hrefs| && LeafName(hrefs[i]) !in Blacklist && join(hrefs[i]) == x
    ensures ProfileLinks(hrefs + more, join) == ProfileLinks(hrefs, join) + ProfileLinks(more, join)
  {
    KeepResolvedMembers(hrefs, IsProfileHref, join);
    KeepResolvedAppend(hrefs, more, IsProfileHref, join);
  }

  /** `response.url.rstrip('/').split('/')[-1]`: the department label. */
  function Department(pageUrl: string): string {
    LeafName(pageUrl)
  }

  /** The label is the last segment of the URL, whether or not the URL ends
      in `/`. */
  lemma DepartmentOfUrl(base: string, seg: string)
    requires seg != [] && '/' !in seg
    ensures Department(base + "/" + seg) == seg
    ensures Department(base + "/" + seg + "/") == seg
  {
    var u := base + "/" + seg;
    assert u[|u| - 1] == seg[|seg| - 1] && seg[|seg| - 1] in seg;
    RStripSlashes(u);
    LastPartAfterChar(base, '/', seg);
  }

  /** Stripping `/` leaves a URL that does not end in `/` alone, and strips
      one appended `/` back to it. */
  lemma RStripSlashes(u: string)
    requires u != [] && u[|u| - 1] != '/'
    ensures RStripSet(u, {'/'}) == u
    ensures RStripSet(u + "/", {'/'}) == u
  {
    assert (u + "/")[..|u + "/"| - 1] == u;
  }

  /** The label holds no `/`. */
  lemma DepartmentNoSlash(pageUrl: string)
    ensures '/' !in Department(pageUrl)
  {
    SplitOnCharParts(RStripSet(pageUrl, {'/'}), '/');
  }

  /** The link to a blacklisted page, such as a department's own page, is
      dropped from the profile links. */
  lemma BlacklistedPageDropped(base: string, seg: string)
    requires seg in Blacklist
    ensures !IsProfileHref(base + "/" + seg)
    ensures !IsProfileHref(base + "/" + seg + "/")
  {
    assert '/' !in seg;
    DepartmentOfUrl(base, seg);
  }

  // ---------------------------------------------------------------------
  // E-mail

  const IitgnDomain: string := "@iitgn.ac.in"
  const AtMarker: string := "-AT-"

  predicate IsEmailPart(part: string) {
    IsInfix(IitgnDomain, part) || IsInfix(AtMarker, part)
  }

  /** The index of the first "Email" text part that holds "@iitgn.ac.in" or
      "-AT-". */
  function FirstEmailPart(parts: seq<string>): (r: Option<nat>)
    ensures r.Some? ==> r.value < |parts| && IsEmailPart(parts[r.value])
    ensures r.Some? ==> forall j :: 0 <= j < r.value ==> !IsEmailPart(parts[j])
    ensures r.None? <==> forall j :: 0 <= j < |parts| ==> !IsEmailPart(parts[j])
  {
    if parts == [] then None
    else if IsEmailPart(parts[0]) then Some(0)
    else match FirstEmailPart(parts[1..])
      case None => None
      case Some(i) => Some(i + 1)
  }

  /** `email_raw`: that part trimmed, or "" when there is none. */
  function EmailRaw(parts: seq<string>): string {
    match FirstEmailPart(parts)
    case Some(i) => Strip(parts[i])
    case None => ""
  }

  /** `email_raw.replace(" -AT- ", "@").replace(" ", "").lstrip(":")`. */
  function NormaliseEmail(raw: string): (r: string)
    ensures ' ' !in r
    ensures r != [] ==> r[0] != ':'
  {
    var noSpace := RemoveChar(ReplaceAll(raw, " -AT- ", "@"), ' ');
    LStripSetSuffix(noSpace, {':'});
    LStripSet(noSpace, {':'})
  }

  /** The spelled-out form `user -AT- domain` of a space-free address
      becomes `user@domain`. */
  lemma NormaliseSpelledAt(user: string, domain: string)
    requires ' ' !in user && ' ' !in domain
    requires user != [] ==> user[0] != ':'
    ensures NormaliseEmail(user + " -AT- " + domain) == user + "@" + domain
  {
    ReplaceAllBetween(user, " -AT- ", domain, "@");
    var replaced := user + "@" + domain;
    RemoveCharAbsent(replaced, ' ');
    assert replaced[0] != ':' by {
      if user == [] {
        assert replaced[0] == '@';
      } else {
        assert replaced[0] == user[0];
      }
    }
  }

  /** An address that is already clean comes out unchanged. */
  lemma NormaliseCleanAddress(address: string)
    requires ' ' !in address
    requires address != [] ==> address[0] != ':'
    ensures NormaliseEmail(address) == address
  {
    ReplaceAllPrefix(address, [], " -AT- ", "@");
    assert address + [] == address;
    RemoveCharAbsent(address, ' ');
  }

  /** A colon in front, as in "Email: ...", is dropped. */
  lemma NormaliseDropsColon(raw: string)
    ensures NormaliseEmail(":" + raw) == NormaliseEmail(raw)
  {
    ReplaceAllPrefix(":", raw, " -AT- ", "@");
    var replaced := ReplaceAll(raw, " -AT- ", "@");
    assert RemoveChar(":" + replaced, ' ') == ":" + RemoveChar(replaced, ' ') by {
      assert (":" + replaced)[1..] == replaced;
    }
    assert (":" + RemoveChar(replaced, ' '))[1..] == RemoveChar(replaced, ' ');
  }

  // ---------------------------------------------------------------------
  // The profile record

  const ListSeparator: string := ", "

  /** `', '.join(items)`: the research interests and the academic
      background. */
  function JoinedItems(items: seq<string>): string {
    Join(items, ListSeparator)
  }

  /** Splitting the joined text on ", " gives the items back when none of
      them holds ", " itself. */
  lemma JoinedItemsSplit(items: seq<string>)
    requires items != []
    requires forall k :: 0 <= k < |items| ==> !IsInfix(ListSeparator, items[k])
    ensures SplitOn(JoinedItems(items), ListSeparator) == items
  {
    SplitOnJoin(items, ListSeparator);
  }

  /** One publication: the texts of its list item joined with " " and
      trimmed. */
  function Publication(texts: seq<string>): (r: string)
    ensures r != [] ==> r[0] !in Whitespace && r[|r| - 1] !in Whitespace
  {
    Strip(Join(texts, " "))
  }

  /** `photo`: the resolved image source, or None when there is no source or
      it is empty. */
  function Photo(imgSrc: Option<string>, join: string -> string): (r: Option<string>)
    ensures r.None? <==> imgSrc.None? || imgSrc.value == ""
    ensures r.Some? ==> r.value == join(imgSrc.value)
  {
    if imgSrc.Some? && imgSrc.value != "" then Some(join(imgSrc.value)) else None
  }

  /** A text field that may be missing: JSON `null` when it is. */
  function OptText(s: Option<string>): Json {
    if s.None? then Null else Str(s.value)
  }

  /** What a profile page yields. */
  function Profile(
    name: Option<string>, designation: Option<string>, emailParts: seq<string>, website: Option<string>,
    interests: seq<string>, background: seq<string>, publications: seq<seq<string>>,
    department: string, imgSrc: Option<string>, join: string -> string, pageUrl: string): (r: Record)
    ensures r.Keys == {"name", "designation", "email", "website", "research_interests", "academic_background",
                       "selected_publications", "department", "photo", "profile_url"}
  {
    map[
      "name" := OptText(name),
      "designation" := OptText(designation),
      "email" := Str(NormaliseEmail(EmailRaw(emailParts))),
      "website" := OptText(website),
      "research_interests" := Str(JoinedItems(interests)),
      "academic_background" := Str(JoinedItems(background)),
      "selected_publications" := Arr(seq(|publications|, i requires 0 <= i < |publications| => Str(Publication(publications[i])))),
      "department" := Str(department),
      "photo" := OptText(Photo(imgSrc, join)),
      "profile_url" := Str(pageUrl)
    ]
  }

  /** The record has exactly the ten fields. */
  lemma ProfileKeys(
    name: Option<string>, designation: Option<string>, emailParts: seq<string>, website: Option<string>,
    interests: seq<string>, background: seq<string>, publications: seq<seq<string>>,
    department: string, imgSrc: Option<string>, join: string -> string, pageUrl: string)
    ensures Profile(name, designation, emailParts, website, interests, background, publications,
                    department, imgSrc, join, pageUrl).Keys
         == {"name", "designation", "email", "website", "research_interests", "academic_background",
             "selected_publications", "department", "photo", "profile_url"}
  {
  }

  /** The record's e-mail is normalised, its department and URL are the ones
      given, it holds one publication per entry, and `photo` is null exactly
      when there is no image source. */
  lemma ProfileFields(
    name: Option<string>, designation: Option<string>, emailParts: seq<string>, website: Option<string>,
    interests: seq<string>, background: seq<string>, publications: seq<seq<string>>,
    department: string, imgSrc: Option<string>, join: string -> string, pageUrl: string)
    ensures var p := Profile(name, designation, emailParts, website, interests, background, publications,
                             department, imgSrc, join, pageUrl);
      "email" in p && p["email"].Str? && ' ' !in p["email"].s &&
      "department" in p && p["department"] == Str(department) &&
      "profile_url" in p && p["profile_url"] == Str(pageUrl) &&
      "selected_publications" in p && |p["selected_publications"].items| == |publications| &&
      "photo" in p && (p["photo"] == Null <==> imgSrc.None? || imgSrc.value == "")
  {
  }
}
