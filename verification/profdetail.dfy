/** The IIT Indore professor-detail scraper: what happens to the list of
    professor records the language model returns for one department page, and
    how the records of all departments are collected. */
module ProfDetail {
  import opened Wrappers
  import opened Json
  import opened Strings

  /** The `[at]` / `[dot]` e-mail de-obfuscation, in the scraper's order:
      `[at]` becomes `@`, then every space is removed, then `[dot]` becomes `.`. */
  function Deobfuscate(email: string): string {
    ReplaceAll(RemoveChar(ReplaceAll(email, "[at]", "@"), ' '), "[dot]", ".")
  }

  /** The de-obfuscated e-mail holds no space: the space removal comes before
      the last replacement, whose text `.` holds none. */
  lemma DeobfuscateNoSpace(email: string)
    ensures ' ' !in Deobfuscate(email)
  {
    var t := RemoveChar(ReplaceAll(email, "[at]", "@"), ' ');
    ReplaceAllChars(t, "[dot]", ".");
  }

  /** The de-obfuscated e-mail holds no `[dot]`. */
  lemma DeobfuscateNoDot(email: string)
    ensures !IsInfix("[dot]", Deobfuscate(email))
  {
    var t := RemoveChar(ReplaceAll(email, "[at]", "@"), ' ');
    ReplaceAllRemovesPattern(t, "[dot]", ".");
  }

  /** Every step removes or shortens text, so the e-mail never grows. */
  lemma DeobfuscateShorter(email: string)
    ensures |Deobfuscate(email)| <= |email|
  {
    var s := ReplaceAll(email, "[at]", "@");
    ReplaceAllShorter(email, "[at]", "@");
    ReplaceAllShorter(RemoveChar(s, ' '), "[dot]", ".");
  }

  /** `[at]` is replaced before the spaces go, so a spaced-out `[ at]` is
      closed up into `[at]` and stays in the result. */
  lemma SpacedAtSurvives()
    ensures Deobfuscate("a[ at]b") == "a[at]b"
  {
    SpacedAtNotReplaced();
    SpacesClosedUp();
    ClosedAtNotADot();
  }

  lemma SpacedAtNotReplaced()
    ensures ReplaceAll("a[ at]b", "[at]", "@") == "a[ at]b"
  {
    assert ("[" + " at]b")[1] != "[at]"[1];
    ReplaceAllUntouched("a", "[", " at]b", "[at]", "@");
  }

  lemma SpacesClosedUp()
    ensures RemoveChar("a[ at]b", ' ') == "a[at]b"
  {
  }

  lemma ClosedAtNotADot()
    ensures ReplaceAll("a[at]b", "[dot]", ".") == "a[at]b"
  {
    assert ("[" + "at]b")[1] != "[dot]"[1];
    ReplaceAllUntouched("a", "[", "at]b", "[dot]", ".");
  }

  /** `p + o + q` is left alone by a replacement when neither `p` nor `q`
      holds the pattern's first character and `o + q` does not start with
      the pattern. */
  lemma ReplaceAllUntouched(p: string, o: string, q: string, pat: string, rep: string)
    requires |o| == 1 && pat != []
    requires forall c :: c in p + q ==> c != pat[0]
    requires !(pat <= o + q)
    ensures ReplaceAll(p + o + q, pat, rep) == p + o + q
  {
    assert forall c :: c in p ==> c in p + q;
    assert forall c :: c in q ==> c in p + q;
    ReplaceAllPrefix(q, [], pat, rep);
    assert q + [] == q;
    assert (o + q)[1..] == q;
    assert ReplaceAll(o + q, pat, rep) == o + q;
    ReplaceAllPrefix(p, o + q, pat, rep);
    assert p + o + q == p + (o + q);
  }

  /** What the scraper's loop does to one element of the returned list: a
      `dict` whose "email" is a `str` gets it de-obfuscated; any other `dict`
      is left alone; a list or a string holding "email" fails on the
      subscript `prof["email"]`, any other list or string is left alone; a
      number, a Boolean or `null` fails on the `in` test. `None` stands for
      the `TypeError`. */
  function DeobfuscateEntry(prof: Json): (r: Option<Json>)
    ensures r.None? <==> match prof
      case Obj(_) => false
      case Arr(items) => Str("email") in items
      case Str(s) => IsInfix("email", s)
      case _ => true
    ensures r.Some? && r.value != prof ==>
      prof.Obj? && "email" in prof.fields && prof.fields["email"].Str? &&
      r.value.Obj? && r.value.fields.Keys == prof.fields.Keys &&
      (forall k :: k in prof.fields && k != "email" ==> r.value.fields[k] == prof.fields[k])
    ensures r.Some? && r.value != prof ==>
      r.value.fields["email"] == Str(Deobfuscate(prof.fields["email"].s))
    ensures prof.Obj? && "email" in prof.fields && prof.fields["email"].Str? ==>
      r.Some? && r.value.Obj? && r.value.fields.Keys == prof.fields.Keys &&
      r.value.fields["email"] == Str(Deobfuscate(prof.fields["email"].s)) &&
      (forall k :: k in prof.fields && k != "email" ==> r.value.fields[k] == prof.fields[k])
    ensures prof.Obj? && !("email" in prof.fields && prof.fields["email"].Str?) ==> r == Some(prof)
  {
    match prof
    case Obj(fields) =>
      if "email" in fields && fields["email"].Str? then
        Some(Obj(fields["email" := Str(Deobfuscate(fields["email"].s))]))
      else Some(prof)
    case Arr(items) => if Str("email") in items then None else Some(prof)
    case Str(s) => if IsInfix("email", s) then None else Some(prof)
    case _ => None
  }

  /** A record leaves the loop with a clean e-mail: whenever its "email" is a
      string, that string has no space and no `[dot]`. */
  predicate CleanEmail(prof: Json) {
    prof.Obj? && "email" in prof.fields && prof.fields["email"].Str? ==>
      ' ' !in prof.fields["email"].s && !IsInfix("[dot]", prof.fields["email"].s)
  }

  /** An obfuscated address is rewritten: `{"email": "a[at]b"}` comes back
      as `{"email": "a@b"}`. */
  lemma AtAddressRewritten()
    ensures DeobfuscateEntry(Obj(map["email" := Str("a[at]b")])) == Some(Obj(map["email" := Str("a@b")]))
  {
    AtDeobfuscated();
    var fields := map["email" := Str("a[at]b")];
    assert fields["email" := Str("a@b")] == map["email" := Str("a@b")];
  }

  lemma AtDeobfuscated()
    ensures Deobfuscate("a[at]b") == "a@b"
  {
    assert ReplaceAll("a[at]b", "[at]", "@") == "a@b" by {
      assert "a[at]b" == "a" + "[at]b";
      ReplaceAllPrefix("a", "[at]b", "[at]", "@");
      assert "[at]b"[4..] == "b";
      assert "b" == "b" + [];
      ReplaceAllPrefix("b", [], "[at]", "@");
    }
    assert RemoveChar("a@b", ' ') == "a@b";
    assert ReplaceAll("a@b", "[dot]", ".") == "a@b" by {
      assert "a@b" == "a@b" + [];
      ReplaceAllPrefix("a@b", [], "[dot]", ".");
    }
  }

  lemma DeobfuscateEntryClean(prof: Json)
    requires DeobfuscateEntry(prof).Some?
    ensures CleanEmail(DeobfuscateEntry(prof).value)
  {
    if prof.Obj? && "email" in prof.fields && prof.fields["email"].Str? {
      DeobfuscateNoSpace(prof.fields["email"].s);
      DeobfuscateNoDot(prof.fields["email"].s);
    }
  }

  /** The whole list after the loop, or `None` when some element raised. */
  function DeobfuscatedList(profs: seq<Json>): (r: Option<seq<Json>>)
    ensures r.Some? ==> |r.value| == |profs|
  {
    if profs == [] then Some([])
    else match (DeobfuscatedList(profs[..|profs| - 1]), DeobfuscateEntry(profs[|profs| - 1]))
      case (Some(init), Some(last)) => Some(init + [last])
      case _ => None
  }

  lemma {:induction false} DeobfuscatedListIndex(profs: seq<Json>)
    ensures DeobfuscatedList(profs).Some? <==> forall i :: 0 <= i < |profs| ==> DeobfuscateEntry(profs[i]).Some?
    ensures DeobfuscatedList(profs).Some? ==>
      forall i :: 0 <= i < |profs| ==> DeobfuscatedList(profs).value[i] == DeobfuscateEntry(profs[i]).value
  {
    if profs != [] {
      var init := profs[..|profs| - 1];
      DeobfuscatedListIndex(init);
      assert forall i :: 0 <= i < |init| ==> profs[i] == init[i];
    }
  }

  /** The de-obfuscation loop over the returned list, rewriting the records in
      place. It stops at the first element that raises, and reports whether
      the whole list went through; elements it did not reach stay as they were. */
  method DeobfuscateEmails(profs: array<Json>) returns (ok: bool)
    modifies profs
    ensures ok <==> DeobfuscatedList(old(profs[..])).Some?
    ensures ok ==> profs[..] == DeobfuscatedList(old(profs[..])).value
    ensures forall i :: 0 <= i < profs.Length ==>
      profs[i] == old(profs[i]) || Some(profs[i]) == DeobfuscateEntry(old(profs[i]))
  {
    ghost var before := profs[..];
    DeobfuscatedListIndex(before);
    var i := 0;
    while i < profs.Length
      invariant 0 <= i <= profs.Length
      invariant forall j :: 0 <= j < i ==> DeobfuscateEntry(before[j]) == Some(profs[j])
      invariant forall j :: i <= j < profs.Length ==> profs[j] == before[j]
    {
      var next := DeobfuscateEntry(profs[i]);
      if next.None? {
        return false;
      }
      profs[i] := next.value;
      i := i + 1;
    }
    return true;
  }

  /** After the loop every record of the list has a clean e-mail. */
  lemma DeobfuscatedListClean(profs: seq<Json>)
    requires DeobfuscatedList(profs).Some?
    ensures forall p :: p in DeobfuscatedList(profs).value ==> CleanEmail(p)
  {
    DeobfuscatedListIndex(profs);
    forall p | p in DeobfuscatedList(profs).value ensures CleanEmail(p) {
      var i :| 0 <= i < |profs| && DeobfuscatedList(profs).value[i] == p;
      DeobfuscateEntryClean(profs[i]);
    }
  }

  /** `extract_professor_info`: the list parsed out of the model's reply, or
      the empty list when no JSON array was found, the parse failed or the
      model call raised. `reply` is that outcome; `None` is every failure. */
  function ExtractProfessorInfo(reply: Option<seq<Json>>): (r: seq<Json>)
    ensures reply.None? ==> r == []
    ensures reply.Some? ==> r == reply.value
  {
    reply.GetOr([])
  }

  /** What happened on one department page: it could not be loaded, or it
      was loaded and the model produced `reply`. */
  datatype Visit = LoadFailed | Loaded(reply: Option<seq<Json>>)

  /** The records one visit adds to `all_profs`: nothing when the page failed
      to load or the de-obfuscation loop raised (the department's `except`
      skips it), otherwise the whole de-obfuscated list. */
  function Contribution(v: Visit): seq<Json> {
    match v
    case LoadFailed => []
    case Loaded(reply) => DeobfuscatedList(ExtractProfessorInfo(reply)).GetOr([])
  }

  /** `s[0]` mapped by `f`, then `s[1]`, and so on, concatenated. */
  function FlatMap<T, U>(f: T -> seq<U>, s: seq<T>): seq<U> {
    if s == [] then [] else FlatMap(f, s[..|s| - 1]) + f(s[|s| - 1])
  }

  /** `all_profs` after the loop: every department's contribution, in order. */
  function Collected(visits: seq<Visit>): seq<Json> {
    FlatMap(Contribution, visits)
  }

  /** One pass of the department loop's body: the list extracted from the
      page is copied into a fresh array (the list `json.loads` builds),
      de-obfuscated in place, and handed back when nothing raised. */
  method VisitDepartment(v: Visit) returns (added: seq<Json>)
    ensures added == Contribution(v)
  {
    added := [];
    if v.Loaded? {
      var profs := ExtractProfessorInfo(v.reply);
      var a := new Json[|profs|];
      forall i | 0 <= i < |profs| {
        a[i] := profs[i];
      }
      assert a[..] == profs;
      var ok := DeobfuscateEmails(a);
      if ok {
        added := a[..];
      }
    }
  }

  /** The department loop: each department's records are appended to
      `all_profs`; a department that fails is skipped and the next one still
      runs. */
  method ScrapeDepartments(visits: seq<Visit>) returns (allProfs: seq<Json>)
    ensures allProfs == Collected(visits)
  {
    allProfs := [];
    for d := 0 to |visits|
      invariant allProfs == Collected(visits[..d])
    {
      assert visits[..d + 1][..d] == visits[..d];
      var added := VisitDepartment(visits[d]);
      allProfs := allProfs + added;
    }
    assert visits[..|visits|] == visits;
  }

  /** Every collected record has a clean e-mail. */
  lemma {:induction false} CollectedClean(visits: seq<Visit>)
    ensures forall p :: p in Collected(visits) ==> CleanEmail(p)
  {
    if visits != [] {
      CollectedClean(visits[..|visits| - 1]);
      var v := visits[|visits| - 1];
      if v.Loaded? && DeobfuscatedList(ExtractProfessorInfo(v.reply)).Some? {
        DeobfuscatedListClean(ExtractProfessorInfo(v.reply));
      }
    }
  }

  lemma {:induction false} FlatMapAppend<T, U>(f: T -> seq<U>, a: seq<T>, b: seq<T>)
    ensures FlatMap(f, a + b) == FlatMap(f, a) + FlatMap(f, b)
    decreases |b|
  {
    if b == [] {
      assert a + b == a;
    } else {
      var init, last := b[..|b| - 1], b[|b| - 1];
      var ab := a + b;
      assert ab[..|ab| - 1] == a + init && ab[|ab| - 1] == last;
      FlatMapAppend(f, a, init);
    }
  }

  /** A department that fails does not disturb the others: the collected list
      is the other departments' contributions in order. */
  lemma FailedVisitAddsNothing(a: seq<Visit>, b: seq<Visit>)
    ensures Collected(a + [LoadFailed] + b) == Collected(a) + Collected(b)
  {
    FlatMapAppend(Contribution, a + [LoadFailed], b);
    FlatMapAppend(Contribution, a, [LoadFailed]);
    assert [LoadFailed][..0] == [];
  }
}
