/** The Python `str` operations the scrapers and the app rely on, written out
    over `seq<char>`. Each function follows the CPython semantics of the method
    named in its comment; case mapping is restricted to ASCII letters. */
module Strings {
  import opened Wrappers

  /** `str.isspace()`: the ASCII and Unicode whitespace characters. */
  predicate IsSpace(c: char) {
    c == ' ' || '\t' <= c <= '\r' || '\U{001C}' <= c <= '\U{001F}' || c == '\U{0085}' || c == '\U{00A0}' ||
    c == '\U{1680}' || '\U{2000}' <= c <= '\U{200A}' || c == '\U{2028}' || c == '\U{2029}' ||
    c == '\U{202F}' || c == '\U{205F}' || c == '\U{3000}'
  }

  /** The characters `str.strip()` removes and the regular-expression class
      `\s` matches. */
  const Whitespace: set<char> := set c: char | IsSpace(c)

  /** `p in s` for two strings. */
  predicate IsInfix(p: string, s: string)
    decreases |s|
  {
    p <= s || (s != [] && IsInfix(p, s[1..]))
  }

  /** `s.endswith(p)`. */
  predicate EndsWith(s: string, p: string) {
    |p| <= |s| && s[|s| - |p|..] == p
  }

  /** `s.find(p)`: the first index at which `p` occurs, if any. */
  function IndexOf(s: string, p: string): (r: Option<nat>)
    ensures r.Some? ==> r.value + |p| <= |s| && p <= s[r.value..]
    ensures r.Some? ==> forall j :: 0 <= j < r.value ==> !(p <= s[j..])
    ensures r.None? <==> !IsInfix(p, s)
    decreases |s|
  {
    if p <= s then Some(0)
    else if s == [] then None
    else match IndexOf(s[1..], p)
      case None => None
      case Some(i) =>
        assert forall j :: 1 <= j <= i ==> s[j..] == s[1..][j - 1..];
        Some(i + 1)
  }

  /** `s.replace(pat, rep)`: every occurrence of `pat`, scanned from the left
      without overlap, is replaced by `rep`. */
  function ReplaceAll(s: string, pat: string, rep: string): string
    requires pat != []
    decreases |s|
  {
    if pat <= s then rep + ReplaceAll(s[|pat|..], pat, rep)
    else if s == [] then []
    else [s[0]] + ReplaceAll(s[1..], pat, rep)
  }

  /** `s.replace(c, "")` for a one-character `c`. */
  function RemoveChar(s: string, c: char): (r: string)
    ensures c !in r
    ensures |r| <= |s|
    ensures forall d :: d in r ==> d in s
  {
    if s == [] then []
    else if s[0] == c then RemoveChar(s[1..], c)
    else [s[0]] + RemoveChar(s[1..], c)
  }

  /** `s.lstrip(chars)`. */
  function LStripSet(s: string, chars: set<char>): (r: string)
    ensures r != [] ==> r[0] !in chars
    ensures |r| <= |s|
  {
    if s != [] && s[0] in chars then LStripSet(s[1..], chars) else s
  }

  /** `s.lstrip(chars)` is a suffix of `s`, and what it drops is all in
      `chars`. */
  lemma {:induction false} LStripSetSuffix(s: string, chars: set<char>)
    ensures LStripSet(s, chars) == s[|s| - |LStripSet(s, chars)|..]
    ensures forall i :: 0 <= i < |s| - |LStripSet(s, chars)| ==> s[i] in chars
  {
    if s != [] && s[0] in chars {
      LStripSetSuffix(s[1..], chars);
    }
  }

  /** `s.rstrip(chars)`. */
  function RStripSet(s: string, chars: set<char>): (r: string)
    ensures r != [] ==> r[|r| - 1] !in chars
    ensures |r| <= |s|
  {
    if s != [] && s[|s| - 1] in chars then RStripSet(s[..|s| - 1], chars) else s
  }

  /** `s.rstrip(chars)` is a prefix of `s`, and what it drops is all in
      `chars`. */
  lemma {:induction false} RStripSetPrefix(s: string, chars: set<char>)
    ensures RStripSet(s, chars) <= s
    ensures forall i :: |RStripSet(s, chars)| <= i < |s| ==> s[i] in chars
  {
    if s != [] && s[|s| - 1] in chars {
      RStripSetPrefix(s[..|s| - 1], chars);
    }
  }

  /** `s.strip(chars)`. */
  function StripSet(s: string, chars: set<char>): (r: string)
    ensures r != [] ==> r[0] !in chars && r[|r| - 1] !in chars
    ensures |r| <= |s|
  {
    var l := LStripSet(s, chars);
    RStripSetPrefix(l, chars);
    RStripSet(l, chars)
  }

  /** `s.strip(chars)` is a slice of `s`: every character of it is one of
      `s`. */
  lemma StripSetSlice(s: string, chars: set<char>)
    ensures StripSet(s, chars) == s[|s| - |LStripSet(s, chars)|..][..|StripSet(s, chars)|]
    ensures forall c :: c in StripSet(s, chars) ==> c in s
  {
    var l := LStripSet(s, chars);
    LStripSetSuffix(s, chars);
    RStripSetPrefix(l, chars);
    var r := StripSet(s, chars);
    assert r == l[..|r|];
  }

  /** A character outside `chars` survives `s.strip(chars)`. */
  lemma StripSetKeeps(s: string, chars: set<char>, i: nat)
    requires i < |s| && s[i] !in chars
    ensures s[i] in StripSet(s, chars)
  {
    var l := LStripSet(s, chars);
    LStripSetSuffix(s, chars);
    var k := |s| - |l|;
    assert k <= i;
    assert l[i - k] == s[i];
    RStripSetPrefix(l, chars);
    var r := StripSet(s, chars);
    assert i - k < |r|;
    assert r[i - k] == l[i - k];
  }

  /** `s.strip()`. */
  function Strip(s: string): string {
    StripSet(s, Whitespace)
  }

  function LowerChar(c: char): char {
    if 'A' <= c <= 'Z' then (c as int + 32) as char else c
  }

  function UpperChar(c: char): char {
    if 'a' <= c <= 'z' then (c as int - 32) as char else c
  }

  /** `s.lower()` (ASCII letters only). */
  function Lower(s: string): (r: string)
    ensures |r| == |s|
  {
    seq(|s|, i requires 0 <= i < |s| => LowerChar(s[i]))
  }

  /** `s.upper()` (ASCII letters only). */
  function Upper(s: string): (r: string)
    ensures |r| == |s|
  {
    seq(|s|, i requires 0 <= i < |s| => UpperChar(s[i]))
  }

  /** `s.split(sep)` for a non-empty separator: never an empty list. */
  function SplitOn(s: string, sep: string): (r: seq<string>)
    requires sep != []
    ensures |r| >= 1
    decreases |s|
  {
    match IndexOf(s, sep)
    case None => [s]
    case Some(i) => [s[..i]] + SplitOn(s[i + |sep|..], sep)
  }

  /** `sep.join(parts)`. */
  function Join(parts: seq<string>, sep: string): string {
    if parts == [] then ""
    else if |parts| == 1 then parts[0]
    else parts[0] + sep + Join(parts[1..], sep)
  }

  /** `re.split("[D]", s)` for a character class `D`: the pieces between the
      delimiter characters, empty pieces included. */
  function SplitOnClass(s: string, delims: set<char>): (r: seq<string>)
    ensures |r| >= 1
    ensures forall k :: 0 <= k < |r| ==> forall c :: c in r[k] ==> c !in delims
  {
    if s == [] then [""]
    else
      var rest := SplitOnClass(s[1..], delims);
      if s[0] in delims then [""] + rest
      else [[s[0]] + rest[0]] + rest[1..]
  }

  /** The concatenation of a list of strings. */
  function Concat(parts: seq<string>): string {
    if parts == [] then "" else parts[0] + Concat(parts[1..])
  }

  /** `s` with every character of `chars` taken out. */
  function RemoveChars(s: string, chars: set<char>): string {
    if s == [] then ""
    else if s[0] in chars then RemoveChars(s[1..], chars)
    else [s[0]] + RemoveChars(s[1..], chars)
  }

  /** `s.split('/')[-1]`. */
  function LastSegment(s: string): string {
    var parts := SplitOn(s, "/");
    parts[|parts| - 1]
  }

  predicate IsDigit(c: char) { '0' <= c <= '9' }

  /** `s.isdigit()` for ASCII digits. */
  predicate IsDigits(s: string) {
    s != [] && forall i :: 0 <= i < |s| ==> IsDigit(s[i])
  }

  /** `str(n)` for a natural number. */
  function NatToString(n: nat): (r: string)
    ensures IsDigits(r)
  {
    if n < 10 then ['0' + n as char]
    else NatToString(n / 10) + ['0' + (n % 10) as char]
  }

  /** `int(s)` for a string of ASCII digits (leading zeros allowed). */
  function ParseDigits(s: string): nat
    requires IsDigits(s)
    decreases |s|
  {
    var last := (s[|s| - 1] - '0') as nat;
    if |s| == 1 then last else ParseDigits(s[..|s| - 1]) * 10 + last
  }

  // ---------------------------------------------------------------------------
  // Facts about the functions above.

  /** `int(str(n)) == n`. */
  lemma {:induction false} ParseNatToString(n: nat)
    ensures ParseDigits(NatToString(n)) == n
  {
    if n >= 10 {
      var s := NatToString(n);
      assert s[..|s| - 1] == NatToString(n / 10);
      ParseNatToString(n / 10);
    }
  }

  /** Splitting on a separator and joining with it gives the string back. */
  lemma {:induction false} JoinSplitOn(s: string, sep: string)
    requires sep != []
    ensures Join(SplitOn(s, sep), sep) == s
    decreases |s|
  {
    var found := IndexOf(s, sep);
    if found.Some? {
      var i := found.value;
      var rest := s[i + |sep|..];
      var tail := SplitOn(rest, sep);
      JoinSplitOn(rest, sep);
      var parts := SplitOn(s, sep);
      assert Join(parts, sep) == s[..i] + sep + Join(tail, sep) by {
        assert parts == [s[..i]] + tail;
        assert parts[1..] == tail;
      }
      assert s == s[..i] + sep + rest by {
        assert s[i..i + |sep|] == sep;
        assert s == s[..i] + s[i..i + |sep|] + rest;
      }
    }
  }

  /** An occurrence of `p` in `a + b` either starts with a character of `a`
      equal to `p[0]` or lies wholly in `b`. */
  lemma {:induction false} InfixOfConcat(p: string, a: string, b: string)
    requires p != [] && IsInfix(p, a + b)
    ensures (exists i :: 0 <= i < |a| && a[i] == p[0]) || IsInfix(p, b)
    decreases |a|
  {
    if a != [] {
      if p <= a + b {
        assert a[0] == p[0];
      } else {
        assert (a + b)[1..] == a[1..] + b;
        InfixOfConcat(p, a[1..], b);
        if exists i :: 0 <= i < |a[1..]| && a[1..][i] == p[0] {
          var i :| 0 <= i < |a[1..]| && a[1..][i] == p[0];
          assert a[i + 1] == p[0];
        }
      }
    } else {
      assert a + b == b;
    }
  }

  /** A prefix of `ReplaceAll(u, pat, rep)` that shares no character with a
      non-empty `rep` is already a prefix of `u`. */
  lemma {:induction false} PrefixOfReplaceAll(t: string, u: string, pat: string, rep: string)
    requires pat != [] && rep != []
    requires forall c :: c in t ==> c !in rep
    requires t <= ReplaceAll(u, pat, rep)
    ensures t <= u
    decreases |u|
  {
    var r := ReplaceAll(u, pat, rep);
    if t != [] {
      assert t[0] == r[0] && t[0] in t;
      if pat <= u {
        assert false;
      } else if u != [] {
        assert r == [u[0]] + ReplaceAll(u[1..], pat, rep);
        assert forall c :: c in t[1..] ==> c in t;
        PrefixOfReplaceAll(t[1..], u[1..], pat, rep);
        assert t == [t[0]] + t[1..];
      }
    }
  }

  /** Replacing every `pat` by a non-empty text with none of `pat`'s characters
      leaves no occurrence of `pat` behind. */
  lemma {:induction false} ReplaceAllRemovesPattern(s: string, pat: string, rep: string)
    requires pat != [] && rep != []
    requires forall c :: c in rep ==> c !in pat
    ensures !IsInfix(pat, ReplaceAll(s, pat, rep))
    decreases |s|
  {
    var r := ReplaceAll(s, pat, rep);
    assert pat[0] in pat && pat == [pat[0]] + pat[1..];
    assert forall c :: c in pat[1..] ==> c in pat;
    if pat <= s {
      var rest := ReplaceAll(s[|pat|..], pat, rep);
      ReplaceAllRemovesPattern(s[|pat|..], pat, rep);
      if IsInfix(pat, r) {
        InfixOfConcat(pat, rep, rest);
      }
    } else if s != [] {
      var rest := ReplaceAll(s[1..], pat, rep);
      ReplaceAllRemovesPattern(s[1..], pat, rep);
      assert r == [s[0]] + rest;
      assert s == [s[0]] + s[1..];
      if pat <= r {
        PrefixOfReplaceAll(pat[1..], s[1..], pat, rep);
      }
      assert r[1..] == rest;
    }
  }

  /** Every character of a replacement result comes from the input or from the
      replacement text. */
  lemma {:induction false} ReplaceAllChars(s: string, pat: string, rep: string)
    requires pat != []
    ensures forall c :: c in ReplaceAll(s, pat, rep) ==> c in s || c in rep
    decreases |s|
  {
    if pat <= s {
      ReplaceAllChars(s[|pat|..], pat, rep);
    } else if s != [] {
      ReplaceAllChars(s[1..], pat, rep);
    }
  }

  /** A replacement no longer than the pattern never lengthens the string. */
  lemma {:induction false} ReplaceAllShorter(s: string, pat: string, rep: string)
    requires pat != [] && |rep| <= |pat|
    ensures |ReplaceAll(s, pat, rep)| <= |s|
    decreases |s|
  {
    if pat <= s {
      ReplaceAllShorter(s[|pat|..], pat, rep);
    } else if s != [] {
      ReplaceAllShorter(s[1..], pat, rep);
    }
  }

  /** Replacing in `p + s` where `p` holds no first character of the pattern
      touches only `s`. */
  lemma {:induction false} ReplaceAllPrefix(p: string, s: string, pat: string, rep: string)
    requires pat != []
    requires forall c :: c in p ==> c != pat[0]
    ensures ReplaceAll(p + s, pat, rep) == p + ReplaceAll(s, pat, rep)
    decreases |p|
  {
    if p != [] {
      assert p[0] in p && (p + s)[0] == p[0];
      assert (p + s)[1..] == p[1..] + s;
      assert forall c :: c in p[1..] ==> c in p;
      ReplaceAllPrefix(p[1..], s, pat, rep);
      ReplaceAllSkips(p + s, pat, rep);
      assert p == [p[0]] + p[1..];
    } else {
      assert p + s == s;
    }
  }

  /** A text that does not start with the pattern's first character keeps
      that character. */
  lemma ReplaceAllSkips(t: string, pat: string, rep: string)
    requires pat != [] && t != [] && t[0] != pat[0]
    ensures ReplaceAll(t, pat, rep) == [t[0]] + ReplaceAll(t[1..], pat, rep)
  {
    assert !(pat <= t);
  }

  /** `re.split` on a character class loses exactly the delimiters. */
  lemma {:induction false} ConcatSplitOnClass(s: string, delims: set<char>)
    ensures Concat(SplitOnClass(s, delims)) == RemoveChars(s, delims)
  {
    if s != [] {
      var rest := SplitOnClass(s[1..], delims);
      ConcatSplitOnClass(s[1..], delims);
      if s[0] !in delims {
        var r := [[s[0]] + rest[0]] + rest[1..];
        assert r[1..] == rest[1..];
        assert Concat(rest) == rest[0] + Concat(rest[1..]);
      }
    }
  }

  /** `s.lower()` leaves a string without ASCII capitals unchanged. */
  lemma LowerNoCapitals(s: string)
    requires forall i :: 0 <= i < |s| ==> !('A' <= s[i] <= 'Z')
    ensures Lower(s) == s
  {
  }

  /** `s.strip()` leaves a string that neither starts nor ends with whitespace
      unchanged. */
  lemma StripUnpadded(s: string)
    requires s != [] ==> s[0] !in Whitespace && s[|s| - 1] !in Whitespace
    ensures Strip(s) == s
  {
    if s != [] {
      assert LStripSet(s, Whitespace) == s;
    }
  }

  /** An occurrence at `i` makes `p` an infix of `s`. */
  lemma {:induction false} InfixAt(p: string, s: string, i: nat)
    requires i <= |s| && p <= s[i..]
    ensures IsInfix(p, s)
  {
    if i > 0 {
      assert s[1..][i - 1..] == s[i..];
      InfixAt(p, s[1..], i - 1);
    }
  }

  /** An occurrence at `i` with none before it is what `find` returns. */
  lemma IndexOfAt(s: string, p: string, i: nat)
    requires i <= |s| && p <= s[i..]
    requires forall j :: 0 <= j < i ==> !(p <= s[j..])
    ensures IndexOf(s, p) == Some(i)
  {
    InfixAt(p, s, i);
  }

  /** An occurrence of `sep` starting inside `part` cannot run into the
      `sep` that follows it, when `sep`'s first character does not recur. */
  lemma NoStraddle(part: string, sep: string, rest: string, j: nat)
    requires j < |part| < j + |sep|
    requires forall k :: 1 <= k < |sep| ==> sep[k] != sep[0]
    ensures !(sep <= (part + sep + rest)[j..])
  {
    var s := part + sep + rest;
    var k := |part| - j;
    assert s[j..][k] == s[|part|] == sep[0];
  }

  /** The separator after a part that does not contain it is found right
      after that part, when its first character does not recur in it. */
  lemma SeparatorAfterPart(part: string, sep: string, rest: string)
    requires sep != []
    requires forall k :: 1 <= k < |sep| ==> sep[k] != sep[0]
    requires !IsInfix(sep, part)
    ensures IndexOf(part + sep + rest, sep) == Some(|part|)
  {
    var s := part + sep + rest;
    forall j | 0 <= j < |part| ensures !(sep <= s[j..]) {
      if j + |sep| > |part| {
        NoStraddle(part, sep, rest, j);
      } else if sep <= s[j..] {
        assert sep <= part[j..];
        InfixAt(sep, part, j);
      }
    }
    assert sep <= s[|part|..];
    IndexOfAt(s, sep, |part|);
  }

  /** Splitting a joined list gives the list back when no part contains the
      separator and the separator's first character does not recur in it
      (so an occurrence cannot straddle a part and the separator after it). */
  lemma {:induction false} SplitOnJoin(parts: seq<string>, sep: string)
    requires parts != [] && sep != []
    requires forall k :: 1 <= k < |sep| ==> sep[k] != sep[0]
    requires forall k :: 0 <= k < |parts| ==> !IsInfix(sep, parts[k])
    ensures SplitOn(Join(parts, sep), sep) == parts
  {
    if |parts| > 1 {
      var rest := Join(parts[1..], sep);
      var s := parts[0] + sep + rest;
      assert Join(parts, sep) == s;
      assert SplitOn(s, sep) == [parts[0]] + SplitOn(rest, sep) by {
        SeparatorAfterPart(parts[0], sep, rest);
        assert s[..|parts[0]|] == parts[0];
        assert s[|parts[0]| + |sep|..] == rest;
      }
      SplitOnJoin(parts[1..], sep);
    } else {
      assert !IsInfix(sep, parts[0]);
    }
  }

  /** Splitting on one character leaves that character in no part. */
  lemma {:induction false} SplitOnCharParts(s: string, c: char)
    ensures forall k :: 0 <= k < |SplitOn(s, [c])| ==> c !in SplitOn(s, [c])[k]
    decreases |s|
  {
    match IndexOf(s, [c])
    case None =>
      forall j | 0 <= j < |s| ensures s[j] != c {
        if s[j] == c {
          assert [c] <= s[j..];
          InfixAt([c], s, j);
        }
      }
    case Some(i) =>
      forall j | 0 <= j < i ensures s[j] != c {
        assert s[j..][0] == s[j];
      }
      SplitOnCharParts(s[i + 1..], c);
  }

  /** A character that does not occur in `s` is no infix of it. */
  lemma {:induction false} CharNotInfix(c: char, s: string)
    requires c !in s
    ensures !IsInfix([c], s)
    decreases |s|
  {
    if s != [] {
      assert s[0] in s;
      CharNotInfix(c, s[1..]);
    }
  }

  /** A text that does not hold `q` holds no text starting with `q`. */
  lemma {:induction false} NoInfixExtending(q: string, p: string, s: string)
    requires q <= p && !IsInfix(q, s)
    ensures !IsInfix(p, s)
    decreases |s|
  {
    if s != [] {
      NoInfixExtending(q, p, s[1..]);
    }
  }

  /** The last part of `s.split(c)` is what follows the last `c`. */
  lemma {:induction false} LastPartAfterChar(a: string, c: char, b: string)
    requires c !in b
    ensures var parts := SplitOn(a + [c] + b, [c]); parts[|parts| - 1] == b
    decreases |a|
  {
    var s := a + [c] + b;
    assert [c] <= s[|a|..];
    InfixAt([c], s, |a|);
    var i := IndexOf(s, [c]).value;
    if i == |a| {
      assert s[i + 1..] == b;
      CharNotInfix(c, b);
    } else {
      assert s[i + 1..] == a[i + 1..] + [c] + b;
      LastPartAfterChar(a[i + 1..], c, b);
    }
  }

  /** Removing a character that does not occur changes nothing. */
  lemma {:induction false} RemoveCharAbsent(s: string, c: char)
    requires c !in s
    ensures RemoveChar(s, c) == s
  {
    if s != [] {
      RemoveCharAbsent(s[1..], c);
    }
  }

  /** One occurrence of `pat` between two texts that cannot start another
      one is the only thing `replace` changes. */
  lemma ReplaceAllBetween(a: string, pat: string, b: string, rep: string)
    requires pat != []
    requires forall c :: c in a ==> c != pat[0]
    requires forall c :: c in b ==> c != pat[0]
    ensures ReplaceAll(a + pat + b, pat, rep) == a + rep + b
  {
    assert a + pat + b == a + (pat + b);
    ReplaceAllPrefix(a, pat + b, pat, rep);
    assert ReplaceAll(pat + b, pat, rep) == rep + ReplaceAll(b, pat, rep) by {
      assert pat <= pat + b && (pat + b)[|pat|..] == b;
    }
    assert ReplaceAll(b, pat, rep) == b by {
      ReplaceAllPrefix(b, [], pat, rep);
      assert b + [] == b;
    }
  }
}
