/** The parts of `urllib.parse` the app and the scrapers call: `quote`,
    `unquote` (with the UTF-8 codec and its "replace" error handling) and the
    `path` of `urlparse`, following CPython 3.12. */
module Url {
  import opened Wrappers
  import opened Strings

  type Byte = b: int | 0 <= b < 0x100

  predicate IsAscii(c: char) {
    c < '\U{0080}'
  }

  predicate AllAscii(s: string) {
    forall i :: 0 <= i < |s| ==> IsAscii(s[i])
  }

  // ---------------------------------------------------------------------
  // UTF-8

  /** `c.encode("utf-8")`. */
  function Utf8Encode(c: char): (bs: seq<Byte>)
    ensures 1 <= |bs| <= 4
    ensures |bs| == 1 <==> IsAscii(c)
    ensures |bs| > 1 ==> forall j :: 0 <= j < |bs| ==> bs[j] >= 0x80
  {
    var n := c as int;
    if n < 0x80 then [n]
    else if n < 0x800 then [0xC0 + n / 0x40, 0x80 + n % 0x40]
    else if n < 0x1_0000 then [0xE0 + n / 0x1000, 0x80 + n / 0x40 % 0x40, 0x80 + n % 0x40]
    else [0xF0 + n / 0x4_0000, 0x80 + n / 0x1000 % 0x40, 0x80 + n / 0x40 % 0x40, 0x80 + n % 0x40]
  }

  function Utf8EncodeString(s: string): seq<Byte> {
    if s == [] then [] else Utf8Encode(s[0]) + Utf8EncodeString(s[1..])
  }

  /** The length of the sequence a lead byte opens; 0 for a byte that opens
      none (a continuation byte, an overlong lead C0/C1, or F5..FF). */
  function SequenceLength(lead: Byte): nat {
    if lead < 0x80 then 1
    else if 0xC2 <= lead <= 0xDF then 2
    else if 0xE0 <= lead <= 0xEF then 3
    else if 0xF0 <= lead <= 0xF4 then 4
    else 0
  }

  /** Whether `b` may stand at position `k` (1 to 3) of a sequence opened by
      `lead`; the second byte's range is narrower after E0, ED, F0 and F4, which
      rules out overlong forms, surrogates and values above U+10FFFF. */
  predicate ContinuationOk(lead: Byte, k: nat, b: Byte) {
    if k == 1 && lead == 0xE0 then 0xA0 <= b <= 0xBF
    else if k == 1 && lead == 0xED then 0x80 <= b <= 0x9F
    else if k == 1 && lead == 0xF0 then 0x90 <= b <= 0xBF
    else if k == 1 && lead == 0xF4 then 0x80 <= b <= 0x8F
    else 0x80 <= b <= 0xBF
  }

  /** How far, from position `k`, the bytes go on fitting a sequence of
      `need` bytes opened by `bs[0]`. */
  function ValidPrefix(bs: seq<Byte>, need: nat, k: nat): (r: nat)
    requires 1 <= k <= need && k <= |bs|
    ensures k <= r <= need && r <= |bs|
    ensures forall j :: k <= j < r ==> ContinuationOk(bs[0], j, bs[j])
    decreases need - k
  {
    if k < need && k < |bs| && ContinuationOk(bs[0], k, bs[k]) then ValidPrefix(bs, need, k + 1) else k
  }

  /** The scalar value a complete sequence stands for. */
  function CodePoint(bs: seq<Byte>): int
    requires 1 <= |bs| <= 4
  {
    var b: seq<int> := bs;
    if |b| == 1 then b[0]
    else if |b| == 2 then (b[0] - 0xC0) * 0x40 + (b[1] - 0x80)
    else if |b| == 3 then (b[0] - 0xE0) * 0x1000 + (b[1] - 0x80) * 0x40 + (b[2] - 0x80)
    else (b[0] - 0xF0) * 0x4_0000 + (b[1] - 0x80) * 0x1000 + (b[2] - 0x80) * 0x40 + (b[3] - 0x80)
  }

  /** A well-formed sequence stands for a Unicode scalar value. */
  lemma CodePointInRange(bs: seq<Byte>)
    requires |bs| >= 1 && SequenceLength(bs[0]) == |bs|
    requires forall j :: 1 <= j < |bs| ==> ContinuationOk(bs[0], j, bs[j])
    ensures 0 <= CodePoint(bs) < 0xD800 || 0xE000 <= CodePoint(bs) < 0x11_0000
  {
    if |bs| >= 2 {
      assert ContinuationOk(bs[0], 1, bs[1]);
    }
  }

  const Replacement: char := '\U{FFFD}'

  /** `bs.decode("utf-8", "replace")`: each well-formed sequence becomes its
      character; an invalid lead byte, or the valid beginning of a sequence
      that is cut short, becomes one U+FFFD. */
  function Utf8Decode(bs: seq<Byte>): string
    decreases |bs|
  {
    if bs == [] then []
    else
      var need := SequenceLength(bs[0]);
      if need == 0 then [Replacement] + Utf8Decode(bs[1..])
      else
        var k := ValidPrefix(bs, need, 1);
        if k == need then
          CodePointInRange(bs[..need]);
          [CodePoint(bs[..need]) as char] + Utf8Decode(bs[need..])
        else [Replacement] + Utf8Decode(bs[k..])
  }

  lemma {:induction false} ValidPrefixFull(bs: seq<Byte>, need: nat, k: nat)
    requires 1 <= k <= need <= |bs|
    requires forall j :: k <= j < need ==> ContinuationOk(bs[0], j, bs[j])
    ensures ValidPrefix(bs, need, k) == need
    decreases need - k
  {
    if k < need {
      ValidPrefixFull(bs, need, k + 1);
    }
  }

  lemma EncodeFacts(c: char)
    ensures var e := Utf8Encode(c);
      SequenceLength(e[0]) == |e| &&
      (forall j :: 1 <= j < |e| ==> ContinuationOk(e[0], j, e[j])) &&
      CodePoint(e) == c as int
  {
    var n := c as int;
    assert n == n / 0x40 * 0x40 + n % 0x40;
    assert n / 0x40 == n / 0x1000 * 0x40 + n / 0x40 % 0x40;
    assert n / 0x1000 == n / 0x4_0000 * 0x40 + n / 0x1000 % 0x40;
  }

  /** Decoding undoes encoding, one character at a time. */
  lemma Utf8DecodeEncode(c: char, rest: seq<Byte>)
    ensures Utf8Decode(Utf8Encode(c) + rest) == [c] + Utf8Decode(rest)
  {
    var e := Utf8Encode(c);
    var bs := e + rest;
    EncodeFacts(c);
    assert bs[0] == e[0] && bs[..|e|] == e && bs[|e|..] == rest;
    ValidPrefixFull(bs, |e|, 1);
  }

  lemma {:induction false} Utf8DecodeEncodeString(s: string)
    ensures Utf8Decode(Utf8EncodeString(s)) == s
  {
    if s != [] {
      Utf8DecodeEncode(s[0], Utf8EncodeString(s[1..]));
      Utf8DecodeEncodeString(s[1..]);
    }
  }

  // ---------------------------------------------------------------------
  // Percent-encoding

  /** The characters `quote` never encodes. */
  predicate Unreserved(c: char) {
    'A' <= c <= 'Z' || 'a' <= c <= 'z' || '0' <= c <= '9' || c == '_' || c == '.' || c == '-' || c == '~'
  }

  /** An upper-case hexadecimal digit. */
  function HexDigit(d: nat): (c: char)
    requires d < 16
    ensures IsAscii(c)
  {
    if d < 10 then ('0' as int + d) as char else ('A' as int + d - 10) as char
  }

  /** The value of a hexadecimal digit of either case. */
  function HexValue(c: char): (r: Option<nat>)
    ensures r.Some? ==> r.value < 16
  {
    if '0' <= c <= '9' then Some(c as int - '0' as int)
    else if 'A' <= c <= 'F' then Some(c as int - 'A' as int + 10)
    else if 'a' <= c <= 'f' then Some(c as int - 'a' as int + 10)
    else None
  }

  /** `%XX` for every byte. */
  function PercentEncode(bs: seq<Byte>): (r: string)
    ensures |r| == 3 * |bs| && AllAscii(r)
    ensures forall c :: c in r ==> c == '%' || Unreserved(c)
  {
    if bs == [] then [] else ['%', HexDigit(bs[0] / 16), HexDigit(bs[0] % 16)] + PercentEncode(bs[1..])
  }

  /** What `quote` writes for one character: the character itself when it is
      unreserved or an ASCII member of `safe`, otherwise its UTF-8 bytes as
      `%XX`. */
  function QuoteChar(c: char, safe: set<char>): (r: string)
    ensures AllAscii(r)
    ensures forall d :: d in r ==> d == '%' || Unreserved(d) || d in safe
  {
    if Unreserved(c) || (c in safe && IsAscii(c)) then [c] else PercentEncode(Utf8Encode(c))
  }

  /** `urllib.parse.quote(s, safe)`. */
  function Quote(s: string, safe: set<char>): (r: string)
    ensures AllAscii(r)
    ensures forall d :: d in r ==> d == '%' || Unreserved(d) || d in safe
  {
    if s == [] then [] else QuoteChar(s[0], safe) + Quote(s[1..], safe)
  }

  /** `unquote_to_bytes` on a run of ASCII characters: `%` followed by two
      hexadecimal digits is that byte, every other character its own code. */
  function UnquoteToBytes(run: string): seq<Byte>
    requires AllAscii(run)
  {
    if run == [] then []
    else if run[0] == '%' && |run| >= 3 && HexValue(run[1]).Some? && HexValue(run[2]).Some? then
      [HexValue(run[1]).value * 16 + HexValue(run[2]).value] + UnquoteToBytes(run[3..])
    else [run[0] as int] + UnquoteToBytes(run[1..])
  }

  /** The length of the longest prefix of ASCII characters. */
  function AsciiRunLength(s: string): (n: nat)
    ensures 0 < n <= |s| || (n == 0 && (s == [] || !IsAscii(s[0])))
    ensures AllAscii(s[..n])
  {
    if s == [] || !IsAscii(s[0]) then 0
    else
      var n := 1 + AsciiRunLength(s[1..]);
      assert forall i :: 1 <= i < n ==> s[..n][i] == s[1..][..n - 1][i - 1];
      n
  }

  /** `urllib.parse.unquote(s)`: every maximal run of ASCII characters is
      turned into bytes and decoded as UTF-8 with replacement; other
      characters are kept. */
  function Unquote(s: string): string
    decreases |s|
  {
    if s == [] then []
    else if !IsAscii(s[0]) then [s[0]] + Unquote(s[1..])
    else
      var n := AsciiRunLength(s);
      Utf8Decode(UnquoteToBytes(s[..n])) + Unquote(s[n..])
  }

  lemma {:induction false} UnquotePercent(bs: seq<Byte>, rest: string)
    requires AllAscii(rest)
    ensures AllAscii(PercentEncode(bs) + rest)
    ensures UnquoteToBytes(PercentEncode(bs) + rest) == bs + UnquoteToBytes(rest)
  {
    var t := PercentEncode(bs) + rest;
    if bs != [] {
      var b := bs[0];
      UnquotePercent(bs[1..], rest);
      assert t == ['%', HexDigit(b / 16), HexDigit(b % 16)] + (PercentEncode(bs[1..]) + rest);
      assert HexValue(HexDigit(b / 16)) == Some(b / 16);
      assert HexValue(HexDigit(b % 16)) == Some(b % 16);
      assert t[0] == '%' && t[1] == HexDigit(b / 16) && t[2] == HexDigit(b % 16);
      assert t[3..] == PercentEncode(bs[1..]) + rest;
      assert b / 16 * 16 + b % 16 == b;
      assert UnquoteToBytes(t) == [b] + UnquoteToBytes(t[3..]);
      assert UnquoteToBytes(t[3..]) == bs[1..] + UnquoteToBytes(rest);
      assert bs == [b] + bs[1..];
      assert [b] + (bs[1..] + UnquoteToBytes(rest)) == bs + UnquoteToBytes(rest);
    } else {
      assert t == rest;
    }
  }

  lemma {:induction false} UnquoteToBytesQuote(s: string, safe: set<char>)
    requires '%' !in safe
    ensures UnquoteToBytes(Quote(s, safe)) == Utf8EncodeString(s)
  {
    if s != [] {
      var c := s[0];
      var rest := Quote(s[1..], safe);
      UnquoteToBytesQuote(s[1..], safe);
      if Unreserved(c) || (c in safe && IsAscii(c)) {
        assert ([c] + rest)[1..] == rest;
      } else {
        UnquotePercent(Utf8Encode(c), rest);
      }
    }
  }

  lemma UnquoteAllAscii(t: string)
    requires AllAscii(t)
    ensures Unquote(t) == Utf8Decode(UnquoteToBytes(t))
  {
    if t != [] {
      AsciiRunLengthAll(t);
      assert t[..|t|] == t && t[|t|..] == [];
    }
  }

  lemma {:induction false} AsciiRunLengthAll(t: string)
    requires AllAscii(t)
    ensures AsciiRunLength(t) == |t|
  {
    if t != [] {
      AsciiRunLengthAll(t[1..]);
    }
  }

  /** `unquote(quote(s, safe)) == s` whenever `safe` leaves `%` to be encoded. */
  lemma UnquoteQuote(s: string, safe: set<char>)
    requires '%' !in safe
    ensures Unquote(Quote(s, safe)) == s
  {
    UnquoteAllAscii(Quote(s, safe));
    UnquoteToBytesQuote(s, safe);
    Utf8DecodeEncodeString(s);
  }

  /** A string without `%` comes out of `unquote` as it went in. */
  lemma {:induction false} UnquoteNoPercent(s: string)
    requires '%' !in s
    ensures Unquote(s) == s
    decreases |s|
  {
    if s != [] {
      if IsAscii(s[0]) {
        var n := AsciiRunLength(s);
        assert s == s[..n] + s[n..];
        UnquoteToBytesPlain(s[..n]);
        Utf8DecodeAscii(s[..n]);
        UnquoteNoPercent(s[n..]);
      } else {
        UnquoteNoPercent(s[1..]);
      }
    }
  }

  lemma {:induction false} UnquoteToBytesPlain(run: string)
    requires AllAscii(run) && '%' !in run
    ensures |UnquoteToBytes(run)| == |run|
    ensures forall i :: 0 <= i < |run| ==> UnquoteToBytes(run)[i] == run[i] as int
  {
    if run != [] {
      UnquoteToBytesPlain(run[1..]);
    }
  }

  lemma {:induction false} Utf8DecodeAscii(run: string)
    requires AllAscii(run)
    requires '%' !in run
    ensures Utf8Decode(UnquoteToBytes(run)) == run
  {
    if run != [] {
      UnquoteToBytesPlain(run);
      var bs := UnquoteToBytes(run);
      assert bs[..1] == [run[0] as int];
      ValidPrefixFull(bs, 1, 1);
      assert UnquoteToBytes(run[1..]) == bs[1..];
      Utf8DecodeAscii(run[1..]);
    }
  }

  // ---------------------------------------------------------------------
  // urlparse

  /** The characters `urlsplit` strips from the front of a URL: the C0
      controls and the space. */
  const C0ControlOrSpace: set<char> := set i | 0 <= i <= 0x20 :: i as char

  /** The characters `urlsplit` deletes wherever they occur. */
  const UnsafeUrlChars: set<char> := {'\t', '\r', '\n'}

  predicate AsciiLetter(c: char) {
    'A' <= c <= 'Z' || 'a' <= c <= 'z'
  }

  predicate SchemeChar(c: char) {
    AsciiLetter(c) || '0' <= c <= '9' || c == '+' || c == '-' || c == '.'
  }

  /** The index of the colon that ends the scheme: the first colon, when
      something precedes it, it starts with an ASCII letter and all of it is
      scheme characters. */
  function SchemeEnd(url: string): (r: Option<nat>)
    ensures r.Some? ==> 0 < r.value < |url| && url[r.value] == ':'
  {
    match IndexOf(url, ":")
    case Some(i) =>
      if i > 0 && AsciiLetter(url[0]) && forall j :: 0 <= j < i ==> SchemeChar(url[j]) then Some(i) else None
    case None => None
  }

  /** The first index at or after `from` holding one of `chars`, or `|s|`. */
  function FindAny(s: string, chars: set<char>, from: nat): (r: nat)
    requires from <= |s|
    ensures from <= r <= |s|
    ensures r < |s| ==> s[r] in chars
    ensures forall j :: from <= j < r ==> s[j] !in chars
    decreases |s| - from
  {
    if from == |s| || s[from] in chars then from else FindAny(s, chars, from + 1)
  }

  /** `s.split(c, 1)` seen as a pair: before and after the first `c`. */
  function SplitFirst(s: string, c: char): (r: (string, string))
    ensures c !in r.0
    ensures c in s ==> s == r.0 + [c] + r.1
    ensures c !in s ==> r == (s, "")
  {
    var i := FindAny(s, {c}, 0);
    if i == |s| then (s, "")
    else
      assert s == s[..i] + [c] + s[i + 1..];
      (s[..i], s[i + 1..])
  }

  datatype SplitResult = SplitResult(scheme: string, netloc: string, path: string, query: string, fragment: string)

  /** The URL with leading controls and spaces stripped and every tab and
      line break deleted. */
  function CleanUrl(url: string): string {
    RemoveChars(LStripSet(url, C0ControlOrSpace), UnsafeUrlChars)
  }

  /** The lower-cased scheme and what follows its colon, or no scheme. */
  function SplitScheme(u: string): (string, string) {
    match SchemeEnd(u)
    case Some(i) => (Lower(u[..i]), u[i + 1..])
    case None => ("", u)
  }

  /** `_splitnetloc(u, 2)` after a leading `//`: the network location runs
      to the first `/`, `?` or `#`. */
  function SplitNetloc(u: string): (string, string) {
    if |u| >= 2 && u[..2] == "//" then
      var d := FindAny(u, {'/', '?', '#'}, 2);
      (u[2..d], u[d..])
    else ("", u)
  }

  /** `urllib.parse.urlsplit(url)`. */
  function UrlSplit(url: string): (r: SplitResult)
    ensures '#' !in r.path && '?' !in r.path
  {
    var (scheme, afterScheme) := SplitScheme(CleanUrl(url));
    var (netloc, afterNetloc) := SplitNetloc(afterScheme);
    var (beforeFragment, fragment) := SplitFirst(afterNetloc, '#');
    var (path, query) := SplitFirst(beforeFragment, '?');
    assert '#' !in path by {
      if '?' in beforeFragment {
        assert forall c :: c in path ==> c in beforeFragment;
      }
    }
    SplitResult(scheme, netloc, path, query, fragment)
  }

  /** The schemes whose last path segment may carry `;parameters`. */
  const UsesParams: set<string> := {
    "", "ftp", "hdl", "prospero", "http", "imap", "https", "shttp", "rtsp", "rtsps",
    "rtspu", "sip", "sips", "mms", "sftp", "tel"
  }

  /** `_splitparams`: the path without the `;` that starts the parameters of
      its last segment (or, with no `/`, the first `;`). */
  function SplitParams(path: string): (r: string)
    ensures |r| <= |path| && r == path[..|r|]
  {
    var i := if '/' in path then
        var lastSlash := LastSlash(path);
        var j := FindAny(path, {';'}, lastSlash);
        if j == |path| then None else Some(j)
      else Some(FindAny(path, {';'}, 0));
    match i
    case None => path
    case Some(j) => path[..j]
  }

  /** `path.rfind("/")` for a path holding a slash. */
  function LastSlash(path: string): (r: nat)
    requires '/' in path
    ensures r < |path| && path[r] == '/'
    ensures forall j :: r < j < |path| ==> path[j] != '/'
  {
    if path[|path| - 1] == '/' then |path| - 1
    else
      assert '/' in path[..|path| - 1] by {
        var k :| 0 <= k < |path| && path[k] == '/';
        assert path[..|path| - 1][k] == '/';
      }
      LastSlash(path[..|path| - 1])
  }

  /** `urllib.parse.urlparse(url).path`. */
  function UrlPath(url: string): (r: string)
    ensures '#' !in r && '?' !in r
  {
    var sp := UrlSplit(url);
    if sp.scheme in UsesParams && ';' in sp.path then
      var r := SplitParams(sp.path);
      assert forall c :: c in r ==> c in sp.path;
      r
    else sp.path
  }

  lemma {:induction false} RemoveCharsAbsent(s: string, chars: set<char>)
    requires forall c :: c in s ==> c !in chars
    ensures RemoveChars(s, chars) == s
  {
    if s != [] {
      assert s[0] in s;
      assert forall c :: c in s[1..] ==> c in s;
      RemoveCharsAbsent(s[1..], chars);
      assert s == [s[0]] + s[1..];
    }
  }

  /** An `https:` URL has the scheme "https". */
  lemma HttpsScheme(url: string, rest: string)
    requires url == "https:" + rest
    ensures SchemeEnd(url) == Some(5) && Lower(url[..5]) == "https" && url[6..] == rest
  {
    forall j | 0 <= j < 5 ensures !(":" <= url[j..]) {
      assert url[j..][0] == url[j] != ':';
    }
    IndexOfAt(url, ":", 5);
    assert url[..5] == "https";
  }

  /** After `//host`, where the host holds none of `/?#`, comes the path. */
  lemma NetlocEnd(rest: string, host: string, path: string)
    requires rest == "//" + host + path
    requires forall c :: c in host ==> c !in {'/', '?', '#'}
    requires path != [] && path[0] == '/'
    ensures FindAny(rest, {'/', '?', '#'}, 2) == 2 + |host|
    ensures rest[2 + |host|..] == path
  {
    var d := FindAny(rest, {'/', '?', '#'}, 2);
    assert rest[2 + |host|] == '/';
    forall j | 2 <= j < 2 + |host| ensures rest[j] !in {'/', '?', '#'} {
      assert rest[j] == host[j - 2] && host[j - 2] in host;
    }
  }

  lemma PlainUrlClean(url: string, host: string, path: string)
    requires url == "https://" + host + path
    requires forall c :: c in host ==> c !in UnsafeUrlChars
    requires forall c :: c in path ==> c !in UnsafeUrlChars
    ensures CleanUrl(url) == url
  {
    assert LStripSet(url, C0ControlOrSpace) == url by {
      assert url[0] == 'h' && 'h' !in C0ControlOrSpace;
    }
    assert forall c :: c in url ==> c in "https://" || c in host || c in path;
    RemoveCharsAbsent(url, UnsafeUrlChars);
  }

  /** The path of a plain `https://host/path` URL is `path` itself. */
  lemma UrlPathOfPlainUrl(host: string, path: string)
    requires forall c :: c in host ==> c !in {'/', '?', '#'} && c !in UnsafeUrlChars
    requires path != [] && path[0] == '/'
    requires forall c :: c in path ==> c !in {'?', '#', ';'} && c !in UnsafeUrlChars
    ensures UrlPath("https://" + host + path) == path
  {
    var url := "https://" + host + path;
    var rest := "//" + host + path;
    PlainUrlClean(url, host, path);
    assert SplitScheme(url) == ("https", rest) by {
      HttpsScheme(url, rest);
    }
    assert SplitNetloc(rest) == (host, path) by {
      NetlocEnd(rest, host, path);
      assert rest[..2] == "//" && rest[2..2 + |host|] == host;
    }
    assert SplitFirst(path, '#') == (path, "");
    assert SplitFirst(path, '?') == (path, "");
    assert UrlSplit(url) == SplitResult("https", host, path, "", "");
  }
}
