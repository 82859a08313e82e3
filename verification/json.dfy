/** JSON-like values: the shape of a parsed YAML configuration tree, of the
    metadata dictionaries the plugins exchange, and of the `list`/`dict`
    values the state store keeps. Objects are association lists in insertion
    order, like Python dictionaries.

    The module also holds the text codec the state store uses for such values:
    `Encode` renders a value the way Python's `json.dumps` does with its
    default settings (", " and ": " separators, `ensure_ascii`), and `Decode`
    reads JSON text back the way `json.loads` does for the integer subset. */
module Json {
  import opened Wrappers
  import opened Text

  datatype Value =
    | JNull
    | JBool(b: bool)
    | JInt(i: int)
    | JStr(s: string)
    | JArr(items: seq<Value>)
    | JObj(members: seq<Member>)

  datatype Member = Member(key: string, val: Value)

  /** Python truthiness: `None`, `False`, `0`, `""`, `[]` and `{}` are false. */
  predicate Truthy(v: Value) {
    match v
    case JNull => false
    case JBool(b) => b
    case JInt(i) => i != 0
    case JStr(s) => s != []
    case JArr(xs) => xs != []
    case JObj(ms) => ms != []
  }

  function KeySet(ms: seq<Member>): set<string> {
    set m | m in ms :: m.key
  }

  /** The keys of a non-empty member list: its first key and the rest's. */
  lemma KeySetCons(ms: seq<Member>)
    requires ms != []
    ensures KeySet(ms) == {ms[0].key} + KeySet(ms[1..])
  {
    assert ms == [ms[0]] + ms[1..];
  }

  /** `d.get(k)`: the value of the first member with key `k`. */
  function Lookup(ms: seq<Member>, k: string): (r: Option<Value>)
    ensures r.Some? <==> k in KeySet(ms)
    ensures r.Some? ==> Member(k, r.value) in ms
  {
    if ms == [] then None
    else if ms[0].key == k then Some(ms[0].val)
    else
      assert KeySet(ms) == {ms[0].key} + KeySet(ms[1..]) by {
        assert ms == [ms[0]] + ms[1..];
      }
      Lookup(ms[1..], k)
  }

  /** `d[k] = v`: an existing key keeps its position, a new key goes last. */
  function Put(ms: seq<Member>, k: string, v: Value): (r: seq<Member>)
    ensures Lookup(r, k) == Some(v)
    ensures forall k' :: k' != k ==> Lookup(r, k') == Lookup(ms, k')
    ensures KeySet(r) == KeySet(ms) + {k}
  {
    if ms == [] then [Member(k, v)]
    else
      assert KeySet(ms) == {ms[0].key} + KeySet(ms[1..]) by {
        assert ms == [ms[0]] + ms[1..];
      }
      if ms[0].key == k then
        var r := [Member(k, v)] + ms[1..];
        assert r[1..] == ms[1..];
        assert KeySet(r) == {k} + KeySet(ms[1..]) by {
          assert r == [r[0]] + r[1..];
        }
        r
      else
        var tail := Put(ms[1..], k, v);
        var r := [ms[0]] + tail;
        assert r[1..] == tail;
        assert KeySet(r) == {ms[0].key} + KeySet(tail) by {
          assert r == [r[0]] + r[1..];
        }
        r
  }

  // ---------------------------------------------------------------------
  // Rendering (json.dumps)
  // ---------------------------------------------------------------------

  function HexDigit(d: nat): (c: char)
    requires d < 16
  {
    if d < 10 then DigitChar(d) else (87 + d) as char
  }

  predicate IsHexDigit(c: char) {
    IsDigit(c) || ('a' <= c <= 'f') || ('A' <= c <= 'F')
  }

  function HexValue(c: char): (d: nat)
    requires IsHexDigit(c)
    ensures d < 16
  {
    if IsDigit(c) then DigitValue(c)
    else if 'a' <= c <= 'f' then c as int - 87
    else c as int - 55
  }

  /** Four lower-case hex digits, the payload of a `\u` escape. */
  function Hex4(n: nat): (s: string)
    requires n < 65536
    ensures |s| == 4
  {
    var q1 := n / 16;
    var q2 := q1 / 16;
    [HexDigit(q2 / 16), HexDigit(q2 % 16), HexDigit(q1 % 16), HexDigit(n % 16)]
  }

  predicate IsHex4(s: string) {
    |s| >= 4 && IsHexDigit(s[0]) && IsHexDigit(s[1]) && IsHexDigit(s[2]) && IsHexDigit(s[3])
  }

  function Hex4Value(s: string): (n: nat)
    requires IsHex4(s)
    ensures n < 65536
  {
    ((HexValue(s[0]) * 16 + HexValue(s[1])) * 16 + HexValue(s[2])) * 16 + HexValue(s[3])
  }

  /** One character inside a JSON string literal: quote and backslash are
      escaped, the five named controls get their short escapes, printable
      ASCII stands for itself, and everything else becomes `\uXXXX` (a
      surrogate pair beyond the Basic Multilingual Plane). */
  function EscapeChar(c: char): string {
    var n := c as int;
    if c == '"' then "\\\""
    else if c == '\\' then "\\\\"
    else if n == 8 then "\\b"
    else if n == 12 then "\\f"
    else if c == '\n' then "\\n"
    else if c == '\r' then "\\r"
    else if c == '\t' then "\\t"
    else if 32 <= n <= 126 then [c]
    else if n < 65536 then "\\u" + Hex4(n)
    else
      var m := n - 65536;
      "\\u" + Hex4(55296 + m / 1024) + "\\u" + Hex4(56320 + m % 1024)
  }

  function EscapeString(s: string): string {
    if s == [] then [] else EscapeChar(s[0]) + EscapeString(s[1..])
  }

  function Quote(s: string): string {
    "\"" + EscapeString(s) + "\""
  }

  /** The text `json.dumps(v)` produces. */
  function Encode(v: Value): (r: string)
    ensures |r| > 0 && StartsValue(r[0])
  {
    match v
    case JNull => "null"
    case JBool(b) => if b then "true" else "false"
    case JInt(i) => IntToString(i)
    case JStr(s) => Quote(s)
    case JArr(xs) => "[" + EncodeItems(xs) + "]"
    case JObj(ms) => "{" + EncodeMembers(ms) + "}"
  }

  function EncodeItems(xs: seq<Value>): string {
    if xs == [] then "" else Encode(xs[0]) + EncodeItemsTail(xs[1..])
  }

  function EncodeItemsTail(xs: seq<Value>): string {
    if xs == [] then "" else ", " + Encode(xs[0]) + EncodeItemsTail(xs[1..])
  }

  function EncodeMember(m: Member): (r: string)
    ensures |r| > 0 && r[0] == '"'
  {
    Quote(m.key) + ": " + Encode(m.val)
  }

  function EncodeMembers(ms: seq<Member>): string {
    if ms == [] then "" else EncodeMember(ms[0]) + EncodeMembersTail(ms[1..])
  }

  function EncodeMembersTail(ms: seq<Member>): string {
    if ms == [] then "" else ", " + EncodeMember(ms[0]) + EncodeMembersTail(ms[1..])
  }

  // ---------------------------------------------------------------------
  // Reading (json.loads)
  // ---------------------------------------------------------------------

  predicate IsWs(c: char) { c == ' ' || c == '\t' || c == '\n' || c == '\r' }

  /** The characters a rendered value can start with. */
  predicate StartsValue(c: char) {
    c == 'n' || c == 't' || c == 'f' || c == '-' || IsDigit(c) || c == '"' || c == '[' || c == '{'
  }

  function SkipWs(s: string): (t: string)
    ensures |t| <= |s|
    ensures t == [] || !IsWs(t[0])
  {
    if s != [] && IsWs(s[0]) then SkipWs(s[1..]) else s
  }

  /** The text after a backslash inside a string literal. */
  function ParseEscape(s: string): (r: Option<(char, string)>)
    ensures r.Some? ==> |r.value.1| < |s|
  {
    if s == [] then None
    else if s[0] == '"' then Some(('"', s[1..]))
    else if s[0] == '\\' then Some(('\\', s[1..]))
    else if s[0] == '/' then Some(('/', s[1..]))
    else if s[0] == 'b' then Some((8 as char, s[1..]))
    else if s[0] == 'f' then Some((12 as char, s[1..]))
    else if s[0] == 'n' then Some(('\n', s[1..]))
    else if s[0] == 'r' then Some(('\r', s[1..]))
    else if s[0] == 't' then Some(('\t', s[1..]))
    else if s[0] == 'u' && IsHex4(s[1..]) then
      var u := Hex4Value(s[1..]);
      var rest := s[5..];
      if u < 55296 || u >= 57344 then Some((u as char, rest))
      else if u < 56320 && |rest| >= 2 && rest[0] == '\\' && rest[1] == 'u' && IsHex4(rest[2..]) then
        var lo := Hex4Value(rest[2..]);
        if 56320 <= lo < 57344 then
          Some(((65536 + (u - 55296) * 1024 + (lo - 56320)) as char, rest[6..]))
        else None
      else None
    else None
  }

  /** The text after an opening quote, up to and including the closing one. */
  function ParseStringBody(s: string): (r: Option<(string, string)>)
    ensures r.Some? ==> |r.value.1| < |s|
    decreases |s|
  {
    if s == [] then None
    else if s[0] == '"' then Some(([], s[1..]))
    else if s[0] == '\\' then
      match ParseEscape(s[1..])
      case None => None
      case Some((c, rest)) =>
        match ParseStringBody(rest)
        case None => None
        case Some((t, rest2)) => Some(([c] + t, rest2))
    else if (s[0] as int) < 32 then None
    else
      match ParseStringBody(s[1..])
      case None => None
      case Some((t, rest)) => Some(([s[0]] + t, rest))
  }

  /** An integer literal; a leading zero, a fraction or an exponent is not
      part of the modelled subset. */
  function ParseNumber(s: string): (r: Option<(Value, string)>)
    ensures r.Some? ==> |r.value.1| < |s|
  {
    var neg := s != [] && s[0] == '-';
    var body := if neg then s[1..] else s;
    var k := DigitRun(body);
    if k == 0 then None
    else if k > 1 && body[0] == '0' then None
    else if k < |body| && (body[k] == '.' || body[k] == 'e' || body[k] == 'E') then None
    else
      var n: int := DigitsValue(body[..k]);
      Some((JInt(if neg then -n else n), body[k..]))
  }

  function ParseValue(s: string): (r: Option<(Value, string)>)
    ensures r.Some? ==> |r.value.1| < |s|
    decreases |s|, 1
  {
    var t := SkipWs(s);
    if t == [] then None
    else if StartsWith(t, "null") then Some((JNull, t[4..]))
    else if StartsWith(t, "true") then Some((JBool(true), t[4..]))
    else if StartsWith(t, "false") then Some((JBool(false), t[5..]))
    else if t[0] == '"' then
      match ParseStringBody(t[1..])
      case None => None
      case Some((str, rest)) => Some((JStr(str), rest))
    else if t[0] == '-' || IsDigit(t[0]) then ParseNumber(t)
    else if t[0] == '[' then ParseArray(t[1..])
    else if t[0] == '{' then ParseObject(t[1..])
    else None
  }

  /** The text after `[`. */
  function ParseArray(s: string): (r: Option<(Value, string)>)
    ensures r.Some? ==> |r.value.1| < |s|
    decreases |s|, 2
  {
    var t := SkipWs(s);
    if t != [] && t[0] == ']' then Some((JArr([]), t[1..]))
    else
      match ParseValue(s)
      case None => None
      case Some((v, rest)) =>
        match ParseItems(rest)
        case None => None
        case Some((vs, rest2)) => Some((JArr([v] + vs), rest2))
  }

  /** The text after an array element: more `, element`s, then `]`. */
  function ParseItems(s: string): (r: Option<(seq<Value>, string)>)
    ensures r.Some? ==> |r.value.1| < |s|
    decreases |s|, 1
  {
    var t := SkipWs(s);
    if t == [] then None
    else if t[0] == ']' then Some(([], t[1..]))
    else if t[0] == ',' then
      match ParseValue(t[1..])
      case None => None
      case Some((v, rest)) =>
        match ParseItems(rest)
        case None => None
        case Some((vs, rest2)) => Some(([v] + vs, rest2))
    else None
  }

  /** One `"key": value` pair. */
  function ParseMember(s: string): (r: Option<(Member, string)>)
    ensures r.Some? ==> |r.value.1| < |s|
    decreases |s|, 1
  {
    var t := SkipWs(s);
    if t == [] || t[0] != '"' then None
    else
      match ParseStringBody(t[1..])
      case None => None
      case Some((k, r1)) =>
        var r2 := SkipWs(r1);
        if r2 == [] || r2[0] != ':' then None
        else
          match ParseValue(r2[1..])
          case None => None
          case Some((v, r3)) => Some((Member(k, v), r3))
  }

  /** The text after `{`. */
  function ParseObject(s: string): (r: Option<(Value, string)>)
    ensures r.Some? ==> |r.value.1| < |s|
    decreases |s|, 2
  {
    var t := SkipWs(s);
    if t != [] && t[0] == '}' then Some((JObj([]), t[1..]))
    else
      match ParseMember(s)
      case None => None
      case Some((m, rest)) =>
        match ParseMembers(rest)
        case None => None
        case Some((ms, rest2)) => Some((JObj([m] + ms), rest2))
  }

  /** The text after a member: more `, member`s, then `}`. */
  function ParseMembers(s: string): (r: Option<(seq<Member>, string)>)
    ensures r.Some? ==> |r.value.1| < |s|
    decreases |s|, 1
  {
    var t := SkipWs(s);
    if t == [] then None
    else if t[0] == '}' then Some(([], t[1..]))
    else if t[0] == ',' then
      match ParseMember(t[1..])
      case None => None
      case Some((m, rest)) =>
        match ParseMembers(rest)
        case None => None
        case Some((ms, rest2)) => Some(([m] + ms, rest2))
    else None
  }

  /** `json.loads(s)`: one value, surrounded by nothing but whitespace. */
  function Decode(s: string): Option<Value> {
    match ParseValue(s)
    case None => None
    case Some((v, rest)) => if SkipWs(rest) == [] then Some(v) else None
  }

  // ---------------------------------------------------------------------
  // Round trip: json.loads(json.dumps(v)) == v
  // ---------------------------------------------------------------------

  /** What may follow a value inside rendered text. */
  predicate Follows(rest: string) {
    rest == [] || rest[0] == ',' || rest[0] == ']' || rest[0] == '}'
  }

  lemma HexDigitRoundTrip(d: nat)
    requires d < 16
    ensures IsHexDigit(HexDigit(d)) && HexValue(HexDigit(d)) == d
  {
  }

  lemma Hex4RoundTrip(n: nat, rest: string)
    requires n < 65536
    ensures IsHex4(Hex4(n) + rest) && Hex4Value(Hex4(n) + rest) == n
  {
    var q1 := n / 16;
    var q2 := q1 / 16;
    var s := Hex4(n) + rest;
    assert s[0] == HexDigit(q2 / 16) && s[1] == HexDigit(q2 % 16);
    assert s[2] == HexDigit(q1 % 16) && s[3] == HexDigit(n % 16);
    HexDigitRoundTrip(q2 / 16);
    HexDigitRoundTrip(q2 % 16);
    HexDigitRoundTrip(q1 % 16);
    HexDigitRoundTrip(n % 16);
    assert (q2 / 16) * 16 + q2 % 16 == q2;
    assert q2 * 16 + q1 % 16 == q1;
    assert q1 * 16 + n % 16 == n;
  }

  /** A character with a two-character escape. */
  lemma ParseEscapeShort(c: char, t: string)
    requires c == '"' || c == '\\' || c as int == 8 || c as int == 12 || c == '\n' || c == '\r' || c == '\t'
    ensures ParseStringBody(EscapeChar(c) + t) ==
      match ParseStringBody(t)
      case None => None
      case Some((str, rest)) => Some(([c] + str, rest))
  {
    var s := EscapeChar(c) + t;
    assert |EscapeChar(c)| == 2 && EscapeChar(c)[0] == '\\';
    assert s[0] == '\\' && s[1..][1..] == t;
    assert ParseEscape(s[1..]) == Some((c, t));
  }

  /** A character of the Basic Multilingual Plane outside printable ASCII. */
  lemma ParseEscapeBmp(c: char, t: string)
    requires c as int < 65536 && !(32 <= c as int <= 126)
    requires !(c == '"' || c == '\\' || c as int == 8 || c as int == 12 || c == '\n' || c == '\r' || c == '\t')
    ensures ParseStringBody(EscapeChar(c) + t) ==
      match ParseStringBody(t)
      case None => None
      case Some((str, rest)) => Some(([c] + str, rest))
  {
    var n := c as int;
    var h := Hex4(n);
    assert EscapeChar(c) == "\\u" + h;
    var s := EscapeChar(c) + t;
    var u := s[1..];
    assert s[0] == '\\';
    assert u == "u" + h + t;
    assert u[1..] == h + t;
    Hex4RoundTrip(n, t);
    assert u[5..] == t;
    assert (n as char) == c;
    assert ParseEscape(u) == Some((c, t));
  }

  /** A code point above the basic plane splits into a high and a low
      surrogate that recombine to it. */
  lemma SurrogateSplit(n: int)
    requires 65536 <= n < 0x11_0000
    ensures var m := n - 65536;
      55296 <= 55296 + m / 1024 < 56320 && 56320 <= 56320 + m % 1024 < 57344
      && 65536 + (m / 1024) * 1024 + m % 1024 == n
  {
  }

  /** `ParseEscape` on a `u` escape whose high surrogate is followed by a
      second `u` escape holding a low one. */
  lemma ParsePairShape(u: string, h1: string, h2: string, t: string, hi: int, lo: int)
    requires |h1| == 4 && |h2| == 4 && u == "u" + h1 + ("\\u" + h2 + t)
    requires IsHex4(h1 + ("\\u" + h2 + t)) && Hex4Value(h1 + ("\\u" + h2 + t)) == hi
    requires IsHex4(h2 + t) && Hex4Value(h2 + t) == lo
    requires 55296 <= hi < 56320 && 56320 <= lo < 57344
    requires 0 <= 65536 + (hi - 55296) * 1024 + (lo - 56320) < 0x11_0000
    ensures ParseEscape(u) == Some(((65536 + (hi - 55296) * 1024 + (lo - 56320)) as char, t))
  {
    var tail := "\\u" + h2 + t;
    assert u[0] == 'u' && u[1..] == h1 + tail && u[5..] == tail;
    assert tail[0] == '\\' && tail[1] == 'u' && tail[2..] == h2 + t && tail[6..] == t;
  }

  /** A `u` escape holding a surrogate pair reads back as one character. */
  lemma ParseSurrogatePair(hi: int, lo: int, t: string)
    requires 55296 <= hi < 56320 && 56320 <= lo < 57344
    requires 0 <= 65536 + (hi - 55296) * 1024 + (lo - 56320) < 0x11_0000
    ensures ParseEscape("u" + Hex4(hi) + ("\\u" + Hex4(lo) + t))
      == Some(((65536 + (hi - 55296) * 1024 + (lo - 56320)) as char, t))
  {
    var tail := "\\u" + Hex4(lo) + t;
    Hex4RoundTrip(hi, tail);
    Hex4RoundTrip(lo, t);
    ParsePairShape("u" + Hex4(hi) + tail, Hex4(hi), Hex4(lo), t, hi, lo);
  }

  /** The escape of a character beyond the basic plane. */
  lemma EscapeAstralText(c: char)
    requires c as int >= 65536
    ensures var m := c as int - 65536;
      EscapeChar(c) == "\\u" + Hex4(55296 + m / 1024) + "\\u" + Hex4(56320 + m % 1024)
  {
  }

  /** A backslash and a readable escape, followed by the rest of a string. */
  lemma ParseBackslash(s: string, u: string, c: char, t: string)
    requires s == "\\" + u && ParseEscape(u) == Some((c, t))
    ensures ParseStringBody(s) ==
      match ParseStringBody(t)
      case None => None
      case Some((str, rest)) => Some(([c] + str, rest))
  {
    assert s[0] == '\\' && s[1..] == u;
  }

  /** Regrouping the escape of a surrogate pair and what follows it. */
  lemma RegroupPair(h1: string, h2: string, t: string)
    ensures "\\u" + h1 + "\\u" + h2 + t == "\\" + ("u" + h1 + ("\\u" + h2 + t))
  {
  }

  /** A character beyond the Basic Multilingual Plane: a surrogate pair. */
  lemma ParseEscapeAstral(c: char, t: string)
    requires c as int >= 65536
    ensures ParseStringBody(EscapeChar(c) + t) ==
      match ParseStringBody(t)
      case None => None
      case Some((str, rest)) => Some(([c] + str, rest))
  {
    var n := c as int;
    var m := n - 65536;
    var hi, lo := 55296 + m / 1024, 56320 + m % 1024;
    SurrogateSplit(n);
    EscapeAstralText(c);
    RegroupPair(Hex4(hi), Hex4(lo), t);
    ParseSurrogatePair(hi, lo, t);
    ParseBackslash(EscapeChar(c) + t, "u" + Hex4(hi) + ("\\u" + Hex4(lo) + t), c, t);
  }

  /** Reading one escaped character back yields that character. */
  lemma ParseEscapeChar(c: char, t: string)
    ensures ParseStringBody(EscapeChar(c) + t) ==
      match ParseStringBody(t)
      case None => None
      case Some((str, rest)) => Some(([c] + str, rest))
  {
    var n := c as int;
    if c == '"' || c == '\\' || n == 8 || n == 12 || c == '\n' || c == '\r' || c == '\t' {
      ParseEscapeShort(c, t);
    } else if 32 <= n <= 126 {
      var s := EscapeChar(c) + t;
      assert EscapeChar(c) == [c];
      assert s[0] == c && s[1..] == t;
    } else if n < 65536 {
      ParseEscapeBmp(c, t);
    } else {
      ParseEscapeAstral(c, t);
    }
  }

  lemma {:induction false} ParseQuoted(s: string, rest: string)
    ensures ParseStringBody(EscapeString(s) + "\"" + rest) == Some((s, rest))
  {
    if s == [] {
      assert EscapeString(s) + "\"" + rest == "\"" + rest;
    } else {
      var t := EscapeString(s[1..]) + "\"" + rest;
      assert EscapeString(s) + "\"" + rest == EscapeChar(s[0]) + t;
      ParseQuoted(s[1..], rest);
      ParseEscapeChar(s[0], t);
      assert [s[0]] + s[1..] == s;
    }
  }

  /** The digits of a natural number, read back in front of `rest`. */
  lemma ParseNatBody(n: nat, rest: string)
    requires Follows(rest)
    ensures var ds := NatToString(n);
      var body := ds + rest;
      DigitRun(body) == |ds| && !(|ds| > 1 && body[0] == '0') && body[|ds|..] == rest
      && !(|ds| < |body| && (body[|ds|] == '.' || body[|ds|] == 'e' || body[|ds|] == 'E'))
      && AllDigits(body[..|ds|]) && DigitsValue(body[..|ds|]) == n
  {
    var ds := NatToString(n);
    var body := ds + rest;
    DigitRunOfDigits(ds, rest);
    assert body[..|ds|] == ds && body[|ds|..] == rest;
    DigitsValueOfNatToString(n);
  }

  /** A natural number's digits in front of `rest` read back as it. */
  lemma ParseNatText(n: nat, rest: string)
    requires Follows(rest)
    ensures ParseNumber(NatToString(n) + rest) == Some((JInt(n), rest))
  {
    var ds := NatToString(n);
    assert IsDigit(ds[0]);
    assert (ds + rest)[0] == ds[0];
    ParseNatBody(n, rest);
  }

  /** What `ParseNumber` makes of a minus sign in front of a digit run. */
  lemma ParseSigned(s: string, body: string, k: nat, n: int)
    requires s != [] && s[0] == '-' && s[1..] == body
    requires 0 < k <= |body| && DigitRun(body) == k && !(k > 1 && body[0] == '0')
    requires !(k < |body| && (body[k] == '.' || body[k] == 'e' || body[k] == 'E'))
    requires AllDigits(body[..k]) && DigitsValue(body[..k]) == n
    ensures ParseNumber(s) == Some((JInt(-n), body[k..]))
  {
  }

  /** A minus sign and a positive number's digits read back as its negation. */
  lemma ParseNegText(i: int, rest: string)
    requires Follows(rest) && i < 0
    ensures ParseNumber("-" + NatToString(-i) + rest) == Some((JInt(i), rest))
  {
    var ds := NatToString(-i);
    var body := ds + rest;
    var s := "-" + ds + rest;
    assert s == "-" + body;
    assert s[0] == '-' && s[1..] == body;
    ParseNatBody(-i, rest);
    ParseSigned(s, body, |ds|, -i);
  }

  lemma ParseIntText(i: int, rest: string)
    requires Follows(rest)
    ensures ParseNumber(IntToString(i) + rest) == Some((JInt(i), rest))
  {
    if i < 0 {
      ParseNegText(i, rest);
    } else {
      ParseNatText(i, rest);
    }
  }

  lemma SkipWsNone(s: string)
    requires s != [] && !IsWs(s[0])
    ensures SkipWs(s) == s
  {
  }

  lemma SkipWsSpace(s: string)
    ensures SkipWs(" " + s) == SkipWs(s)
  {
    assert (" " + s)[1..] == s;
  }

  /** A leading space changes nothing for the readers that skip whitespace. */
  lemma ParseSpace(s: string)
    ensures ParseValue(" " + s) == ParseValue(s)
    ensures ParseMember(" " + s) == ParseMember(s)
  {
    SkipWsSpace(s);
  }

  /** Text that starts with none of the three keywords. */
  lemma NoKeyword(s: string)
    requires s != [] && s[0] != 'n' && s[0] != 't' && s[0] != 'f'
    ensures !StartsWith(s, "null") && !StartsWith(s, "true") && !StartsWith(s, "false")
  {
    if |s| >= 4 {
      assert s[..4][0] == s[0];
    }
    if |s| >= 5 {
      assert s[..5][0] == s[0];
    }
  }

  lemma ParseKeyword(v: Value, rest: string)
    requires v.JNull? || v.JBool?
    ensures ParseValue(Encode(v) + rest) == Some((v, rest))
  {
    var s := Encode(v) + rest;
    SkipWsNone(s);
    if v.JNull? {
      assert s[..4] == "null" && s[4..] == rest;
    } else if v.b {
      assert s[..4] == "true" && s[4..] == rest;
    } else {
      assert s[..4] != "null";
      assert s[..5] == "false" && s[5..] == rest;
    }
  }

  lemma ParseIntValue(i: int, rest: string)
    requires Follows(rest)
    ensures ParseValue(Encode(JInt(i)) + rest) == Some((JInt(i), rest))
  {
    var s := Encode(JInt(i)) + rest;
    SkipWsNone(s);
    NoKeyword(s);
    assert s[0] != '"';
    ParseIntText(i, rest);
  }

  lemma ParseStrValue(str: string, rest: string)
    ensures ParseValue(Encode(JStr(str)) + rest) == Some((JStr(str), rest))
  {
    var s := Encode(JStr(str)) + rest;
    assert s == "\"" + (EscapeString(str) + "\"" + rest);
    SkipWsNone(s);
    NoKeyword(s);
    ParseQuoted(str, rest);
  }

  lemma ParseValueBracket(s: string)
    requires s != [] && (s[0] == '[' || s[0] == '{')
    ensures s[0] == '[' ==> ParseValue(s) == ParseArray(s[1..])
    ensures s[0] == '{' ==> ParseValue(s) == ParseObject(s[1..])
  {
    SkipWsNone(s);
    NoKeyword(s);
  }

  lemma {:induction false} ParseEncode(v: Value, rest: string)
    requires Follows(rest)
    ensures ParseValue(Encode(v) + rest) == Some((v, rest))
    decreases v, 1
  {
    match v
    case JNull => ParseKeyword(v, rest);
    case JBool(_) => ParseKeyword(v, rest);
    case JInt(i) => ParseIntValue(i, rest);
    case JStr(str) => ParseStrValue(str, rest);
    case JArr(xs) =>
      var s := Encode(v) + rest;
      RegroupHead("[", EncodeItems(xs), "]", rest);
      assert s[0] == '[' && s[1..] == EncodeItems(xs) + "]" + rest;
      ParseValueBracket(s);
      ParseEncodeItems(xs, rest);
    case JObj(ms) =>
      var s := Encode(v) + rest;
      RegroupHead("{", EncodeMembers(ms), "}", rest);
      assert s[0] == '{' && s[1..] == EncodeMembers(ms) + "}" + rest;
      ParseValueBracket(s);
      ParseEncodeMembers(ms, rest);
  }

  /** Regrouping a separator, an element and the text after it. */
  lemma RegroupTail(sep: string, e: string, more: string, close: string, rest: string)
    ensures sep + e + more + close + rest == sep + (e + (more + close + rest))
  {
  }

  /** Regrouping an element and the text after it. */
  lemma RegroupHead(e: string, more: string, close: string, rest: string)
    ensures e + more + close + rest == e + (more + close + rest)
  {
  }

  /** A closing character, as `ParseItems`, `ParseMembers`, `ParseArray`
      and `ParseObject` read it. */
  lemma ParseClose(s: string, rest: string)
    ensures s == "]" + rest ==> ParseItems(s) == Some(([], rest)) && ParseArray(s) == Some((JArr([]), rest))
    ensures s == "}" + rest ==> ParseMembers(s) == Some(([], rest)) && ParseObject(s) == Some((JObj([]), rest))
  {
    if s == "]" + rest || s == "}" + rest {
      SkipWsNone(s);
      assert s[1..] == rest;
    }
  }

  /** `, element` followed by more elements. */
  lemma ItemsStep(s: string, e: string, tail: string, v: Value, vs: seq<Value>, rest: string)
    requires s == ", " + (e + tail)
    requires ParseValue(e + tail) == Some((v, tail)) && ParseItems(tail) == Some((vs, rest))
    ensures ParseItems(s) == Some(([v] + vs, rest))
  {
    SkipWsNone(s);
    assert s[1..] == " " + (e + tail);
    ParseSpace(e + tail);
  }

  /** A first element followed by more elements. */
  lemma ArrayStep(s: string, tail: string, v: Value, vs: seq<Value>, rest: string)
    requires s != [] && StartsValue(s[0])
    requires ParseValue(s) == Some((v, tail)) && ParseItems(tail) == Some((vs, rest))
    ensures ParseArray(s) == Some((JArr([v] + vs), rest))
  {
    SkipWsNone(s);
  }

  /** `, member` followed by more members. */
  lemma MembersStep(s: string, e: string, tail: string, m: Member, ms: seq<Member>, rest: string)
    requires s == ", " + (e + tail) && e != [] && e[0] == '"'
    requires ParseMember(e + tail) == Some((m, tail)) && ParseMembers(tail) == Some((ms, rest))
    ensures ParseMembers(s) == Some(([m] + ms, rest))
  {
    SkipWsNone(s);
    assert s[1..] == " " + (e + tail);
    ParseSpace(e + tail);
  }

  /** A first member followed by more members. */
  lemma ObjectStep(s: string, tail: string, m: Member, ms: seq<Member>, rest: string)
    requires s != [] && s[0] == '"'
    requires ParseMember(s) == Some((m, tail)) && ParseMembers(tail) == Some((ms, rest))
    ensures ParseObject(s) == Some((JObj([m] + ms), rest))
  {
    SkipWsNone(s);
  }

  /** The text of a member laid out around its quoted key. */
  lemma MemberText(s: string, k: string, e: string, rest: string)
    requires s == "\"" + k + "\"" + ": " + e + rest
    ensures s != [] && s[0] == '"' && s[1..] == k + "\"" + (": " + e + rest)
    ensures var r1 := ": " + e + rest; r1 != [] && r1[0] == ':' && r1[1..] == " " + (e + rest)
  {
    var r1 := ": " + e + rest;
    assert s == "\"" + (k + "\"" + r1);
    assert r1 == ":" + (" " + (e + rest));
  }

  lemma {:induction false} ParseEncodeItems(xs: seq<Value>, rest: string)
    requires Follows(rest)
    ensures ParseArray(EncodeItems(xs) + "]" + rest) == Some((JArr(xs), rest))
    decreases xs, 2
  {
    var s := EncodeItems(xs) + "]" + rest;
    if xs == [] {
      assert s == "]" + rest;
      ParseClose(s, rest);
    } else {
      var e := Encode(xs[0]);
      var tail := EncodeItemsTail(xs[1..]) + "]" + rest;
      assert EncodeItems(xs) == e + EncodeItemsTail(xs[1..]);
      RegroupHead(e, EncodeItemsTail(xs[1..]), "]", rest);
      assert s[0] == e[0];
      ParseEncode(xs[0], tail);
      ParseEncodeItemsTail(xs[1..], rest);
      ArrayStep(s, tail, xs[0], xs[1..], rest);
      assert [xs[0]] + xs[1..] == xs;
    }
  }

  lemma {:induction false} ParseEncodeItemsTail(xs: seq<Value>, rest: string)
    requires Follows(rest)
    ensures ParseItems(EncodeItemsTail(xs) + "]" + rest) == Some((xs, rest))
    decreases xs, 1
  {
    var s := EncodeItemsTail(xs) + "]" + rest;
    if xs == [] {
      assert s == "]" + rest;
      ParseClose(s, rest);
    } else {
      var e := Encode(xs[0]);
      var tail := EncodeItemsTail(xs[1..]) + "]" + rest;
      RegroupTail(", ", e, EncodeItemsTail(xs[1..]), "]", rest);
      ParseEncode(xs[0], tail);
      ParseEncodeItemsTail(xs[1..], rest);
      ItemsStep(s, e, tail, xs[0], xs[1..], rest);
      assert [xs[0]] + xs[1..] == xs;
    }
  }

  lemma ParseMemberSteps(s: string, k: string, r1: string, v: Value, rest: string)
    requires s != [] && s[0] == '"' && ParseStringBody(s[1..]) == Some((k, r1))
    requires r1 != [] && r1[0] == ':' && ParseValue(r1[1..]) == Some((v, rest))
    ensures ParseMember(s) == Some((Member(k, v), rest))
  {
    SkipWsNone(s);
    SkipWsNone(r1);
  }

  lemma {:induction false} ParseEncodeMember(m: Member, rest: string)
    requires Follows(rest)
    ensures ParseMember(EncodeMember(m) + rest) == Some((m, rest))
    decreases m, 1
  {
    var e := Encode(m.val);
    var r1 := ": " + e + rest;
    var s := EncodeMember(m) + rest;
    MemberText(s, EscapeString(m.key), e, rest);
    ParseQuoted(m.key, r1);
    ParseSpace(e + rest);
    ParseEncode(m.val, rest);
    ParseMemberSteps(s, m.key, r1, m.val, rest);
  }

  lemma {:induction false} ParseEncodeMembers(ms: seq<Member>, rest: string)
    requires Follows(rest)
    ensures ParseObject(EncodeMembers(ms) + "}" + rest) == Some((JObj(ms), rest))
    decreases ms, 2
  {
    var s := EncodeMembers(ms) + "}" + rest;
    if ms == [] {
      assert s == "}" + rest;
      ParseClose(s, rest);
    } else {
      var e := EncodeMember(ms[0]);
      var tail := EncodeMembersTail(ms[1..]) + "}" + rest;
      assert EncodeMembers(ms) == e + EncodeMembersTail(ms[1..]);
      RegroupHead(e, EncodeMembersTail(ms[1..]), "}", rest);
      assert s[0] == e[0];
      ParseEncodeMember(ms[0], tail);
      ParseEncodeMembersTail(ms[1..], rest);
      ObjectStep(s, tail, ms[0], ms[1..], rest);
      assert [ms[0]] + ms[1..] == ms;
    }
  }

  lemma {:induction false} ParseEncodeMembersTail(ms: seq<Member>, rest: string)
    requires Follows(rest)
    ensures ParseMembers(EncodeMembersTail(ms) + "}" + rest) == Some((ms, rest))
    decreases ms, 1
  {
    var s := EncodeMembersTail(ms) + "}" + rest;
    if ms == [] {
      assert s == "}" + rest;
      ParseClose(s, rest);
    } else {
      var e := EncodeMember(ms[0]);
      var tail := EncodeMembersTail(ms[1..]) + "}" + rest;
      RegroupTail(", ", e, EncodeMembersTail(ms[1..]), "}", rest);
      ParseEncodeMember(ms[0], tail);
      ParseEncodeMembersTail(ms[1..], rest);
      MembersStep(s, e, tail, ms[0], ms[1..], rest);
      assert [ms[0]] + ms[1..] == ms;
    }
  }

  /** Rendering a value and reading the text back gives the value. */
  lemma DecodeEncode(v: Value)
    ensures Decode(Encode(v)) == Some(v)
  {
    ParseEncode(v, []);
    assert Encode(v) + [] == Encode(v);
  }
}
