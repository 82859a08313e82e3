/** The pure helpers of the utility library: duration formatting, file-name
    sanitising, and the VMID and hostname validators. */
module Utils {
  import opened Wrappers
  import opened Text

  // ---------------------------------------------------------------------
  // human_readable_duration
  // ---------------------------------------------------------------------

  datatype Duration = Duration(days: nat, hours: nat, minutes: nat, secs: nat)

  /** The three nested `divmod`s by 86400, 3600 and 60. */
  function Decompose(n: nat): (d: Duration)
    ensures d.days * 86400 + d.hours * 3600 + d.minutes * 60 + d.secs == n
    ensures d.hours < 24 && d.minutes < 60 && d.secs < 60
  {
    var r1 := n % 86400;
    var r2 := r1 % 3600;
    Duration(n / 86400, r1 / 3600, r2 / 60, r2 % 60)
  }

  /** The decomposition is the only one with those bounds. */
  lemma DecomposeUnique(n: nat, d: Duration)
    requires d.days * 86400 + d.hours * 3600 + d.minutes * 60 + d.secs == n
    requires d.hours < 24 && d.minutes < 60 && d.secs < 60
    ensures d == Decompose(n)
  {
    var e := Decompose(n);
    var lo := d.hours * 3600 + d.minutes * 60 + d.secs;
    var elo := e.hours * 3600 + e.minutes * 60 + e.secs;
    assert lo < 86400 && elo < 86400;
    assert d.days == e.days;
    var mlo := d.minutes * 60 + d.secs;
    var emlo := e.minutes * 60 + e.secs;
    assert mlo < 3600 && emlo < 3600;
    assert d.hours == e.hours;
    assert d.minutes == e.minutes;
  }

  function Token(x: nat, unit: char): string {
    NatToString(x) + [unit]
  }

  /** The non-zero parts in the order d, h, m, s; the seconds part also
      appears when nothing else does. */
  function DurationTokens(d: Duration): seq<string> {
    var ds := if d.days > 0 then [Token(d.days, 'd')] else [];
    var hs := ds + (if d.hours > 0 then [Token(d.hours, 'h')] else []);
    var ms := hs + (if d.minutes > 0 then [Token(d.minutes, 'm')] else []);
    ms + (if d.secs > 0 || ms == [] then [Token(d.secs, 's')] else [])
  }

  /** `human_readable_duration(seconds)` for integral seconds. */
  function HumanReadableDuration(seconds: int): (r: Result<string, string>)
    ensures r.Err? <==> seconds < 0
  {
    if seconds < 0 then Err("Duration cannot be negative")
    else Ok(Join(DurationTokens(Decompose(seconds)), " "))
  }

  /** The seconds multiplier of a unit letter. */
  function UnitSeconds(u: char): Option<nat> {
    if u == 'd' then Some(86400)
    else if u == 'h' then Some(3600)
    else if u == 'm' then Some(60)
    else if u == 's' then Some(1)
    else None
  }

  function ParseToken(tok: string): Option<nat> {
    if |tok| < 2 || !AllDigits(tok[..|tok| - 1]) then None
    else
      match UnitSeconds(tok[|tok| - 1])
      case None => None
      case Some(k) => Some(DigitsValue(tok[..|tok| - 1]) * k)
  }

  function SumTokens(ts: seq<string>): Option<nat> {
    if ts == [] then Some(0)
    else
      match (ParseToken(ts[0]), SumTokens(ts[1..]))
      case (Some(a), Some(b)) => Some(a + b)
      case _ => None
  }

  /** Reads a rendered duration back as a number of seconds: an independent
      reading of the format, used to pin down what the renderer produces. */
  function ParseDuration(s: string): Option<nat> {
    SumTokens(Split(s, ' '))
  }

  lemma ParseTokenOf(x: nat, u: char, k: nat)
    requires UnitSeconds(u) == Some(k)
    ensures ParseToken(Token(x, u)) == Some(x * k)
  {
    var tok := Token(x, u);
    assert tok[..|tok| - 1] == NatToString(x);
    DigitsValueOfNatToString(x);
  }

  lemma {:induction false} SumTokensAppend(a: seq<string>, b: seq<string>)
    ensures SumTokens(a + b) ==
      match (SumTokens(a), SumTokens(b))
      case (Some(x), Some(y)) => Some(x + y)
      case _ => None
  {
    if a == [] {
      assert a + b == b;
    } else {
      assert (a + b)[0] == a[0] && (a + b)[1..] == a[1..] + b;
      SumTokensAppend(a[1..], b);
    }
  }

  /** One optional part contributes its value, present or not. */
  lemma OptionalToken(x: nat, u: char, k: nat, present: bool)
    requires UnitSeconds(u) == Some(k)
    requires !present ==> x == 0
    ensures SumTokens(if present then [Token(x, u)] else []) == Some(x * k)
  {
    if present {
      ParseTokenOf(x, u, k);
      assert [Token(x, u)][1..] == [];
    }
  }

  /** Four token lists with known totals add up. */
  lemma SumTokensFour(a: seq<string>, b: seq<string>, c: seq<string>, e: seq<string>, w: nat, x: nat, y: nat, z: nat)
    requires SumTokens(a) == Some(w) && SumTokens(b) == Some(x)
    requires SumTokens(c) == Some(y) && SumTokens(e) == Some(z)
    ensures SumTokens(a + b + c + e) == Some(w + x + y + z)
  {
    SumTokensAppend(a, b);
    SumTokensAppend(a + b, c);
    SumTokensAppend(a + b + c, e);
  }

  lemma DurationTokensSum(d: Duration)
    ensures SumTokens(DurationTokens(d)) ==
      Some(d.days * 86400 + d.hours * 3600 + d.minutes * 60 + d.secs)
  {
    var ds := if d.days > 0 then [Token(d.days, 'd')] else [];
    var h := if d.hours > 0 then [Token(d.hours, 'h')] else [];
    var m := if d.minutes > 0 then [Token(d.minutes, 'm')] else [];
    var ms := ds + h + m;
    var s := if d.secs > 0 || ms == [] then [Token(d.secs, 's')] else [];
    assert DurationTokens(d) == ds + h + m + s;
    OptionalToken(d.days, 'd', 86400, d.days > 0);
    OptionalToken(d.hours, 'h', 3600, d.hours > 0);
    OptionalToken(d.minutes, 'm', 60, d.minutes > 0);
    OptionalToken(d.secs, 's', 1, d.secs > 0 || ms == []);
    SumTokensFour(ds, h, m, s, d.days * 86400, d.hours * 3600, d.minutes * 60, d.secs * 1);
    assert d.secs * 1 == d.secs;
  }

  lemma TokenNoSpace(x: nat, u: char)
    requires u != ' '
    ensures ' ' !in Token(x, u)
  {
    var t := Token(x, u);
    assert forall j :: 0 <= j < |t| - 1 ==> IsDigit(t[j]);
  }

  lemma DurationTokensShape(d: Duration)
    ensures |DurationTokens(d)| >= 1
    ensures forall i :: 0 <= i < |DurationTokens(d)| ==> ' ' !in DurationTokens(d)[i]
  {
    var ts := DurationTokens(d);
    TokenNoSpace(d.days, 'd');
    TokenNoSpace(d.hours, 'h');
    TokenNoSpace(d.minutes, 'm');
    TokenNoSpace(d.secs, 's');
    assert forall t :: t in ts ==>
      (t == Token(d.days, 'd') || t == Token(d.hours, 'h')
       || t == Token(d.minutes, 'm') || t == Token(d.secs, 's'));
    assert forall i :: 0 <= i < |ts| ==> ts[i] in ts;
  }

  /** Reading the rendered text back gives the number of seconds. */
  lemma DurationRoundTrip(n: nat)
    ensures HumanReadableDuration(n).Ok?
    ensures ParseDuration(HumanReadableDuration(n).value) == Some(n)
  {
    var ts := DurationTokens(Decompose(n));
    DurationTokensShape(Decompose(n));
    SplitJoin(ts, ' ');
    DurationTokensSum(Decompose(n));
  }

  /** Zero parts are omitted: each unit letter appears exactly when its part
      is non-zero, except that a duration of zero renders as `0s`. */
  lemma DurationPartsPresent(d: Duration)
    ensures (Token(d.days, 'd') in DurationTokens(d)) <==> d.days > 0
    ensures (Token(d.hours, 'h') in DurationTokens(d)) <==> d.hours > 0
    ensures (Token(d.minutes, 'm') in DurationTokens(d)) <==> d.minutes > 0
    ensures (Token(d.secs, 's') in DurationTokens(d)) <==>
      (d.secs > 0 || (d.days == 0 && d.hours == 0 && d.minutes == 0))
  {
    var ts := DurationTokens(d);
    forall t | t in ts
      ensures t[|t| - 1] == 'd' ==> d.days > 0
      ensures t[|t| - 1] == 'h' ==> d.hours > 0
      ensures t[|t| - 1] == 'm' ==> d.minutes > 0
      ensures t[|t| - 1] == 's' ==> (d.secs > 0 || (d.days == 0 && d.hours == 0 && d.minutes == 0))
    {
    }
  }

  // ---------------------------------------------------------------------
  // sanitize_filename
  // ---------------------------------------------------------------------

  /** The characters the sanitiser replaces: `<>:"/\|?*` and controls below
      0x20. */
  predicate IsInvalidFileChar(c: char) {
    c == '<' || c == '>' || c == ':' || c == '"' || c == '/' || c == '\\'
    || c == '|' || c == '?' || c == '*' || (c as int) < 32
  }

  predicate NoInvalidFileChar(s: string) {
    forall i :: 0 <= i < |s| ==> !IsInvalidFileChar(s[i])
  }

  /** The `re.sub` step: each invalid character becomes `rep`. */
  function ReplaceInvalid(s: string, rep: string): (r: string)
    ensures NoInvalidFileChar(s) ==> r == s
    ensures NoInvalidFileChar(rep) ==> NoInvalidFileChar(r)
  {
    if s == [] then []
    else
      var tail := ReplaceInvalid(s[1..], rep);
      var head := if IsInvalidFileChar(s[0]) then rep else [s[0]];
      var r := head + tail;
      assert NoInvalidFileChar(rep) ==> NoInvalidFileChar(head);
      assert NoInvalidFileChar(s) ==> NoInvalidFileChar(s[1..]) && r == [s[0]] + s[1..];
      r
  }

  /** With a one-character replacement, position `i` of the result is the
      replacement exactly when position `i` of the input is invalid. */
  lemma {:induction false} ReplaceInvalidPointwise(s: string, rep: string)
    requires |rep| == 1
    ensures |ReplaceInvalid(s, rep)| == |s|
    ensures forall i :: 0 <= i < |s| ==>
      ReplaceInvalid(s, rep)[i] == if IsInvalidFileChar(s[i]) then rep[0] else s[i]
  {
    if s != [] {
      ReplaceInvalidPointwise(s[1..], rep);
    }
  }

  /** Replacement works character by character. */
  lemma {:induction false} ReplaceInvalidAppend(a: string, b: string, rep: string)
    ensures ReplaceInvalid(a + b, rep) == ReplaceInvalid(a, rep) + ReplaceInvalid(b, rep)
  {
    if a == [] {
      assert a + b == b;
    } else {
      assert (a + b)[0] == a[0] && (a + b)[1..] == a[1..] + b;
      ReplaceInvalidAppend(a[1..], b, rep);
    }
  }

  predicate IsStripChar(c: char) { c == '.' || c == ' ' }

  /** `s.lstrip(". ")`: drops exactly the leading run of dots and spaces. */
  function StripLeft(s: string): (r: string)
    ensures |r| <= |s| && r == s[|s| - |r|..]
    ensures r == [] || !IsStripChar(r[0])
    ensures forall k :: 0 <= k < |s| - |r| ==> IsStripChar(s[k])
  {
    if s != [] && IsStripChar(s[0]) then StripLeft(s[1..]) else s
  }

  /** `s.rstrip(". ")`: drops exactly the trailing run of dots and spaces. */
  function StripRight(s: string): (r: string)
    ensures |r| <= |s| && r == s[..|r|]
    ensures r == [] || !IsStripChar(r[|r| - 1])
    ensures forall k :: |r| <= k < |s| ==> IsStripChar(s[k])
  {
    if s != [] && IsStripChar(s[|s| - 1]) then StripRight(s[..|s| - 1]) else s
  }

  /** `s.strip(". ")`. */
  function Strip(s: string): (r: string)
    ensures r == [] || (!IsStripChar(r[0]) && !IsStripChar(r[|r| - 1]))
  {
    var l := StripLeft(s);
    var r := StripRight(l);
    assert r != [] ==> r[0] == l[0];
    r
  }

  /** A leading dot or space is dropped. */
  lemma StripLeftCons(c: char, x: string)
    requires IsStripChar(c)
    ensures StripLeft([c] + x) == StripLeft(x)
  {
    assert ([c] + x)[1..] == x;
  }

  /** A trailing dot or space is dropped. */
  lemma StripRightSnoc(x: string, c: char)
    requires IsStripChar(c)
    ensures StripRight(x + [c]) == StripRight(x)
  {
    assert (x + [c])[..|x|] == x;
  }

  /** Every character of `t` is a dot or a space. */
  predicate AllStrip(t: string) { forall k | 0 <= k < |t| :: IsStripChar(t[k]) }

  /** Nothing is left of a string of dots and spaces. */
  lemma StripAllStripChars(s: string)
    requires AllStrip(s)
    ensures Strip(s) == []
  {
  }

  lemma StripClean(s: string)
    requires s != [] && !IsStripChar(s[0]) && !IsStripChar(s[|s| - 1])
    ensures Strip(s) == s
  {
  }

  /** Stripping only removes characters, so a clean string stays clean. */
  lemma StripKeepsClean(s: string)
    ensures NoInvalidFileChar(s) ==> NoInvalidFileChar(Strip(s))
  {
    var l := StripLeft(s);
    var r := StripRight(l);
    assert r == l[..|r|] && l == s[|s| - |l|..];
    forall i | 0 <= i < |r|
      ensures r[i] == s[|s| - |l| + i]
    {
      assert r[i] == l[i];
    }
  }

  /** `lstrip` stops at the first character that is neither a dot nor a
      space. */
  lemma {:induction false} StripLeftAt(s: string, i: nat)
    requires i < |s| && !IsStripChar(s[i]) && AllStrip(s[..i])
    ensures StripLeft(s) == s[i..]
  {
    if i > 0 {
      assert s[..i][0] == s[0];
      var t := s[1..];
      var u := t[..i - 1];
      assert AllStrip(u) by {
        forall k | 0 <= k < |u| ensures IsStripChar(u[k]) {
          assert u[k] == s[..i][k + 1];
        }
      }
      StripLeftAt(t, i - 1);
      assert t[i - 1..] == s[i..];
    }
  }

  /** `rstrip` stops at the last character that is neither a dot nor a
      space. */
  lemma {:induction false} StripRightAt(s: string, m: nat)
    requires 0 < m <= |s| && !IsStripChar(s[m - 1]) && AllStrip(s[m..])
    ensures StripRight(s) == s[..m]
    decreases |s| - m
  {
    if m < |s| {
      assert s[m..][|s| - 1 - m] == s[|s| - 1];
      var t := s[..|s| - 1];
      var u := t[m..];
      assert AllStrip(u) by {
        forall k | 0 <= k < |u| ensures IsStripChar(u[k]) {
          assert u[k] == s[m..][k];
        }
      }
      StripRightAt(t, m);
      assert t[..m] == s[..m];
    }
  }

  /** `strip` keeps exactly the slice from the first to the last character
      that is neither a dot nor a space. */
  lemma {:induction false} StripIsTrimmed(s: string, i: nat, j: nat)
    requires i <= j < |s| && !IsStripChar(s[i]) && !IsStripChar(s[j])
    requires AllStrip(s[..i]) && AllStrip(s[j + 1..])
    ensures Strip(s) == s[i..j + 1]
  {
    StripLeftAt(s, i);
    StripOfParts(s, i, j);
  }

  /** Positions `j` and beyond, seen from the suffix that starts at `i`. */
  lemma SuffixSlices(s: string, i: nat, j: nat)
    requires i <= j < |s|
    ensures s[i..][j - i] == s[j]
    ensures s[i..][j - i + 1..] == s[j + 1..]
    ensures s[i..][..j - i + 1] == s[i..j + 1]
  {
  }

  /** Once `lstrip` has dropped the first `i` characters, `strip` ends at
      the last character that is neither a dot nor a space. */
  lemma StripOfParts(s: string, i: nat, j: nat)
    requires i <= j < |s| && StripLeft(s) == s[i..]
    requires !IsStripChar(s[j]) && AllStrip(s[j + 1..])
    ensures Strip(s) == s[i..j + 1]
  {
    var l := s[i..];
    SuffixSlices(s, i, j);
    StripRightAt(l, j - i + 1);
  }

  /** `sanitize_filename(name, replacement)`. */
  function SanitizeFilename(name: string, rep: string): (r: Result<string, string>)
    ensures r.Err? <==> name == []
    ensures name != [] && AllStrip(ReplaceInvalid(name, rep)) ==> r == Ok("unnamed")
    ensures r.Ok? ==> r.value != []
    ensures r.Ok? ==> !IsStripChar(r.value[0]) && !IsStripChar(r.value[|r.value| - 1])
    ensures r.Ok? && NoInvalidFileChar(rep) ==> NoInvalidFileChar(r.value)
  {
    if name == [] then Err("Filename cannot be empty")
    else
      var replaced := ReplaceInvalid(name, rep);
      var stripped := Strip(replaced);
      if stripped == [] then Ok("unnamed")
      else
        StripKeepsClean(replaced);
        Ok(stripped)
  }

  /** Otherwise the result is the replaced name cut to the span between its
      first and its last character that is neither a dot nor a space. */
  lemma SanitizeTrims(name: string, rep: string, i: nat, j: nat)
    requires name != []
    requires i <= j < |ReplaceInvalid(name, rep)|
    requires !IsStripChar(ReplaceInvalid(name, rep)[i]) && !IsStripChar(ReplaceInvalid(name, rep)[j])
    requires AllStrip(ReplaceInvalid(name, rep)[..i]) && AllStrip(ReplaceInvalid(name, rep)[j + 1..])
    ensures SanitizeFilename(name, rep) == Ok(ReplaceInvalid(name, rep)[i..j + 1])
  {
    StripIsTrimmed(ReplaceInvalid(name, rep), i, j);
  }

  /** A sanitised name is left alone by a second pass. */
  lemma SanitizeIdempotent(name: string, rep: string)
    requires name != [] && NoInvalidFileChar(rep)
    ensures SanitizeFilename(SanitizeFilename(name, rep).value, rep) == SanitizeFilename(name, rep)
  {
    var v := SanitizeFilename(name, rep).value;
    StripClean(v);
    assert ReplaceInvalid(v, rep) == v;
  }

  // ---------------------------------------------------------------------
  // is_valid_vmid
  // ---------------------------------------------------------------------

  const MinVmid := 100
  const MaxVmid := 999999

  predicate IsValidVmid(vmid: int) { MinVmid <= vmid <= MaxVmid }

  // ---------------------------------------------------------------------
  // is_valid_hostname
  // ---------------------------------------------------------------------

  predicate IsLabelChar(c: char) { IsAlnum(c) || c == '-' || c == '_' }

  /** One label of the pattern: 1 to 63 characters, alphanumeric at both ends,
      alphanumeric, `-` or `_` inside. */
  predicate ValidLabel(l: string) {
    1 <= |l| <= 63 && IsAlnum(l[0]) && IsAlnum(l[|l| - 1])
    && forall i :: 0 <= i < |l| ==> IsLabelChar(l[i])
  }

  /** The whole string is dot-separated valid labels. */
  predicate LabelsMatch(h: string) {
    forall p :: p in Split(h, '.') ==> ValidLabel(p)
  }

  /** `is_valid_hostname` as written: `re.match` with a pattern ending in `$`,
      which also matches in front of one final newline. */
  predicate IsValidHostnameAsWritten(h: string) {
    h != [] && |h| <= 253
    && (LabelsMatch(h) || (h[|h| - 1] == '\n' && LabelsMatch(h[..|h| - 1])))
  }

  /** `is_valid_hostname` as intended: the labels must cover the whole string. */
  predicate IsValidHostname(h: string) {
    h != [] && |h| <= 253 && LabelsMatch(h)
  }

  predicate JoinedLabels(h: string, labels: seq<string>) {
    |labels| >= 1 && (forall i :: 0 <= i < |labels| ==> ValidLabel(labels[i]))
    && Join(labels, ".") == h
  }

  lemma LabelNoDot(l: string)
    requires ValidLabel(l)
    ensures '.' !in l
  {
    assert forall j :: 0 <= j < |l| ==> IsLabelChar(l[j]);
  }

  /** The labels of a valid hostname re-join to it. */
  lemma HostnameSplitsIntoLabels(h: string)
    requires IsValidHostname(h)
    ensures JoinedLabels(h, Split(h, '.'))
  {
    var labels := Split(h, '.');
    JoinSplit(h, '.');
    assert forall i :: 0 <= i < |labels| ==> labels[i] in labels;
  }

  /** A dot-join of valid labels is a valid hostname when short enough. */
  lemma JoinedLabelsValid(h: string, labels: seq<string>)
    requires JoinedLabels(h, labels) && |h| <= 253
    ensures IsValidHostname(h)
  {
    forall i | 0 <= i < |labels|
      ensures '.' !in labels[i]
    {
      LabelNoDot(labels[i]);
    }
    SplitJoin(labels, '.');
    assert labels[0] != [];
    assert h != [] by {
      if |labels| == 1 {
      } else {
        assert |Join(labels, ".")| >= |labels[0]|;
      }
    }
  }

  /** A valid hostname is exactly a dot-join of valid labels. */
  lemma HostnameIsJoinedLabels(h: string)
    ensures IsValidHostname(h) <==>
      (|h| <= 253 && exists labels: seq<string> :: JoinedLabels(h, labels))
  {
    if IsValidHostname(h) {
      HostnameSplitsIntoLabels(h);
    }
    if |h| <= 253 && exists labels: seq<string> :: JoinedLabels(h, labels) {
      var labels: seq<string> :| JoinedLabels(h, labels);
      JoinedLabelsValid(h, labels);
    }
  }

  /** A valid hostname has only label characters and dots: no whitespace. */
  lemma HostnameChars(h: string)
    requires IsValidHostname(h)
    ensures forall i :: 0 <= i < |h| ==> IsLabelChar(h[i]) || h[i] == '.'
  {
    JoinSplit(h, '.');
    JoinChars(Split(h, '.'));
  }

  lemma {:induction false} JoinChars(parts: seq<string>)
    requires forall p :: p in parts ==> ValidLabel(p)
    ensures forall i :: 0 <= i < |Join(parts, ".")| ==>
      IsLabelChar(Join(parts, ".")[i]) || Join(parts, ".")[i] == '.'
  {
    if |parts| > 1 {
      JoinChars(parts[1..]);
      assert parts[0] in parts;
    } else if |parts| == 1 {
      assert parts[0] in parts;
    }
  }

  /** One valid label on its own is a valid hostname. */
  lemma SingleLabelHostname(l: string)
    requires ValidLabel(l)
    ensures IsValidHostname(l)
  {
    LabelNoDot(l);
    SplitNoSep(l, '.');
  }

  /** The two readings agree on every string without a final newline. */
  lemma HostnameAsWrittenAgrees(h: string)
    requires h == [] || h[|h| - 1] != '\n'
    ensures IsValidHostnameAsWritten(h) <==> IsValidHostname(h)
  {
  }
}
