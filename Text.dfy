/** The string operations of the .NET base library that the catalog relies on:
    case folding, whitespace trimming, substring search, joining, and the
    path helpers of System.IO.Path. Case folding is ASCII-only and ordinal. */
module Text {
  import opened Wrappers

  // ---------------------------------------------------------------------------
  // Case folding
  // ---------------------------------------------------------------------------

  function LowerChar(c: char): char {
    if 'A' <= c <= 'Z' then (c as int + 32) as char else c
  }

  /** ToLower / ToLowerInvariant, and the folding behind OrdinalIgnoreCase. */
  function Lower(s: string): (r: string)
    ensures |r| == |s|
    ensures forall i :: 0 <= i < |s| ==> r[i] == LowerChar(s[i])
  {
    if s == [] then [] else [LowerChar(s[0])] + Lower(s[1..])
  }

  lemma {:induction false} LowerIdempotent(s: string)
    ensures Lower(Lower(s)) == Lower(s)
  {
    var l := Lower(s);
    assert forall i :: 0 <= i < |s| ==> Lower(l)[i] == l[i];
  }

  lemma LowerAppend(a: string, b: string)
    ensures Lower(a + b) == Lower(a) + Lower(b)
  {
    assert forall i :: 0 <= i < |a + b| ==> Lower(a + b)[i] == (Lower(a) + Lower(b))[i];
  }

  lemma LowerTail(s: string)
    requires s != []
    ensures Lower(s[1..]) == Lower(s)[1..]
  {
    assert forall i :: 0 <= i < |s| - 1 ==> Lower(s[1..])[i] == Lower(s)[1..][i];
  }

  /** A string without capital letters is already lower case. */
  lemma LowerUnchanged(s: string)
    requires forall i :: 0 <= i < |s| ==> !('A' <= s[i] <= 'Z')
    ensures Lower(s) == s
  {
    assert forall i :: 0 <= i < |s| ==> Lower(s)[i] == s[i];
  }

  /** string.Equals(a, b, StringComparison.OrdinalIgnoreCase). */
  predicate EqualsIgnoreCase(a: string, b: string) {
    Lower(a) == Lower(b)
  }

  // ---------------------------------------------------------------------------
  // Whitespace
  // ---------------------------------------------------------------------------

  /** char.IsWhiteSpace: the Unicode separators plus the control characters
      U+0009..U+000D and U+0085. */
  predicate IsWhiteSpace(c: char) {
    || '\U{9}' <= c <= '\U{D}'
    || c == ' ' || c == '\U{85}' || c == '\U{A0}' || c == '\U{1680}'
    || '\U{2000}' <= c <= '\U{200A}'
    || c == '\U{2028}' || c == '\U{2029}' || c == '\U{202F}' || c == '\U{205F}'
    || c == '\U{3000}'
  }

  /** string.IsNullOrWhiteSpace on a non-null string. */
  predicate IsBlank(s: string) {
    forall i :: 0 <= i < |s| ==> IsWhiteSpace(s[i])
  }

  function TrimStart(s: string): (r: string)
    ensures |r| <= |s| && r == s[|s| - |r|..]
    ensures r != [] ==> !IsWhiteSpace(r[0])
    ensures forall i :: 0 <= i < |s| - |r| ==> IsWhiteSpace(s[i])
  {
    if s != [] && IsWhiteSpace(s[0]) then TrimStart(s[1..]) else s
  }

  function TrimEnd(s: string): (r: string)
    ensures |r| <= |s| && r == s[..|r|]
    ensures r != [] ==> !IsWhiteSpace(r[|r| - 1])
    ensures forall i :: |r| <= i < |s| ==> IsWhiteSpace(s[i])
  {
    if s != [] && IsWhiteSpace(s[|s| - 1]) then TrimEnd(s[..|s| - 1]) else s
  }

  /** string.Trim(): removes leading and trailing whitespace. */
  function Trim(s: string): (r: string)
    ensures |r| <= |s|
    ensures r != [] ==> !IsWhiteSpace(r[0]) && !IsWhiteSpace(r[|r| - 1])
    ensures var i := |s| - |TrimStart(s)|;
            && i + |r| <= |s|
            && r == s[i..i + |r|]
            && (forall k :: 0 <= k < i ==> IsWhiteSpace(s[k]))
            && (forall k :: i + |r| <= k < |s| ==> IsWhiteSpace(s[k]))
  {
    TrimEndCut(s);
    TrimEnd(TrimStart(s))
  }

  /** What TrimEnd cuts after TrimStart is whitespace at the end of the
      original string. */
  lemma TrimEndCut(s: string)
    ensures var t := TrimStart(s);
            var i := |s| - |t|;
            forall k :: i + |TrimEnd(t)| <= k < |s| ==> IsWhiteSpace(s[k])
  {
    var t := TrimStart(s);
    var r := TrimEnd(t);
    var i := |s| - |t|;
    forall k | i + |r| <= k < |s|
      ensures IsWhiteSpace(s[k])
    {
      assert s[k] == t[k - i];
    }
  }

  /** Trim leaves a string alone when it neither starts nor ends with
      whitespace. */
  lemma TrimUnchanged(s: string)
    requires s != [] && !IsWhiteSpace(s[0]) && !IsWhiteSpace(s[|s| - 1])
    ensures Trim(s) == s
  {
    assert TrimStart(s) == s;
  }

  lemma {:induction false} BlankIffTrimEmpty(s: string)
    ensures IsBlank(s) <==> Trim(s) == []
  {
    var t := TrimStart(s);
    var a := |s| - |t|;
    var r := TrimEnd(t);
    assert t == s[a..] && r == t[..|r|];
    if !IsBlank(s) {
      var i :| 0 <= i < |s| && !IsWhiteSpace(s[i]);
      assert a <= i;
      assert t[i - a] == s[i];
      assert |r| > i - a;
    }
  }

  /** TrimStart(c): removes every leading occurrence of `c`. */
  function TrimStartChar(s: string, c: char): string {
    if s != [] && s[0] == c then TrimStartChar(s[1..], c) else s
  }

  /** What TrimStart(c) leaves: a suffix that does not start with `c`, all
      of whose cut-away prefix is `c`. */
  lemma {:induction false} TrimStartCharSuffix(s: string, c: char)
    ensures var r := TrimStartChar(s, c);
            && |r| <= |s| && r == s[|s| - |r|..]
            && (r != [] ==> r[0] != c)
            && (forall i :: 0 <= i < |s| - |r| ==> s[i] == c)
  {
    if s != [] && s[0] == c {
      var r := TrimStartChar(s[1..], c);
      TrimStartCharSuffix(s[1..], c);
      assert s[1..][|s| - 1 - |r|..] == s[|s| - |r|..];
      forall i | 0 < i < |s| - |r| ensures s[i] == c {
        assert s[i] == s[1..][i - 1];
      }
    }
  }

  // ---------------------------------------------------------------------------
  // UTF-16 code units
  // ---------------------------------------------------------------------------

  /** The UTF-16 code units of one character: itself below 0x10000, and
      otherwise a high surrogate followed by a low surrogate. */
  function Units(c: char): (r: seq<int>)
    ensures c as int < 0x10000 ==> r == [c as int]
    ensures c as int >= 0x10000 ==> |r| == 2 && 0xD800 <= r[0] < 0xDC00 && 0xDC00 <= r[1] < 0xE000
  {
    var v := c as int;
    if v < 0x10000 then [v]
    else [0xD800 + (v - 0x10000) / 0x400, 0xDC00 + (v - 0x10000) % 0x400]
  }

  /** The code units a .NET string holds for `s`; `string.Length` and the
      indices of `string` count these. */
  function Utf16(s: string): seq<int> {
    if s == [] then [] else Units(s[0]) + Utf16(s[1..])
  }

  /** Each character takes one or two units. */
  lemma {:induction false} Utf16Length(s: string)
    ensures |s| <= |Utf16(s)| <= 2 * |s|
  {
    if s != [] {
      Utf16Length(s[1..]);
    }
  }

  /** Outside the surrogate range the code units are the characters. */
  lemma {:induction false} Utf16Bmp(s: string)
    requires forall k :: 0 <= k < |s| ==> s[k] as int < 0x10000
    ensures |Utf16(s)| == |s|
  {
    if s != [] {
      Utf16Bmp(s[1..]);
    }
  }

  /** Characters outside the Basic Multilingual Plane take two units each. */
  lemma {:induction false} Utf16Wide(s: string)
    requires forall k :: 0 <= k < |s| ==> s[k] as int >= 0x10000
    ensures |Utf16(s)| == 2 * |s|
  {
    if s != [] {
      Utf16Wide(s[1..]);
    }
  }

  /** A character outside the Basic Multilingual Plane takes two units. */
  lemma SupplementaryCountsTwice()
    ensures |Utf16(['\U{1D538}'])| == 2
    ensures |Utf16("ab\U{1D538}")| == 4
  {
    assert Utf16([]) == [];
    assert ['\U{1D538}'][1..] == [];
    assert "ab\U{1D538}"[1..] == "b\U{1D538}";
    assert "b\U{1D538}"[1..] == ['\U{1D538}'];
  }

  /** The first unit tells a single-unit character from a surrogate pair,
      and then the units give the character back. */
  lemma UnitsInjective(c: char, d: char, rest: seq<int>, rest': seq<int>)
    requires Units(c) + rest == Units(d) + rest'
    ensures c == d && rest == rest'
  {
    var a, b := Units(c) + rest, Units(d) + rest';
    assert a[0] == b[0];
    var v, w := c as int, d as int;
    if v >= 0x10000 && w >= 0x10000 {
      assert a[1] == b[1];
      var x, y := v - 0x10000, w - 0x10000;
      assert x == 0x400 * (x / 0x400) + x % 0x400;
      assert y == 0x400 * (y / 0x400) + y % 0x400;
    }
    assert rest == a[|Units(c)|..] && rest' == b[|Units(d)|..];
  }

  /** Different strings have different code units. */
  lemma {:induction false} Utf16Injective(s: string, t: string)
    requires Utf16(s) == Utf16(t)
    ensures s == t
  {
    if s != [] && t != [] {
      UnitsInjective(s[0], t[0], Utf16(s[1..]), Utf16(t[1..]));
      Utf16Injective(s[1..], t[1..]);
      assert s == [s[0]] + s[1..] && t == [t[0]] + t[1..];
    }
  }

  // ---------------------------------------------------------------------------
  // Search
  // ---------------------------------------------------------------------------

  predicate StartsWith(s: string, prefix: string) {
    |prefix| <= |s| && s[..|prefix|] == prefix
  }

  /** Ordinal string.Contains. */
  predicate Contains(s: string, sub: string)
    decreases |s|
  {
    StartsWith(s, sub) || (s != [] && Contains(s[1..], sub))
  }

  /** `sub` occurs in `s` at position `i`. */
  predicate OccursAt(s: string, sub: string, i: nat) {
    i + |sub| <= |s| && s[i..i + |sub|] == sub
  }

  lemma {:induction false} ContainsIff(s: string, sub: string)
    ensures Contains(s, sub) <==> exists i: nat :: OccursAt(s, sub, i)
    decreases |s|
  {
    if s != [] {
      ContainsIff(s[1..], sub);
      if StartsWith(s, sub) {
        assert OccursAt(s, sub, 0);
      }
      if Contains(s[1..], sub) {
        var i: nat :| OccursAt(s[1..], sub, i);
        assert s[i + 1..i + 1 + |sub|] == s[1..][i..i + |sub|];
        assert OccursAt(s, sub, i + 1);
      }
      if exists i: nat :: OccursAt(s, sub, i) {
        var i: nat :| OccursAt(s, sub, i);
        if i > 0 {
          assert s[1..][i - 1..i - 1 + |sub|] == s[i..i + |sub|];
          assert OccursAt(s[1..], sub, i - 1);
        } else {
          assert StartsWith(s, sub);
        }
      }
    } else if sub == [] {
      assert OccursAt(s, sub, 0);
    }
  }

  /** Index of the first occurrence of `c`. */
  function IndexOf(s: string, c: char): (r: Option<nat>)
    ensures r.Some? ==> r.value < |s| && s[r.value] == c && forall k :: 0 <= k < r.value ==> s[k] != c
    ensures r.None? ==> forall k :: 0 <= k < |s| ==> s[k] != c
  {
    if s == [] then None
    else if s[0] == c then Some(0)
    else match IndexOf(s[1..], c)
      case None => None
      case Some(k) => Some(k + 1)
  }

  /** Index of the last occurrence of `c`. */
  function LastIndexOf(s: string, c: char): (r: Option<nat>)
    ensures r.Some? ==> r.value < |s| && s[r.value] == c && forall k :: r.value < k < |s| ==> s[k] != c
    ensures r.None? ==> forall k :: 0 <= k < |s| ==> s[k] != c
  {
    if s == [] then None
    else if s[|s| - 1] == c then Some(|s| - 1)
    else LastIndexOf(s[..|s| - 1], c)
  }

  /** string.Join(sep, parts). */
  function Join(parts: seq<string>, sep: string): string {
    if parts == [] then []
    else if |parts| == 1 then parts[0]
    else Join(parts[..|parts| - 1], sep) + sep + parts[|parts| - 1]
  }

  function TotalLength(parts: seq<string>): nat {
    if parts == [] then 0 else TotalLength(parts[..|parts| - 1]) + |parts[|parts| - 1]|
  }

  /** Where part `i` starts in the joined string: after the parts before it
      and one separator after each of them. */
  function PartStart(parts: seq<string>, sep: string, i: nat): nat
    requires i <= |parts|
  {
    if i == 0 then 0 else PartStart(parts, sep, i - 1) + |parts[i - 1]| + |sep|
  }

  /** `r` is the parts laid end to end with `sep` between neighbours: each
      part at its start, a separator just before each part but the first,
      and nothing after the last part. */
  ghost predicate IsJoin(r: string, parts: seq<string>, sep: string) {
    && (parts == [] ==> r == [])
    && (parts != [] ==> |r| + |sep| == PartStart(parts, sep, |parts|))
    && PartsAt(r, parts, sep)
    && SeparatorsAt(r, parts, sep)
  }

  /** Each part sits in `r` at its start. */
  ghost predicate PartsAt(r: string, parts: seq<string>, sep: string) {
    forall i :: 0 <= i < |parts| ==> PartAt(r, parts, sep, i)
  }

  ghost predicate PartAt(r: string, parts: seq<string>, sep: string, i: nat)
    requires i < |parts|
  {
    var a := PartStart(parts, sep, i);
    a + |parts[i]| <= |r| && r[a..a + |parts[i]|] == parts[i]
  }

  /** A separator sits in `r` just before each part but the first. */
  ghost predicate SeparatorsAt(r: string, parts: seq<string>, sep: string) {
    forall i :: 0 < i < |parts| ==> SeparatorAt(r, parts, sep, i)
  }

  ghost predicate SeparatorAt(r: string, parts: seq<string>, sep: string, i: nat)
    requires i <= |parts|
  {
    var b := PartStart(parts, sep, i);
    |sep| <= b <= |r| && r[b - |sep|..b] == sep
  }

  /** Part starts depend only on the parts before them. */
  lemma {:induction false} PartStartPrefix(parts: seq<string>, more: seq<string>, sep: string, i: nat)
    requires i <= |parts|
    ensures PartStart(parts + more, sep, i) == PartStart(parts, sep, i)
  {
    if i > 0 {
      PartStartPrefix(parts, more, sep, i - 1);
    }
  }

  /** string.Join lays the parts end to end with the separator between
      neighbours. */
  lemma {:induction false} JoinParts(parts: seq<string>, sep: string)
    ensures IsJoin(Join(parts, sep), parts, sep)
  {
    if |parts| == 1 {
      assert PartStart(parts, sep, 1) == |parts[0]| + |sep|;
      assert Join(parts, sep)[0..|parts[0]|] == parts[0];
    } else if |parts| > 1 {
      var n := |parts| - 1;
      assert parts == parts[..n] + [parts[n]];
      JoinParts(parts[..n], sep);
      JoinSnoc(Join(parts[..n], sep), parts[..n], parts[n], sep);
    }
  }

  /** Appending a separator and a part to a join joins one part more. */
  lemma JoinSnoc(j: string, init: seq<string>, last: string, sep: string)
    requires init != [] && IsJoin(j, init, sep)
    ensures IsJoin(j + sep + last, init + [last], sep)
  {
    PartStartPrefix(init, [last], sep, |init|);
    PartsSnoc(j, init, last, sep);
    SeparatorsSnoc(j, init, last, sep);
  }

  lemma PartsSnoc(j: string, init: seq<string>, last: string, sep: string)
    requires init != [] && |j| + |sep| == PartStart(init, sep, |init|) && PartsAt(j, init, sep)
    ensures PartsAt(j + sep + last, init + [last], sep)
  {
    forall i | 0 <= i < |init| + 1
      ensures PartAt(j + sep + last, init + [last], sep, i)
    {
      PartStartPrefix(init, [last], sep, i);
      if i < |init| {
        assert PartAt(j, init, sep, i);
        OldPartKept(j, init, last, sep, i, PartStart(init, sep, i));
      } else {
        assert (j + sep + last)[|j| + |sep|..] == last;
      }
    }
  }

  /** A part of the old join stays where it was. */
  lemma OldPartKept(j: string, init: seq<string>, last: string, sep: string, i: nat, a: nat)
    requires i < |init| && a + |init[i]| <= |j| && j[a..a + |init[i]|] == init[i]
    ensures (j + sep + last)[a..a + |init[i]|] == init[i]
  {
    assert (j + sep + last)[a..a + |init[i]|] == j[a..a + |init[i]|];
  }

  lemma SeparatorsSnoc(j: string, init: seq<string>, last: string, sep: string)
    requires init != [] && |j| + |sep| == PartStart(init, sep, |init|) && SeparatorsAt(j, init, sep)
    ensures SeparatorsAt(j + sep + last, init + [last], sep)
  {
    forall i | 0 < i < |init| + 1
      ensures SeparatorAt(j + sep + last, init + [last], sep, i)
    {
      PartStartPrefix(init, [last], sep, i);
      if i < |init| {
        assert SeparatorAt(j, init, sep, i);
        OldSeparatorKept(j, sep, last, PartStart(init, sep, i));
      } else {
        assert (j + sep + last)[|j|..|j| + |sep|] == sep;
      }
    }
  }

  /** A separator of the old join stays where it was. */
  lemma OldSeparatorKept(j: string, sep: string, last: string, b: nat)
    requires |sep| <= b <= |j| && j[b - |sep|..b] == sep
    ensures (j + sep + last)[b - |sep|..b] == sep
  {
    assert (j + sep + last)[b - |sep|..b] == j[b - |sep|..b];
  }

  /** The joined string is as long as its parts and separators. */
  lemma {:induction false} JoinLength(parts: seq<string>, sep: string)
    requires parts != []
    ensures |Join(parts, sep)| == TotalLength(parts) + (|parts| - 1) * |sep|
  {
    if |parts| > 1 {
      JoinLength(parts[..|parts| - 1], sep);
    } else {
      assert parts[..0] == [];
    }
  }

  // ---------------------------------------------------------------------------
  // Integers as text
  // ---------------------------------------------------------------------------

  predicate IsDigit(c: char) {
    '0' <= c <= '9'
  }

  predicate AllDigits(s: string) {
    forall i :: 0 <= i < |s| ==> IsDigit(s[i])
  }

  function DigitChar(d: nat): (c: char)
    requires d < 10
    ensures IsDigit(c)
  {
    ('0' as int + d) as char
  }

  /** The decimal digits of `n`, most significant first, no leading zero. */
  function NatToString(n: nat): (r: string)
    ensures r != [] && AllDigits(r)
    ensures |r| > 1 ==> r[0] != '0'
  {
    if n < 10 then [DigitChar(n)] else NatToString(n / 10) + [DigitChar(n % 10)]
  }

  /** Int32.ToString(): the digits, after a minus sign for a negative value. */
  function IntToString(i: int): (r: string)
    ensures r != [] && IsDigit(r[|r| - 1])
    ensures r[0] == '-' || IsDigit(r[0])
  {
    if i < 0 then "-" + NatToString(-i) else NatToString(i)
  }

  /** The number a string of decimal digits denotes. */
  function DigitsValue(s: string): nat
    requires AllDigits(s)
  {
    if s == [] then 0 else DigitsValue(s[..|s| - 1]) * 10 + (s[|s| - 1] as int - '0' as int)
  }

  lemma {:induction false} NatToStringValue(n: nat)
    ensures DigitsValue(NatToString(n)) == n
  {
    if n >= 10 {
      var s := NatToString(n);
      assert s[..|s| - 1] == NatToString(n / 10);
      NatToStringValue(n / 10);
    }
  }

  /** The white space int.TryParse skips before and after the number
      (NumberStyles.Integer): U+0009..U+000D and the space. */
  predicate IsNumberWhite(c: char) {
    '\U{9}' <= c <= '\U{D}' || c == ' '
  }

  function SkipLeadingWhite(s: string): (r: string)
    ensures |r| <= |s| && r == s[|s| - |r|..]
  {
    if s != [] && IsNumberWhite(s[0]) then SkipLeadingWhite(s[1..]) else s
  }

  function SkipTrailingWhite(s: string): (r: string)
    ensures |r| <= |s| && r == s[..|r|]
  {
    if s != [] && IsNumberWhite(s[|s| - 1]) then SkipTrailingWhite(s[..|s| - 1]) else s
  }

  const Int32Min: int := -0x8000_0000
  const Int32Max: int := 0x7FFF_FFFF

  /** An optional sign and at least one decimal digit, with a value in the
      32-bit range. */
  function ParseNumber(t: string): (r: Option<int>)
    ensures r.Some? ==> Int32Min <= r.value <= Int32Max
  {
    var negative := t != [] && t[0] == '-';
    var digits := if t != [] && (t[0] == '-' || t[0] == '+') then t[1..] else t;
    if digits == [] || !AllDigits(digits) then None
    else
      var magnitude: int := DigitsValue(digits);
      var v := if negative then -magnitude else magnitude;
      if Int32Min <= v <= Int32Max then Some(v) else None
  }

  /** int.TryParse(s, out n) with NumberStyles.Integer: white space around
      the number is skipped; None when it returns false. */
  function TryParseInt(s: string): (r: Option<int>)
    ensures r.Some? ==> Int32Min <= r.value <= Int32Max
  {
    ParseNumber(SkipTrailingWhite(SkipLeadingWhite(s)))
  }

  lemma NothingToSkip(s: string)
    requires s != [] && !IsNumberWhite(s[0]) && !IsNumberWhite(s[|s| - 1])
    ensures SkipTrailingWhite(SkipLeadingWhite(s)) == s
  {
    assert SkipLeadingWhite(s) == s;
  }

  /** A digit string, after a minus sign or not, parses to its value when
      that is in range. */
  lemma ParseDigits(d: string, negative: bool, v: int)
    requires d != [] && AllDigits(d)
    requires v == (if negative then -(DigitsValue(d) as int) else DigitsValue(d))
    requires Int32Min <= v <= Int32Max
    ensures ParseNumber(if negative then ['-'] + d else d) == Some(v)
  {
    if negative {
      assert (['-'] + d)[1..] == d;
    } else {
      assert IsDigit(d[0]);
    }
  }

  /** What ToString writes, TryParse reads back. */
  lemma IntToStringParses(n: int)
    requires Int32Min <= n <= Int32Max
    ensures TryParseInt(IntToString(n)) == Some(n)
  {
    var m: nat := if n < 0 then -n else n;
    var d := NatToString(m);
    NatToStringValue(m);
    ParseDigits(d, n < 0, n);
    var s := IntToString(n);
    assert s == if n < 0 then ['-'] + d else d;
    assert IsDigit(d[0]) && IsDigit(d[|d| - 1]) && s[|s| - 1] == d[|d| - 1];
    NothingToSkip(s);
  }

  // ---------------------------------------------------------------------------
  // System.IO.Path (Windows separators)
  // ---------------------------------------------------------------------------

  predicate IsSeparator(c: char) {
    c == '\\' || c == '/'
  }

  /** Start of the last path component: just after the last separator. */
  function NameStart(p: string): (r: nat)
    ensures r <= |p|
    ensures forall k :: r <= k < |p| ==> !IsSeparator(p[k])
    ensures r > 0 ==> IsSeparator(p[r - 1])
  {
    if p == [] then 0
    else if IsSeparator(p[|p| - 1]) then |p|
    else NameStart(p[..|p| - 1])
  }

  /** Path.GetFileName. */
  function FileName(p: string): (r: string)
    ensures forall k :: 0 <= k < |r| ==> !IsSeparator(r[k])
  {
    p[NameStart(p)..]
  }

  /** Path.GetExtension: from the last '.' of the last component, dot
      included; empty when there is no dot or the dot ends the path. */
  function GetExtension(p: string): (r: string)
    ensures r != [] ==> r[0] == '.' && 2 <= |r| <= |p| && r == p[|p| - |r|..]
    ensures forall k :: 1 <= k < |r| ==> r[k] != '.' && !IsSeparator(r[k])
  {
    var name := FileName(p);
    match LastIndexOf(name, '.')
    case None => []
    case Some(i) => if i == |name| - 1 then [] else name[i..]
  }

  /** Path.GetFileNameWithoutExtension: the last component up to its last '.'. */
  function GetFileNameWithoutExtension(p: string): (r: string)
    ensures forall k :: 0 <= k < |r| ==> !IsSeparator(r[k])
  {
    var name := FileName(p);
    match LastIndexOf(name, '.')
    case None => name
    case Some(i) => name[..i]
  }

  /** The stem and the extension put back together give the file name,
      unless the name ends in a bare dot (which the extension omits). */
  lemma StemAndExtension(p: string)
    requires FileName(p) == [] || FileName(p)[|FileName(p)| - 1] != '.'
    ensures GetFileNameWithoutExtension(p) + GetExtension(p) == FileName(p)
  {
  }
}
