/**
 * JavaScript strings and the parts of the JavaScript runtime that the demo-block
 * pipeline calls: character classes of regular expressions, `trim`, `replace`
 * (first occurrence, and global replace of a fixed-length pattern),
 * `parseInt(_, 16)`, `String.fromCharCode` and `encodeURIComponent`. `IndexOf`
 * is a helper that defines the first-occurrence `replace` and the
 * regular-expression matches.
 *
 * A JavaScript string is a sequence of UTF-16 code units, not of Unicode scalar
 * values: `String.fromCharCode` can produce a lone surrogate, which a Dafny
 * `char` cannot hold. So strings here are `seq<CodeUnit>`.
 */
module JsStrings {

  datatype Option<T> = None | Some(value: T)

  /** One UTF-16 code unit. */
  type CodeUnit = c: int | 0 <= c < 0x1_0000

  type JsString = seq<CodeUnit>

  /** The code unit of a character written in the source. Every literal the
      pipeline uses is ASCII, so the replacement branch is never taken. */
  function Unit(c: char): CodeUnit
  {
    if c as int < 0x1_0000 then c as int else 0xFFFD
  }

  /** The code units of a string literal of the source (all of them ASCII). */
  function Lit(s: string): JsString
  {
    seq(|s|, i requires 0 <= i < |s| => Unit(s[i]))
  }

  // ---------------------------------------------------------------------------
  // Character classes
  // ---------------------------------------------------------------------------

  /** `\w` of a regular expression without the `u` flag (also under `i`). */
  predicate IsWordUnit(c: CodeUnit)
  {
    ('A' as int <= c <= 'Z' as int) || ('a' as int <= c <= 'z' as int)
    || ('0' as int <= c <= '9' as int) || c == '_' as int
  }

  predicate IsHexDigit(c: CodeUnit)
  {
    ('0' as int <= c <= '9' as int) || ('a' as int <= c <= 'f' as int)
    || ('A' as int <= c <= 'F' as int)
  }

  function HexDigitValue(c: CodeUnit): (d: nat)
    requires IsHexDigit(c)
    ensures d < 16
  {
    if c <= '9' as int then c - '0' as int
    else if c <= 'F' as int then c - 'A' as int + 10
    else c - 'a' as int + 10
  }

  /** ECMAScript LineTerminator: what `.` of a regular expression refuses. */
  predicate IsLineTerminator(c: CodeUnit)
  {
    c == 0x0A || c == 0x0D || c == 0x2028 || c == 0x2029
  }

  /** ECMAScript WhiteSpace or LineTerminator: what `trim` removes, what
      `parseInt` skips and what `\s` of a regular expression matches. */
  predicate IsJsSpace(c: CodeUnit)
  {
    c == 0x09 || c == 0x0B || c == 0x0C || c == 0x20 || c == 0xA0 || c == 0xFEFF
    || c == 0x1680 || (0x2000 <= c <= 0x200A) || c == 0x202F || c == 0x205F
    || c == 0x3000 || IsLineTerminator(c)
  }

  predicate AllHex(s: JsString)
  {
    forall i :: 0 <= i < |s| ==> IsHexDigit(s[i])
  }

  predicate NoLineTerminator(s: JsString)
  {
    forall i :: 0 <= i < |s| ==> !IsLineTerminator(s[i])
  }

  predicate AllSpace(s: JsString)
  {
    forall i :: 0 <= i < |s| ==> IsJsSpace(s[i])
  }

  // ---------------------------------------------------------------------------
  // Occurrences of a substring
  // ---------------------------------------------------------------------------

  predicate OccursAt(s: JsString, pat: JsString, i: int)
  {
    0 <= i && i + |pat| <= |s| && s[i..i + |pat|] == pat
  }

  ghost predicate Contains(s: JsString, pat: JsString)
  {
    exists i :: OccursAt(s, pat, i)
  }

  predicate StartsWith(s: JsString, prefix: JsString)
  {
    |prefix| <= |s| && s[..|prefix|] == prefix
  }

  predicate EndsWith(s: JsString, suffix: JsString)
  {
    |suffix| <= |s| && s[|s| - |suffix|..] == suffix
  }

  lemma {:induction false} PrefixThen(prefix: JsString, s: JsString)
    ensures StartsWith(prefix + s, prefix) && (prefix + s)[|prefix|..] == s
  {
    assert (prefix + s)[..|prefix|] == prefix;
  }

  predicate FirstOccurrence(s: JsString, pat: JsString, i: int)
  {
    OccursAt(s, pat, i) && forall j :: 0 <= j < i ==> !OccursAt(s, pat, j)
  }

  function IndexOfFrom(s: JsString, pat: JsString, from: nat): (r: int)
    ensures r >= 0 ==> from <= r && OccursAt(s, pat, r)
    ensures r >= 0 ==> forall j :: from <= j < r ==> !OccursAt(s, pat, j)
    ensures r < 0 ==> r == -1 && forall j :: from <= j ==> !OccursAt(s, pat, j)
    decreases |s| - from
  {
    if from + |pat| > |s| then -1
    else if s[from..from + |pat|] == pat then from
    else IndexOfFrom(s, pat, from + 1)
  }

  /** `s.indexOf(pat)`: the first occurrence, or -1. */
  function IndexOf(s: JsString, pat: JsString): (r: int)
    ensures r >= 0 ==> FirstOccurrence(s, pat, r)
    ensures r < 0 <==> !Contains(s, pat)
    ensures r >= -1
  {
    IndexOfFrom(s, pat, 0)
  }

  function LastIndexFrom(s: JsString, pat: JsString, lo: nat, hi: int): (r: Option<nat>)
    ensures r.Some? ==> lo <= r.value <= hi && OccursAt(s, pat, r.value)
    ensures r.Some? ==> forall k :: r.value < k <= hi ==> !OccursAt(s, pat, k)
    ensures r.None? ==> forall k :: lo <= k <= hi ==> !OccursAt(s, pat, k)
    decreases hi - lo + 1
  {
    if hi < lo then None
    else if OccursAt(s, pat, hi) then Some(hi)
    else LastIndexFrom(s, pat, lo, hi - 1)
  }

  /** The last occurrence of `pat` in `s` that starts at `lo` or later. */
  function LastIndexAtLeast(s: JsString, pat: JsString, lo: nat): (r: Option<nat>)
    ensures r.Some? ==> lo <= r.value && OccursAt(s, pat, r.value)
    ensures r.Some? ==> forall k :: r.value < k ==> !OccursAt(s, pat, k)
    ensures r.None? ==> forall k :: lo <= k ==> !OccursAt(s, pat, k)
  {
    LastIndexFrom(s, pat, lo, |s| - |pat|)
  }

  /** The first occurrence is the one `indexOf` reports. */
  lemma {:induction false} IndexOfIs(s: JsString, pat: JsString, i: int)
    requires OccursAt(s, pat, i) && forall k :: 0 <= k < i ==> !OccursAt(s, pat, k)
    ensures IndexOf(s, pat) == i
  {
    assert Contains(s, pat);
  }

  /** The last occurrence is the one `LastIndexAtLeast` reports. */
  lemma {:induction false} LastIndexAtLeastIs(s: JsString, pat: JsString, lo: nat, i: int)
    requires lo <= i && OccursAt(s, pat, i) && forall k :: i < k ==> !OccursAt(s, pat, k)
    ensures LastIndexAtLeast(s, pat, lo) == Some(i)
  {
  }

  /** `s.replace(pat, rep)` with a string pattern: only the first occurrence is
      replaced. The replacement is taken literally, which is what JavaScript
      does for a replacement string without `$`, as all of the pipeline's are. */
  function ReplaceFirst(s: JsString, pat: JsString, rep: JsString): (r: JsString)
    ensures !Contains(s, pat) ==> r == s
    ensures forall i :: FirstOccurrence(s, pat, i) ==> r == s[..i] + rep + s[i + |pat|..]
  {
    var i := IndexOf(s, pat);
    if i < 0 then s else s[..i] + rep + s[i + |pat|..]
  }

  /** Replacing the first occurrence changes the length by `|rep| - |pat|`. */
  lemma {:induction false} ReplaceFirstLength(s: JsString, pat: JsString, rep: JsString)
    ensures |ReplaceFirst(s, pat, rep)| == if Contains(s, pat) then |s| - |pat| + |rep| else |s|
  {
    var i := IndexOf(s, pat);
    if i >= 0 {
      assert FirstOccurrence(s, pat, i);
    }
  }

  // ---------------------------------------------------------------------------
  // trim
  // ---------------------------------------------------------------------------

  /** The number of white-space units at the front of `s`. */
  function LeadingSpaces(s: JsString): (n: nat)
    ensures n <= |s| && AllSpace(s[..n])
    ensures n == |s| || !IsJsSpace(s[n])
  {
    if s != [] && IsJsSpace(s[0]) then
      var n := LeadingSpaces(s[1..]);
      assert forall i :: 0 < i < n + 1 ==> s[i] == s[1..][i - 1];
      n + 1
    else 0
  }

  function TrimStart(s: JsString): (r: JsString)
    ensures |r| <= |s| && r == s[|s| - |r|..]
    ensures AllSpace(s[..|s| - |r|])
    ensures r == [] || !IsJsSpace(r[0])
  {
    s[LeadingSpaces(s)..]
  }

  /** Text that does not start with white space is kept by `trimStart`. */
  lemma {:induction false} TrimStartPlain(t: JsString)
    requires t == [] || !IsJsSpace(t[0])
    ensures TrimStart(t) == t
  {
    assert LeadingSpaces(t) == 0;
  }

  function TrimEnd(s: JsString): (r: JsString)
    ensures |r| <= |s| && r == s[..|r|]
    ensures AllSpace(s[|r|..])
    ensures r == [] || !IsJsSpace(r[|r| - 1])
    decreases |s|
  {
    if s != [] && IsJsSpace(s[|s| - 1]) then
      var r := TrimEnd(s[..|s| - 1]);
      assert s[..|s| - 1][..|r|] == s[..|r|];
      assert forall i :: |r| <= i < |s| - 1 ==> s[i] == s[..|s| - 1][|r|..][i - |r|];
      r
    else s
  }

  /** `s.trim()`. */
  function Trim(s: JsString): JsString
  {
    TrimEnd(TrimStart(s))
  }

  // ---------------------------------------------------------------------------
  // Global replace of a fixed-length pattern
  // ---------------------------------------------------------------------------

  /** `s.replace(re, replace)` for a global regular expression `re` all of whose
      matches are exactly `n` code units long and depend only on those units
      (no anchors, no lookaround): `matches` tells whether `re` matches a
      window of `n` units. The scan tries each position from left to right and
      resumes after a match, so matches never overlap. */
  function ReplaceAll(s: JsString, n: nat, matches: JsString -> bool, replace: JsString --> JsString): JsString
    requires n > 0
    requires forall m :: |m| == n && matches(m) ==> replace.requires(m)
    decreases |s|
  {
    if |s| < n then s
    else if matches(s[..n]) then replace(s[..n]) + ReplaceAll(s[n..], n, matches, replace)
    else [s[0]] + ReplaceAll(s[1..], n, matches, replace)
  }

  /** The number of matches the scan of `ReplaceAll` replaces. */
  function MatchCount(s: JsString, n: nat, matches: JsString -> bool): nat
    requires n > 0
    decreases |s|
  {
    if |s| < n then 0
    else if matches(s[..n]) then 1 + MatchCount(s[n..], n, matches)
    else MatchCount(s[1..], n, matches)
  }

  /** The pattern matches the window of `n` units at `i`. */
  predicate MatchesAt(s: JsString, n: nat, matches: JsString -> bool, i: int)
  {
    0 <= i && i + n <= |s| && matches(s[i..i + n])
  }

  ghost predicate HasMatch(s: JsString, n: nat, matches: JsString -> bool)
  {
    exists i :: MatchesAt(s, n, matches, i)
  }

  /** Without any match, a global replace returns its input. */
  lemma {:induction false} ReplaceAllNoMatch(s: JsString, n: nat, matches: JsString -> bool, replace: JsString --> JsString)
    requires n > 0
    requires forall m :: |m| == n && matches(m) ==> replace.requires(m)
    requires !HasMatch(s, n, matches)
    ensures ReplaceAll(s, n, matches, replace) == s
    decreases |s|
  {
    if |s| >= n {
      assert s[0..n] == s[..n];
      assert !MatchesAt(s, n, matches, 0);
      forall i | 0 <= i && i + n <= |s[1..]|
        ensures !MatchesAt(s[1..], n, matches, i)
      {
        assert s[1..][i..i + n] == s[i + 1..i + 1 + n];
        assert !MatchesAt(s, n, matches, i + 1);
      }
      ReplaceAllNoMatch(s[1..], n, matches, replace);
    }
  }

  /** When every match is replaced by `k` units, each replacement shortens the
      string by `n - k`. */
  lemma {:induction false} ReplaceAllLength(s: JsString, n: nat, k: nat, matches: JsString -> bool, replace: JsString --> JsString)
    requires 0 < n
    requires forall m :: |m| == n && matches(m) ==> replace.requires(m) && |replace(m)| == k
    ensures |ReplaceAll(s, n, matches, replace)| == |s| - (n - k) * MatchCount(s, n, matches)
    decreases |s|
  {
    if |s| >= n {
      var r := ReplaceAll(s, n, matches, replace);
      if matches(s[..n]) {
        var c := MatchCount(s[n..], n, matches);
        ReplaceAllLength(s[n..], n, k, matches, replace);
        assert |r| == k + (|s| - n - (n - k) * c);
        AddOneTimes(n - k, c);
      } else {
        ReplaceAllLength(s[1..], n, k, matches, replace);
      }
    }
  }

  lemma {:induction false} AddOneTimes(d: int, c: int)
    ensures d * (1 + c) == d + d * c
  {
  }

  /** If the pattern matches anywhere, the scan replaces at least once. */
  lemma {:induction false} HasMatchCounted(s: JsString, n: nat, matches: JsString -> bool)
    requires n > 0
    requires HasMatch(s, n, matches)
    ensures MatchCount(s, n, matches) > 0
    decreases |s|
  {
    var i :| MatchesAt(s, n, matches, i);
    if !matches(s[..n]) {
      assert i != 0 by { assert s[0..n] == s[..n]; }
      assert s[1..][i - 1..i - 1 + n] == s[i..i + n];
      assert MatchesAt(s[1..], n, matches, i - 1);
      HasMatchCounted(s[1..], n, matches);
    }
  }

  // ---------------------------------------------------------------------------
  // Numbers: parseInt(_, 16) and String.fromCharCode
  // ---------------------------------------------------------------------------

  /** The Number values `parseInt` can return here. */
  datatype Number = NaN | Finite(value: int)

  function Pow16(k: nat): (p: nat)
    ensures p > 0
  {
    if k == 0 then 1 else 16 * Pow16(k - 1)
  }

  /** The value of a string of hexadecimal digits, most significant first. */
  function HexValue(d: JsString): (v: nat)
    requires AllHex(d)
    ensures v < Pow16(|d|)
    decreases |d|
  {
    if d == [] then 0
    else 16 * HexValue(d[..|d| - 1]) + HexDigitValue(d[|d| - 1])
  }

  /** The value of four hexadecimal digits, written out. */
  lemma {:induction false} HexValueFour(w: JsString)
    requires |w| == 4 && AllHex(w)
    ensures HexValue(w) == 4096 * HexDigitValue(w[0]) + 256 * HexDigitValue(w[1])
                           + 16 * HexDigitValue(w[2]) + HexDigitValue(w[3])
  {
    assert w[..|w| - 1] == w[..3];
    assert HexValue(w) == 16 * HexValue(w[..3]) + HexDigitValue(w[3]);
    assert w[..3][..2] == w[..2];
    assert HexValue(w[..3]) == 16 * HexValue(w[..2]) + HexDigitValue(w[2]);
    assert w[..2][..1] == w[..1];
    assert HexValue(w[..2]) == 16 * HexValue(w[..1]) + HexDigitValue(w[1]);
    assert w[..1][..0] == [];
    assert HexValue(w[..1]) == HexDigitValue(w[0]);
  }

  /** The length of the longest prefix of `s` made of hexadecimal digits. */
  function LeadingHexCount(s: JsString): (k: nat)
    ensures k <= |s| && AllHex(s[..k])
    ensures k < |s| ==> !IsHexDigit(s[k])
    decreases |s|
  {
    if s != [] && IsHexDigit(s[0]) then
      var k := 1 + LeadingHexCount(s[1..]);
      assert s[..k] == [s[0]] + s[1..][..k - 1];
      k
    else 0
  }

  /** A leading `+` or `-` dropped. */
  function DropSign(t: JsString): JsString
  {
    if |t| > 0 && (t[0] == Unit('+') || t[0] == Unit('-')) then t[1..] else t
  }

  predicate HasHexPrefix(u: JsString)
  {
    |u| >= 2 && u[0] == Unit('0') && (u[1] == Unit('x') || u[1] == Unit('X'))
  }

  /** A leading `0x` or `0X` dropped. */
  function DropHexPrefix(u: JsString): JsString
  {
    if HasHexPrefix(u) then u[2..] else u
  }

  /** The longest run of hexadecimal digits at the front of `digits`; none at
      all gives NaN. */
  function ReadHexDigits(digits: JsString): Number
  {
    var k := LeadingHexCount(digits);
    if k == 0 then NaN else Finite(HexValue(digits[..k]))
  }

  function Negate(n: Number): Number
  {
    match n
    case NaN => NaN
    case Finite(v) => Finite(-v)
  }

  /** `parseInt(s, 16)`: skip leading white space, read an optional sign, drop an
      optional `0x`/`0X` prefix (ECMAScript does this for radix 16), then read
      the longest run of hexadecimal digits; no digit at all gives NaN. */
  function ParseIntHex(s: JsString): Number
  {
    var t := TrimStart(s);
    var magnitude := ReadHexDigits(DropHexPrefix(DropSign(t)));
    if |t| > 0 && t[0] == Unit('-') then Negate(magnitude) else magnitude
  }

  /** `String.fromCharCode(n)`: ToUint16, under which NaN becomes 0 and every
      other integer is taken modulo 2^16. */
  function FromCharCode(n: Number): CodeUnit
  {
    match n
    case NaN => 0
    case Finite(v) => v % 0x1_0000
  }

  predicate AllWord(w: JsString)
  {
    forall i :: 0 <= i < |w| ==> IsWordUnit(w[i])
  }

  /** Without leading white space, sign or `0x` prefix, `parseInt(t, 16)` just
      reads the leading digits. */
  lemma {:induction false} ParseIntHexPlain(t: JsString)
    requires t == [] || (!IsJsSpace(t[0]) && t[0] != Unit('-') && t[0] != Unit('+'))
    requires !HasHexPrefix(t)
    ensures ParseIntHex(t) == ReadHexDigits(t)
  {
    TrimStartPlain(t);
    assert DropSign(t) == t;
    assert DropHexPrefix(t) == t;
    assert !(|t| > 0 && t[0] == Unit('-'));
  }

  lemma {:induction false} WordUnitIsPlain(c: CodeUnit)
    requires IsWordUnit(c)
    ensures !IsJsSpace(c) && c != Unit('-') && c != Unit('+')
  {
  }

  /** Word characters carry no white space and no sign, so `parseInt(w, 16)`
      reads the longest run of hexadecimal digits at the front of `w`, unless `w`
      starts with `0x` or `0X`. */
  lemma {:induction false} ParseWordDigits(w: JsString)
    requires AllWord(w)
    requires !(|w| >= 2 && w[0] == Unit('0') && (w[1] == Unit('x') || w[1] == Unit('X')))
    ensures ParseIntHex(w) == if LeadingHexCount(w) == 0 then NaN else Finite(HexValue(w[..LeadingHexCount(w)]))
  {
    if w != [] {
      WordUnitIsPlain(w[0]);
    }
    ParseIntHexPlain(w);
    var k := LeadingHexCount(w);
    assert ReadHexDigits(w) == if k == 0 then NaN else Finite(HexValue(w[..k]));
  }

  /** `parseInt(_, 16)` drops a leading `0x` or `0X` and reads the digits after it. */
  lemma {:induction false} ParseHexPrefixed(w: JsString)
    requires AllWord(w)
    requires |w| >= 2 && w[0] == Unit('0') && (w[1] == Unit('x') || w[1] == Unit('X'))
    ensures ParseIntHex(w) == if LeadingHexCount(w[2..]) == 0 then NaN else Finite(HexValue(w[2..][..LeadingHexCount(w[2..])]))
  {
    assert IsWordUnit(w[0]);
    WordUnitIsPlain(w[0]);
    TrimStartPlain(w);
    assert DropSign(w) == w;
    assert DropHexPrefix(w) == w[2..];
  }

  lemma {:induction false} Pow16Monotone(j: nat, k: nat)
    requires j <= k
    ensures Pow16(j) <= Pow16(k)
    decreases k
  {
    if j < k {
      Pow16Monotone(j, k - 1);
    }
  }

  /** A code already in range is kept by `String.fromCharCode`. */
  lemma {:induction false} FromCharCodeInRange(v: int)
    requires 0 <= v < 0x1_0000
    ensures FromCharCode(Finite(v)) == v
  {
  }

  /** Four hexadecimal digits (no sign, no `0x`) are read exactly. */
  lemma {:induction false} ParseFourHexDigits(w: JsString)
    requires |w| == 4 && AllHex(w)
    ensures ParseIntHex(w) == Finite(HexValue(w))
    ensures FromCharCode(ParseIntHex(w)) == HexValue(w)
  {
    assert IsHexDigit(w[0]) && IsHexDigit(w[1]);
    assert !IsJsSpace(w[0]);
    TrimStartPlain(w);
    assert w[0] != Unit('-') && w[0] != Unit('+');
    assert w[1] != Unit('x') && w[1] != Unit('X');
    assert DropSign(w) == w;
    assert DropHexPrefix(w) == w;
    assert LeadingHexCount(w) == 4;
    assert w[..4] == w;
    assert Pow16(4) == 0x1_0000;
  }

  // ---------------------------------------------------------------------------
  // encodeURIComponent
  // ---------------------------------------------------------------------------

  predicate IsAscii(s: JsString)
  {
    forall i :: 0 <= i < |s| ==> s[i] < 0x80
  }

  /** The characters `encodeURIComponent` leaves alone. */
  predicate IsUriUnreserved(c: CodeUnit)
  {
    ('A' as int <= c <= 'Z' as int) || ('a' as int <= c <= 'z' as int)
    || ('0' as int <= c <= '9' as int)
    || c == '-' as int || c == '_' as int || c == '.' as int || c == '!' as int
    || c == '~' as int || c == '*' as int || c == '\'' as int
    || c == '(' as int || c == ')' as int
  }

  function UpperHexDigit(d: nat): CodeUnit
    requires d < 16
  {
    if d < 10 then '0' as int + d else 'A' as int + d - 10
  }

  /** `encodeURIComponent(s)` for ASCII `s`: every reserved unit becomes `%XX`
      with upper-case hexadecimal digits. */
  function EncodeUriComponent(s: JsString): JsString
    requires IsAscii(s)
    decreases |s|
  {
    if s == [] then []
    else
      var head := if IsUriUnreserved(s[0]) then [s[0]]
                  else [Unit('%'), UpperHexDigit(s[0] / 16), UpperHexDigit(s[0] % 16)];
      head + EncodeUriComponent(s[1..])
  }

  lemma {:induction false} EncodeUriAppend(a: JsString, b: JsString)
    requires IsAscii(a) && IsAscii(b)
    ensures IsAscii(a + b)
    ensures EncodeUriComponent(a + b) == EncodeUriComponent(a) + EncodeUriComponent(b)
    decreases |a|
  {
    if a == [] {
      assert a + b == b;
    } else {
      assert (a + b)[0] == a[0];
      assert (a + b)[1..] == a[1..] + b;
      EncodeUriAppend(a[1..], b);
    }
  }

  /** `encodeURIComponent` leaves a string of word characters unchanged. */
  lemma {:induction false} EncodeUriWords(w: JsString)
    requires forall i :: 0 <= i < |w| ==> IsWordUnit(w[i])
    ensures IsAscii(w) && EncodeUriComponent(w) == w
    decreases |w|
  {
    if w != [] {
      EncodeUriWords(w[1..]);
      assert w == [w[0]] + w[1..];
    }
  }
}
