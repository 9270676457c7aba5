/**
 * The clean-up `.replace(/(<[^>]*)=""(?=.*>)/g, '$1')` of
 * build/webpack.demo.js, line 113, which turns the `attr=""` an HTML
 * serializer writes for a valueless attribute back into `attr`.
 *
 * The regular expression is read as follows. A match starts at a `<`; the
 * greedy `[^>]*` runs to the first `>` after it (line terminators included)
 * and backtracks to the LAST `=""` before that `>`; the lookahead `(?=.*>)`
 * then needs a `>` reachable from the end of `=""` without crossing a line
 * terminator, that is, no line terminator up to that first `>`. Backtracking
 * further cannot help: an earlier `=""` leaves a longer stretch to cross.
 * `EmptyAttributeAt` computes this; `PatternMatchAt` states what a match is
 * and `EmptyAttributeAtIsPatternMatch` connects the two.
 */
module EmptyAttributes {
  import opened JsStrings

  const EmptyValue: JsString := Lit("=\"\"")
  const CloseMark: JsString := [Unit('>')]

  /** Where the match starting at `s[0]` puts its `=""`, if there is one. */
  function EmptyAttributeAt(s: JsString): (r: Option<nat>)
    ensures r.Some? ==> 0 < r.value && OccursAt(s, EmptyValue, r.value)
  {
    if s == [] || s[0] != Unit('<') then None
    else
      var e := IndexOf(s, CloseMark);
      if e < 0 then None
      else match LastIndexAtLeast(s[..e], EmptyValue, 1)
        case None => None
        case Some(j) =>
          assert s[..e][j..j + 3] == s[j..j + 3];
          if NoLineTerminator(s[j + 3..e]) then Some(j) else None
  }

  /** The global replace: each match loses its `=""`, and the scan resumes
      right after it. */
  function DropEmptyAttributes(s: JsString): (r: JsString)
    ensures |r| <= |s|
    decreases |s|
  {
    if s == [] then []
    else match EmptyAttributeAt(s)
      case Some(j) =>
        var rest := DropEmptyAttributes(s[j + 3..]);
        s[..j] + rest
      case None => [s[0]] + DropEmptyAttributes(s[1..])
  }

  // ---------------------------------------------------------------------------
  // What a match of the pattern is
  // ---------------------------------------------------------------------------

  /** `(<[^>]*)=""` matches `s` from its start, with the group ending at `j`. */
  predicate GroupThenEmptyValue(s: JsString, j: int)
  {
    OccursAt(s, EmptyValue, j) && 0 < j && s[0] == Unit('<')
    && forall k :: 0 < k < j ==> s[k] != Unit('>')
  }

  /** `(?=.*>)` holds at `from`. */
  ghost predicate CloseAhead(s: JsString, from: int)
  {
    exists k :: 0 <= from <= k < |s| && s[k] == Unit('>') && NoLineTerminator(s[from..k])
  }

  /** The whole pattern matches from the start of `s`, the group ending at `j`. */
  ghost predicate PatternMatchAt(s: JsString, j: int)
  {
    GroupThenEmptyValue(s, j) && CloseAhead(s, j + 3)
  }

  /** The pattern matches nowhere in `s`. */
  ghost predicate NoPatternMatch(s: JsString)
  {
    forall i, j :: 0 <= i < |s| ==> !PatternMatchAt(s[i..], j)
  }

  lemma {:induction false} FirstClose(s: JsString, e: int)
    requires FirstOccurrence(s, CloseMark, e)
    ensures s[e] == Unit('>')
    ensures forall k :: 0 <= k < e ==> s[k] != Unit('>')
  {
    assert s[e..e + 1] == CloseMark;
    forall k | 0 <= k < e
      ensures s[k] != Unit('>')
    {
      assert !OccursAt(s, CloseMark, k);
      assert s[k..k + 1] == [s[k]];
    }
  }

  lemma {:induction false} NoClose(s: JsString)
    requires !Contains(s, CloseMark)
    ensures forall k :: 0 <= k < |s| ==> s[k] != Unit('>')
  {
    forall k | 0 <= k < |s|
      ensures s[k] != Unit('>')
    {
      assert !OccursAt(s, CloseMark, k);
      assert s[k..k + 1] == [s[k]];
    }
  }

  /** The group cannot run past the first `>`, and `=""` holds no `>`. */
  lemma {:induction false} GroupEndsBeforeClose(s: JsString, e: int, j: int)
    requires FirstOccurrence(s, CloseMark, e)
    ensures GroupThenEmptyValue(s, j) ==> j + 3 <= e && OccursAt(s[..e], EmptyValue, j)
  {
    FirstClose(s, e);
    if GroupThenEmptyValue(s, j) {
      assert s[j..j + 3] == EmptyValue;
      assert forall k :: j <= k < j + 3 ==> s[k] == EmptyValue[k - j] != Unit('>');
      assert j + 3 <= e;
      assert s[..e][j..j + 3] == s[j..j + 3];
    }
  }

  /** Before the first `>`, the lookahead holds exactly when no line
      terminator lies between. */
  lemma {:induction false} CloseAheadIsFirstClose(s: JsString, e: int, from: int)
    requires FirstOccurrence(s, CloseMark, e) && 0 <= from <= e
    ensures CloseAhead(s, from) <==> NoLineTerminator(s[from..e])
  {
    FirstClose(s, e);
    forall k | from <= k < |s| && s[k] == Unit('>') && NoLineTerminator(s[from..k])
      ensures NoLineTerminator(s[from..e])
    {
      assert forall i :: 0 <= i < e - from ==> s[from..e][i] == s[from..k][i];
    }
  }

  lemma {:induction false} NoLineTerminatorLater(s: JsString, a: int, b: int, e: int)
    requires 0 <= a <= b <= e <= |s|
    ensures NoLineTerminator(s[a..e]) ==> NoLineTerminator(s[b..e])
  {
    if NoLineTerminator(s[a..e]) {
      forall i | 0 <= i < e - b
        ensures !IsLineTerminator(s[b..e][i])
      {
        assert s[b..e][i] == s[a..e][i + b - a];
      }
    }
  }

  /** `EmptyAttributeAt` finds a match exactly when the pattern has one, and
      then the one with the longest group, as the greedy `[^>]*` does. */
  lemma {:induction false} EmptyAttributeAtIsPatternMatch(s: JsString)
    ensures EmptyAttributeAt(s).Some? ==> PatternMatchAt(s, EmptyAttributeAt(s).value)
    ensures EmptyAttributeAt(s).Some? ==> forall j :: EmptyAttributeAt(s).value < j ==> !PatternMatchAt(s, j)
    ensures EmptyAttributeAt(s).None? ==> forall j :: !PatternMatchAt(s, j)
  {
    if s != [] && s[0] == Unit('<') {
      var e := IndexOf(s, CloseMark);
      if e < 0 {
        NoClose(s);
      } else {
        FirstClose(s, e);
        forall j
          ensures GroupThenEmptyValue(s, j) ==> j + 3 <= e && OccursAt(s[..e], EmptyValue, j)
        {
          GroupEndsBeforeClose(s, e, j);
        }
        forall from | 0 <= from <= e
          ensures CloseAhead(s, from) <==> NoLineTerminator(s[from..e])
        {
          CloseAheadIsFirstClose(s, e, from);
        }
        match LastIndexAtLeast(s[..e], EmptyValue, 1)
        case None =>
        case Some(last) =>
          assert s[..e][last..last + 3] == s[last..last + 3];
          forall from | 0 <= from <= last + 3
            ensures NoLineTerminator(s[from..e]) ==> NoLineTerminator(s[last + 3..e])
          {
            NoLineTerminatorLater(s, from, last + 3, e);
          }
      }
    }
  }

  // ---------------------------------------------------------------------------
  // The global replace
  // ---------------------------------------------------------------------------

  /** The output is the input when, and only when, the pattern matches
      nowhere in it. */
  lemma {:induction false} DropEmptyAttributesUnchanged(s: JsString)
    ensures DropEmptyAttributes(s) == s <==> NoPatternMatch(s)
    decreases |s|
  {
    if s != [] {
      EmptyAttributeAtIsPatternMatch(s);
      assert s[0..] == s;
      match EmptyAttributeAt(s)
      case Some(j) =>
        assert PatternMatchAt(s[0..], j);
      case None =>
        var rest := DropEmptyAttributes(s[1..]);
        DropEmptyAttributesUnchanged(s[1..]);
        assert ([s[0]] + rest)[1..] == rest;
        assert [s[0]] + s[1..] == s;
        if NoPatternMatch(s) {
          forall i, j | 0 <= i < |s[1..]|
            ensures !PatternMatchAt(s[1..][i..], j)
          {
            assert s[1..][i..] == s[i + 1..];
          }
        }
        if NoPatternMatch(s[1..]) {
          forall i, j | 0 <= i < |s|
            ensures !PatternMatchAt(s[i..], j)
          {
            if i > 0 {
              assert s[i..] == s[1..][i - 1..];
            }
          }
        }
    }
  }

  /** How many `=""` the global replace deletes. */
  function Deletions(s: JsString): nat
    decreases |s|
  {
    if s == [] then 0
    else match EmptyAttributeAt(s)
      case Some(j) => 1 + Deletions(s[j + 3..])
      case None => Deletions(s[1..])
  }

  /** Each deletion shortens the text by exactly 3 units. */
  lemma {:induction false} DropEmptyAttributesLength(s: JsString)
    ensures |DropEmptyAttributes(s)| == |s| - 3 * Deletions(s)
    decreases |s|
  {
    if s != [] {
      match EmptyAttributeAt(s)
      case Some(j) =>
        DropEmptyAttributesLength(s[j + 3..]);
      case None =>
        DropEmptyAttributesLength(s[1..]);
    }
  }

  /** `kept` holds at most the units of `orig`, and exactly as many of each unit
      other than `=` and `"`. */
  ghost predicate KeepsOtherUnits(kept: JsString, orig: JsString)
  {
    multiset(kept) <= multiset(orig)
    && forall c :: c != Unit('=') && c != Unit('"') ==> multiset(kept)[c] == multiset(orig)[c]
  }

  /** Only `=` and `"` are removed: every other unit keeps its count. */
  lemma {:induction false} DropEmptyAttributesKeepsOtherUnits(s: JsString)
    ensures KeepsOtherUnits(DropEmptyAttributes(s), s)
    decreases |s|
  {
    if s != [] {
      match EmptyAttributeAt(s)
      case Some(j) =>
        DropEmptyAttributesKeepsOtherUnits(s[j + 3..]);
        KeepsOtherUnitsAtMatch(s, j, s[j + 3..]);
      case None =>
        DropEmptyAttributesKeepsOtherUnits(s[1..]);
        KeepsOtherUnitsElsewhere(s, s[1..]);
    }
  }

  lemma {:induction false} KeepsOtherUnitsAtMatch(s: JsString, j: nat, rest: JsString)
    requires s != [] && EmptyAttributeAt(s) == Some(j) && rest == s[j + 3..]
    requires KeepsOtherUnits(DropEmptyAttributes(rest), rest)
    ensures KeepsOtherUnits(DropEmptyAttributes(s), s)
  {
    assert DropEmptyAttributes(s) == s[..j] + DropEmptyAttributes(rest);
    SplitAtEmptyValue(s, j);
    KeepsOtherUnitsDropping(s[..j], DropEmptyAttributes(rest), rest);
  }

  lemma {:induction false} KeepsOtherUnitsDropping(p: JsString, kept: JsString, orig: JsString)
    requires KeepsOtherUnits(kept, orig)
    ensures KeepsOtherUnits(p + kept, p + EmptyValue + orig)
  {
    assert multiset(p + kept) == multiset(p) + multiset(kept);
    assert multiset(p + EmptyValue + orig) == multiset(p) + multiset(EmptyValue) + multiset(orig);
    assert multiset(EmptyValue) == multiset{Unit('='), Unit('"'), Unit('"')} by {
      assert EmptyValue == [Unit('='), Unit('"'), Unit('"')];
    }
  }

  lemma {:induction false} KeepsOtherUnitsElsewhere(s: JsString, rest: JsString)
    requires s != [] && EmptyAttributeAt(s) == None && rest == s[1..]
    requires KeepsOtherUnits(DropEmptyAttributes(rest), rest)
    ensures KeepsOtherUnits(DropEmptyAttributes(s), s)
  {
    assert DropEmptyAttributes(s) == [s[0]] + DropEmptyAttributes(rest);
    assert s == [s[0]] + rest;
    KeepsOtherUnitsCons(s[0], DropEmptyAttributes(rest), rest);
  }

  lemma {:induction false} KeepsOtherUnitsCons(x: CodeUnit, kept: JsString, orig: JsString)
    requires KeepsOtherUnits(kept, orig)
    ensures KeepsOtherUnits([x] + kept, [x] + orig)
  {
    assert multiset([x] + kept) == multiset{x} + multiset(kept);
    assert multiset([x] + orig) == multiset{x} + multiset(orig);
  }

  lemma {:induction false} SplitAtEmptyValue(s: JsString, j: int)
    requires OccursAt(s, EmptyValue, j)
    ensures s == s[..j] + EmptyValue + s[j + 3..]
  {
  }

  /** A prefix without `<` passes through unchanged. */
  lemma {:induction false} NoTagOpenPrefix(a: JsString, b: JsString)
    requires forall k :: 0 <= k < |a| ==> a[k] != Unit('<')
    ensures DropEmptyAttributes(a + b) == a + DropEmptyAttributes(b)
    decreases |a|
  {
    if a != [] {
      assert (a + b)[0] == a[0];
      assert EmptyAttributeAt(a + b) == None;
      assert (a + b)[1..] == a[1..] + b;
      assert DropEmptyAttributes(a + b) == [a[0]] + DropEmptyAttributes(a[1..] + b);
      NoTagOpenPrefix(a[1..], b);
      assert [a[0]] + a[1..] == a;
      assert [a[0]] + (a[1..] + DropEmptyAttributes(b)) == a + DropEmptyAttributes(b);
    } else {
      assert a + b == b;
    }
  }

  /** A valueless attribute loses its `=""` when the tag closes on the same
      line: `<input disabled="">` becomes `<input disabled>`. */
  lemma {:induction false} DropsEmptyValue(tag: JsString, rest: JsString)
    requires forall k :: 0 <= k < |tag| ==> tag[k] != Unit('>')
    ensures DropEmptyAttributes([Unit('<')] + tag + EmptyValue + CloseMark + rest)
         == [Unit('<')] + tag + CloseMark + DropEmptyAttributes(rest)
  {
    var a := [Unit('<')] + tag + EmptyValue + CloseMark;
    ClosedTagMatches(tag, a, rest);
    DropAtMatch([Unit('<')] + tag, rest, a + rest);
  }

  /** A match whose `=""` is followed by `>`: the `=""` goes, the `>` stays, and
      the scan goes on after it. */
  lemma {:induction false} DropAtMatch(p: JsString, rest: JsString, s: JsString)
    requires s == p + EmptyValue + CloseMark + rest
    requires EmptyAttributeAt(s) == Some(|p|)
    ensures DropEmptyAttributes(s) == p + CloseMark + DropEmptyAttributes(rest)
  {
    var j := |p|;
    calc {
      DropEmptyAttributes(s);
    == { MatchDropped(s, j); }
      s[..j] + DropEmptyAttributes(s[j + 3..]);
    == { assert s[..j] == p && s[j + 3..] == CloseMark + rest; }
      p + DropEmptyAttributes(CloseMark + rest);
    == { NoTagOpenPrefix(CloseMark, rest); }
      p + (CloseMark + DropEmptyAttributes(rest));
    }
  }

  /** The match at the `<` of `<tag="">` puts its `=""` right after `tag`. */
  lemma {:induction false} ClosedTagMatches(tag: JsString, a: JsString, rest: JsString)
    requires forall k :: 0 <= k < |tag| ==> tag[k] != Unit('>')
    requires a == [Unit('<')] + tag + EmptyValue + CloseMark
    ensures EmptyAttributeAt(a + rest) == Some(|tag| + 1)
  {
    var s := a + rest;
    var j := |tag| + 1;
    var e := j + 3;
    assert s[j..j + 3] == EmptyValue;
    assert s[e..e + 1] == CloseMark;
    forall k | 0 <= k < e
      ensures !OccursAt(s, CloseMark, k)
    {
      if 0 < k < j {
        assert s[k] == tag[k - 1];
      }
      assert s[k..k + 1] == [s[k]];
    }
    IndexOfIs(s, CloseMark, e);
    assert s[..e][j..j + 3] == EmptyValue;
    LastIndexAtLeastIs(s[..e], EmptyValue, 1, j);
    assert s[j + 3..e] == [];
  }

  lemma {:induction false} MatchDropped(s: JsString, j: nat)
    requires EmptyAttributeAt(s) == Some(j)
    ensures j + 3 <= |s| && DropEmptyAttributes(s) == s[..j] + DropEmptyAttributes(s[j + 3..])
  {
  }

  /** The match at the `<` of `<tag=""` followed by a line break and `>`
      fails. */
  lemma {:induction false} LineBreakDefeatsLookahead(tag: JsString, a: JsString, rest: JsString)
    requires forall k :: 0 <= k < |tag| ==> tag[k] != Unit('>')
    requires a == [Unit('<')] + tag + EmptyValue + [0x0A] + CloseMark
    ensures EmptyAttributeAt(a + rest) == None
  {
    var s := a + rest;
    var j := |tag| + 1;
    var e := j + 4;
    assert s[j..j + 3] == EmptyValue;
    assert s[e..e + 1] == CloseMark;
    forall k | 0 <= k < e
      ensures !OccursAt(s, CloseMark, k)
    {
      if 0 < k < j {
        assert s[k] == tag[k - 1];
      }
      assert s[k..k + 1] == [s[k]];
    }
    IndexOfIs(s, CloseMark, e);
    assert s[..e][j..j + 3] == EmptyValue;
    assert !OccursAt(s[..e], EmptyValue, j + 1) by {
      assert s[..e][j + 3] == 0x0A;
    }
    LastIndexAtLeastIs(s[..e], EmptyValue, 1, j);
    assert s[j + 3..e] == [0x0A];
  }

  /** A line break before the closing `>` defeats the lookahead: the
      `=""` stays. */
  lemma {:induction false} KeepsEmptyValueBeforeLineBreak(tag: JsString, a: JsString, rest: JsString)
    requires forall k :: 0 <= k < |tag| ==> tag[k] != Unit('>') && tag[k] != Unit('<')
    requires a == [Unit('<')] + tag + EmptyValue + [0x0A] + CloseMark
    ensures DropEmptyAttributes(a + rest) == a + DropEmptyAttributes(rest)
  {
    LineBreakDefeatsLookahead(tag, a, rest);
    OnlyFirstTagOpen(tag, a);
    UnmatchedTagPassesThrough(a, rest);
  }

  /** A text whose only `<` is its first unit, and whose match there fails,
      passes through unchanged. */
  lemma {:induction false} UnmatchedTagPassesThrough(a: JsString, rest: JsString)
    requires a != [] && EmptyAttributeAt(a + rest) == None
    requires forall k :: 0 <= k < |a[1..]| ==> a[1..][k] != Unit('<')
    ensures DropEmptyAttributes(a + rest) == a + DropEmptyAttributes(rest)
  {
    var s := a + rest;
    calc {
      DropEmptyAttributes(s);
    == { FirstUnitKept(s); }
      [s[0]] + DropEmptyAttributes(s[1..]);
    == { assert s[0] == a[0] && s[1..] == a[1..] + rest; }
      [a[0]] + DropEmptyAttributes(a[1..] + rest);
    == { NoTagOpenPrefix(a[1..], rest); }
      [a[0]] + (a[1..] + DropEmptyAttributes(rest));
    == { assert a == [a[0]] + a[1..]; }
      a + DropEmptyAttributes(rest);
    }
  }

  lemma {:induction false} FirstUnitKept(s: JsString)
    requires s != [] && EmptyAttributeAt(s) == None
    ensures DropEmptyAttributes(s) == [s[0]] + DropEmptyAttributes(s[1..])
  {
  }

  lemma {:induction false} OnlyFirstTagOpen(tag: JsString, a: JsString)
    requires forall k :: 0 <= k < |tag| ==> tag[k] != Unit('<')
    requires a == [Unit('<')] + tag + EmptyValue + [0x0A] + CloseMark
    ensures forall k :: 0 <= k < |a[1..]| ==> a[1..][k] != Unit('<')
  {
    forall k | 0 <= k < |a[1..]|
      ensures a[1..][k] != Unit('<')
    {
      if k < |tag| {
        assert a[1..][k] == tag[k];
      } else {
        assert a[1..][k] == (EmptyValue + [0x0A] + CloseMark)[k - |tag|];
      }
    }
  }
}
