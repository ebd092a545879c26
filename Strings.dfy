/** Character classes, trimming, searching and formatting on strings.
    JavaScript and Rust disagree on what counts as white space, so the
    trimming functions take the flavour of the language whose library call
    they model. */
module Strings {

  datatype Option<T> = None | Some(value: T)

  /** Which language's notion of white space a trim uses. */
  datatype Flavour = Js | Rust

  /** JavaScript `\s` and `String.prototype.trim`: WhiteSpace and LineTerminator. */
  predicate IsJsSpace(c: char)
  {
    c == '\t' || c == '\n' || c == '\U{B}' || c == '\U{C}' || c == '\r' || c == ' '
    || c == '\U{A0}' || c == '\U{1680}' || ('\U{2000}' <= c <= '\U{200A}')
    || c == '\U{2028}' || c == '\U{2029}' || c == '\U{202F}' || c == '\U{205F}'
    || c == '\U{3000}' || c == '\U{FEFF}'
  }

  /** Rust `char::is_whitespace` (the Unicode White_Space property). */
  predicate IsRustSpace(c: char)
  {
    ('\t' <= c <= '\r') || c == ' ' || c == '\U{85}' || c == '\U{A0}' || c == '\U{1680}'
    || ('\U{2000}' <= c <= '\U{200A}') || c == '\U{2028}' || c == '\U{2029}'
    || c == '\U{202F}' || c == '\U{205F}' || c == '\U{3000}'
  }

  predicate IsSpace(c: char, f: Flavour)
  {
    match f
    case Js => IsJsSpace(c)
    case Rust => IsRustSpace(c)
  }

  /** A JavaScript line terminator: what the regex `.` does not match. */
  predicate IsLineTerminator(c: char)
  {
    c == '\n' || c == '\r' || c == '\U{2028}' || c == '\U{2029}'
  }

  predicate AllSpace(s: string, f: Flavour)
  {
    forall i :: 0 <= i < |s| ==> IsSpace(s[i], f)
  }

  /** The first index at or after `i` that does not hold white space. */
  function SkipSpace(s: string, f: Flavour, i: nat): (r: nat)
    requires i <= |s|
    decreases |s| - i
    ensures i <= r <= |s|
  {
    if i < |s| && IsSpace(s[i], f) then SkipSpace(s, f, i + 1) else i
  }

  /** The end of `s[lo..j]` once trailing white space is dropped. */
  function SkipSpaceBack(s: string, f: Flavour, lo: nat, j: nat): (r: nat)
    requires lo <= j <= |s|
    decreases j
    ensures lo <= r <= j
  {
    if lo < j && IsSpace(s[j - 1], f) then SkipSpaceBack(s, f, lo, j - 1) else j
  }

  lemma {:induction false} SkipSpaceSpec(s: string, f: Flavour, i: nat)
    requires i <= |s|
    decreases |s| - i
    ensures var r := SkipSpace(s, f, i);
      (forall k :: i <= k < r ==> IsSpace(s[k], f)) && (r < |s| ==> !IsSpace(s[r], f))
  {
    if i < |s| && IsSpace(s[i], f) {
      SkipSpaceSpec(s, f, i + 1);
    }
  }

  lemma {:induction false} SkipSpaceBackSpec(s: string, f: Flavour, lo: nat, j: nat)
    requires lo <= j <= |s|
    decreases j
    ensures var r := SkipSpaceBack(s, f, lo, j);
      (forall k :: r <= k < j ==> IsSpace(s[k], f)) && (lo < r ==> !IsSpace(s[r - 1], f))
  {
    if lo < j && IsSpace(s[j - 1], f) {
      SkipSpaceBackSpec(s, f, lo, j - 1);
    }
  }

  /** `trim()` / `str::trim`: white space dropped from both ends. */
  function Trim(s: string, f: Flavour): string
  {
    var lo := SkipSpace(s, f, 0);
    s[lo..SkipSpaceBack(s, f, lo, |s|)]
  }

  /** Trimming drops only white space, from either side, and leaves a string
      that neither starts nor ends with white space; it is empty exactly when
      the input is all white space. */
  lemma TrimSpec(s: string, f: Flavour)
    ensures var r := Trim(s, f);
      exists lo, hi :: (0 <= lo <= hi <= |s| && r == s[lo..hi] && AllSpace(s[..lo], f) && AllSpace(s[hi..], f))
    ensures var r := Trim(s, f); r == [] || (!IsSpace(r[0], f) && !IsSpace(r[|r| - 1], f))
    ensures AllSpace(s, f) <==> Trim(s, f) == []
  {
    var lo := SkipSpace(s, f, 0);
    var hi := SkipSpaceBack(s, f, lo, |s|);
    SkipSpaceSpec(s, f, 0);
    SkipSpaceBackSpec(s, f, lo, |s|);
    var r := s[lo..hi];
    assert AllSpace(s[..lo], f);
    assert AllSpace(s[hi..], f);
    if r == [] {
      assert lo == hi == |s|;
      assert AllSpace(s, f);
    } else {
      assert r[0] == s[lo] && r[|r| - 1] == s[hi - 1];
      assert !AllSpace(s, f);
    }
  }

  /** A string that neither starts nor ends with white space is its own trim. */
  lemma TrimUnchanged(s: string, f: Flavour)
    requires s != [] && !IsSpace(s[0], f) && !IsSpace(s[|s| - 1], f)
    ensures Trim(s, f) == s
  {
    TrimSpec(s, f);
    var r := Trim(s, f);
    var lo, hi :| 0 <= lo <= hi <= |s| && r == s[lo..hi] && AllSpace(s[..lo], f) && AllSpace(s[hi..], f);
  }

  /** Whatever occurs in the trimmed string occurs in the string. */
  lemma TrimContains(s: string, f: Flavour, p: string)
    requires Contains(Trim(s, f), p)
    ensures Contains(s, p)
  {
    TrimSpec(s, f);
    var r := Trim(s, f);
    var lo, hi :| 0 <= lo <= hi <= |s| && r == s[lo..hi] && AllSpace(s[..lo], f) && AllSpace(s[hi..], f);
    SliceContains(s, lo, hi, p);
  }

  function TrimJs(s: string): string { Trim(s, Js) }

  function TrimRust(s: string): string { Trim(s, Rust) }

  predicate StartsWith(s: string, p: string)
  {
    |p| <= |s| && s[..|p|] == p
  }

  predicate EndsWith(s: string, p: string)
  {
    |p| <= |s| && s[|s| - |p|..] == p
  }

  /** `p` occurs in `s` starting at index `i`. */
  predicate OccursAt(s: string, p: string, i: nat)
  {
    i + |p| <= |s| && s[i..i + |p|] == p
  }

  /** JavaScript `includes` / Rust `contains` for a string pattern. */
  predicate Contains(s: string, p: string)
  {
    exists i :: 0 <= i <= |s| && OccursAt(s, p, i)
  }

  /** An occurrence inside a slice is an occurrence in the whole string. */
  lemma SliceContains(s: string, lo: nat, hi: nat, p: string)
    requires lo <= hi <= |s| && Contains(s[lo..hi], p)
    ensures Contains(s, p)
  {
    var t := s[lo..hi];
    var i: nat :| i <= |t| && OccursAt(t, p, i);
    assert forall j :: lo + i <= j < lo + i + |p| ==> s[j] == t[j - lo] == p[j - lo - i];
    assert s[lo + i..lo + i + |p|] == p;
    assert OccursAt(s, p, lo + i);
  }

  lemma StartsWithContains(s: string, p: string)
    requires StartsWith(s, p)
    ensures Contains(s, p)
  {
    assert OccursAt(s, p, 0);
  }

  /** The first occurrence of `p` in `s` at or after `from`. */
  function IndexOf(s: string, p: string, from: nat): (r: Option<nat>)
    decreases |s| + 1 - from
    ensures r.Some? ==> from <= r.value && OccursAt(s, p, r.value)
  {
    if from + |p| > |s| then None
    else if s[from..from + |p|] == p then Some(from)
    else IndexOf(s, p, from + 1)
  }

  /** The occurrence found is the first from `from` on; finding none means
      there is none. */
  lemma {:induction false} IndexOfSpec(s: string, p: string, from: nat)
    decreases |s| + 1 - from
    ensures var r := IndexOf(s, p, from);
      && (r.Some? ==> forall k: nat :: from <= k < r.value ==> !OccursAt(s, p, k))
      && (r.None? ==> forall k: nat :: from <= k ==> !OccursAt(s, p, k))
  {
    if from + |p| <= |s| && s[from..from + |p|] != p {
      IndexOfSpec(s, p, from + 1);
    }
  }

  /** The last occurrence of `p` in `s` that starts at or before `upto` (Rust `rfind`). */
  function LastIndexOf(s: string, p: string, upto: nat): (r: Option<nat>)
    decreases upto
    ensures r.Some? ==> r.value <= upto && OccursAt(s, p, r.value)
  {
    if OccursAt(s, p, upto) then Some(upto)
    else if upto == 0 then None
    else LastIndexOf(s, p, upto - 1)
  }

  /** The occurrence found is the last one up to `upto`; finding none means
      there is none. */
  lemma {:induction false} LastIndexOfSpec(s: string, p: string, upto: nat)
    decreases upto
    ensures var r := LastIndexOf(s, p, upto);
      && (r.Some? ==> forall k: nat :: r.value < k <= upto ==> !OccursAt(s, p, k))
      && (r.None? ==> forall k: nat :: k <= upto ==> !OccursAt(s, p, k))
  {
    if !OccursAt(s, p, upto) && upto > 0 {
      LastIndexOfSpec(s, p, upto - 1);
    }
  }

  /** `k` copies of `p` written one after another. */
  function Repeat(p: string, k: nat): string
  {
    if k == 0 then [] else Repeat(p, k - 1) + p
  }

  /** A repetition can be peeled from the front as well as from the back. */
  lemma {:induction false} RepeatCons(p: string, k: nat)
    requires k > 0
    ensures Repeat(p, k) == p + Repeat(p, k - 1)
  {
    if k > 1 {
      RepeatCons(p, k - 1);
      assert Repeat(p, k) == Repeat(p, k - 1) + p == (p + Repeat(p, k - 2)) + p;
    }
  }

  /** Rust `trim_end_matches` with a non-empty string pattern. */
  function TrimEndMatches(s: string, p: string): (r: string)
    requires p != []
    decreases |s|
    ensures |r| <= |s| && r == s[..|r|] && !EndsWith(r, p)
  {
    if EndsWith(s, p) then TrimEndMatches(s[..|s| - |p|], p) else s
  }

  /** `trim_end_matches` removes nothing but whole copies of the pattern
      from the end. */
  lemma {:induction false} TrimEndMatchesSpec(s: string, p: string)
    requires p != []
    decreases |s|
    ensures exists k: nat :: s == TrimEndMatches(s, p) + Repeat(p, k)
  {
    var r := TrimEndMatches(s, p);
    if EndsWith(s, p) {
      var t := s[..|s| - |p|];
      TrimEndMatchesSpec(t, p);
      var k: nat :| t == r + Repeat(p, k);
      assert s == t + p;
      calc {
        s;
        (r + Repeat(p, k)) + p;
        r + (Repeat(p, k) + p);
        r + Repeat(p, k + 1);
      }
    } else {
      assert s == r + Repeat(p, 0);
    }
  }

  /** ... and it removes all of them: the result is determined by the
      decomposition. */
  lemma {:induction false} TrimEndMatchesOf(r: string, p: string, k: nat)
    requires p != [] && !EndsWith(r, p)
    ensures TrimEndMatches(r + Repeat(p, k), p) == r
  {
    if k > 0 {
      var s := r + Repeat(p, k);
      assert s == (r + Repeat(p, k - 1)) + p;
      assert s[..|s| - |p|] == r + Repeat(p, k - 1);
      TrimEndMatchesOf(r, p, k - 1);
    } else {
      assert r + Repeat(p, k) == r;
    }
  }

  /** Rust `trim_start_matches` with a non-empty string pattern. */
  function TrimStartMatches(s: string, p: string): (r: string)
    requires p != []
    decreases |s|
    ensures |r| <= |s| && r == s[|s| - |r|..] && !StartsWith(r, p)
  {
    if StartsWith(s, p) then TrimStartMatches(s[|p|..], p) else s
  }

  lemma RepeatPrepend(p: string, k: nat, r: string)
    ensures p + (Repeat(p, k) + r) == Repeat(p, k + 1) + r
  {
    RepeatCons(p, k + 1);
  }

  /** `trim_start_matches` removes nothing but whole copies of the pattern
      from the start. */
  lemma {:induction false} TrimStartMatchesSpec(s: string, p: string)
    requires p != []
    decreases |s|
    ensures exists k: nat :: s == Repeat(p, k) + TrimStartMatches(s, p)
  {
    var r := TrimStartMatches(s, p);
    if StartsWith(s, p) {
      var t := s[|p|..];
      assert r == TrimStartMatches(t, p);
      TrimStartMatchesSpec(t, p);
      var k: nat :| t == Repeat(p, k) + r;
      assert s == p + t;
      RepeatPrepend(p, k, r);
    } else {
      assert s == Repeat(p, 0) + r;
    }
  }

  /** ... and it removes all of them. */
  lemma {:induction false} TrimStartMatchesOf(p: string, k: nat, r: string)
    requires p != [] && !StartsWith(r, p)
    ensures TrimStartMatches(Repeat(p, k) + r, p) == r
  {
    if k > 0 {
      var s := Repeat(p, k) + r;
      RepeatCons(p, k);
      assert s == p + (Repeat(p, k - 1) + r);
      assert s[|p|..] == Repeat(p, k - 1) + r;
      TrimStartMatchesOf(p, k - 1, r);
    } else {
      assert Repeat(p, k) + r == r;
    }
  }

  function Concat(ss: seq<string>): string
  {
    if ss == [] then [] else ss[0] + Concat(ss[1..])
  }

  lemma ConcatCons(s: string, ss: seq<string>)
    ensures Concat([s] + ss) == s + Concat(ss)
  {
    assert ([s] + ss)[1..] == ss;
  }

  lemma {:induction false} ConcatAppend(a: seq<string>, b: seq<string>)
    ensures Concat(a + b) == Concat(a) + Concat(b)
  {
    if a == [] {
      assert a + b == b;
    } else {
      assert (a + b)[1..] == a[1..] + b;
      ConcatAppend(a[1..], b);
    }
  }

  function DigitChar(d: nat): (c: char)
    requires d < 10
    ensures '0' <= c <= '9' && c as int - '0' as int == d
  {
    ('0' as int + d) as char
  }

  predicate AllDigits(s: string)
  {
    forall i :: 0 <= i < |s| ==> '0' <= s[i] <= '9'
  }

  /** The number a string of decimal digits denotes. */
  function DigitsValue(s: string): nat
    requires AllDigits(s)
  {
    if s == [] then 0
    else 10 * DigitsValue(s[..|s| - 1]) + (s[|s| - 1] as int - '0' as int)
  }

  /** Decimal rendering of a natural number (Rust `{}` on `usize`): digits
      only, with a leading zero only for zero itself. */
  function NatToString(n: nat): (r: string)
    ensures r != [] && AllDigits(r)
    ensures r[0] == '0' <==> n == 0
  {
    if n < 10 then [DigitChar(n)] else NatToString(n / 10) + [DigitChar(n % 10)]
  }

  /** The rendering reads back as the number it renders. */
  lemma {:induction false} NatToStringValue(n: nat)
    ensures DigitsValue(NatToString(n)) == n
  {
    var r := NatToString(n);
    if n >= 10 {
      assert r[..|r| - 1] == NatToString(n / 10);
      NatToStringValue(n / 10);
    } else {
      assert r[..|r| - 1] == [];
    }
  }

  /** Right after a digit string ends comes a comma, if anything. */
  lemma DigitsEnd(a: string, c: string)
    requires c == [] || c[0] == ','
    ensures |a| < |a + c| ==> (a + c)[|a|] == ','
  {
  }

  /** Digit strings followed by nothing or by a comma can be told apart
      where the digits end. */
  lemma DigitsPrefix(a: string, c: string, b: string, d: string)
    requires AllDigits(a) && AllDigits(b)
    requires (c == [] || c[0] == ',') && (d == [] || d[0] == ',')
    requires a + c == b + d
    ensures a == b && c == d
  {
    DigitsEnd(a, c);
    DigitsEnd(b, d);
    assert a == (a + c)[..|a|] && b == (b + d)[..|b|];
    assert c == (a + c)[|a|..] && d == (b + d)[|b|..];
  }

  /** Rust `{:?}` on a `Vec<usize>`: `[1, 2, 3]`. */
  function DebugList(xs: seq<nat>): (r: string)
    ensures StartsWith(r, "[") && EndsWith(r, "]")
    ensures r == "[]" <==> xs == []
  {
    "[" + JoinNats(xs) + "]"
  }

  function JoinNats(xs: seq<nat>): (r: string)
    ensures r == [] <==> xs == []
  {
    if xs == [] then []
    else if |xs| == 1 then NatToString(xs[0])
    else NatToString(xs[0]) + ", " + JoinNats(xs[1..])
  }

  /** The comma-separated numbers determine the list they were made from. */
  lemma {:induction false} JoinNatsInjective(xs: seq<nat>, ys: seq<nat>)
    requires JoinNats(xs) == JoinNats(ys)
    ensures xs == ys
  {
    if xs != [] && ys != [] {
      var c := if |xs| == 1 then [] else ", " + JoinNats(xs[1..]);
      var d := if |ys| == 1 then [] else ", " + JoinNats(ys[1..]);
      assert JoinNats(xs) == NatToString(xs[0]) + c;
      assert JoinNats(ys) == NatToString(ys[0]) + d;
      DigitsPrefix(NatToString(xs[0]), c, NatToString(ys[0]), d);
      NatToStringValue(xs[0]);
      NatToStringValue(ys[0]);
      if |xs| > 1 && |ys| > 1 {
        assert c[2..] == JoinNats(xs[1..]) && d[2..] == JoinNats(ys[1..]);
        JoinNatsInjective(xs[1..], ys[1..]);
        assert xs == [xs[0]] + xs[1..] && ys == [ys[0]] + ys[1..];
      }
    }
  }

  /** Two dependency lists print alike only when they are the same list. */
  lemma DebugListInjective(xs: seq<nat>, ys: seq<nat>)
    requires DebugList(xs) == DebugList(ys)
    ensures xs == ys
  {
    var a, b := DebugList(xs), DebugList(ys);
    assert a[1..|a| - 1] == JoinNats(xs) && b[1..|b| - 1] == JoinNats(ys);
    JoinNatsInjective(xs, ys);
  }
}
