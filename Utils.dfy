/** Extraction of answers from model output: the argument of the last
    `boxed`, and the bodies of `\begin{tag}…\end{tag}` environments. */
module Utils {
  import opened Strings

  /** The depth change a character causes in the brace scan. */
  function Delta(c: char): int
  {
    if c == '{' then 1 else if c == '}' then -1 else 0
  }

  /** Opening minus closing braces in `w`. */
  function NetDepth(w: string): int
  {
    if w == [] then 0 else Delta(w[0]) + NetDepth(w[1..])
  }

  /** Every prefix has at least as many `{` as `}`, and the whole has as
      many. */
  predicate Balanced(w: string)
  {
    NetDepth(w) == 0 && forall k :: 0 <= k <= |w| ==> NetDepth(w[..k]) >= 0
  }

  /** The index of the `}` that brings the depth `depth`, counted from `i`,
      down to zero: where the scan breaks. */
  function CloseIndex(t: string, i: nat, depth: nat): (r: Option<nat>)
    requires i <= |t| && depth >= 1
    decreases |t| - i
    ensures r.Some? ==> i <= r.value < |t| && t[r.value] == '}'
  {
    if i == |t| then None
    else if t[i] == '}' then (if depth == 1 then Some(i) else CloseIndex(t, i + 1, depth - 1))
    else if t[i] == '{' then CloseIndex(t, i + 1, depth + 1)
    else CloseIndex(t, i + 1, depth)
  }

  /** What the brace branch collects from `t`, which starts with `{`: up to
      the matching `}`, or everything when there is none. */
  function BraceBody(t: string): (r: string)
    requires t != [] && t[0] == '{'
  {
    match CloseIndex(t, 1, 1)
    case Some(j) => t[1..j]
    case None => t[1..]
  }

  /** What the other branch returns: the text before the first `$`, trimmed,
      when that is not empty. */
  function DollarBody(t: string): (r: Option<string>)
    ensures r.Some? ==> r.value != []
  {
    var end := match IndexOf(t, "$", 0) case Some(k) => k case None => |t|;
    var w := TrimRust(t[..end]);
    if w == [] then None else Some(w)
  }

  /** What `find_box` reads from the text after the last `boxed`. */
  function BoxAfter(after: string): Option<string>
  {
    if after == [] then None
    else if after[0] == '{' then Some(BraceBody(after))
    else DollarBody(after)
  }

  /** `find_box` as a function of its input. */
  function FindBoxSpec(s: string): (r: Option<string>)
  {
    match LastIndexOf(s, "boxed", |s|)
    case None => None
    case Some(pos) => BoxAfter(s[pos + 5..])
  }

  /** `find_box`: after the last `boxed`, either the brace-depth scan or the
      text up to the first `$`. */
  method FindBox(s: string) returns (r: Option<string>)
    ensures r == FindBoxSpec(s)
  {
    var found := LastIndexOf(s, "boxed", |s|);
    if found.None? {
      return None;
    }
    var after := s[found.value + 5..];
    if after == [] {
      return None;
    }
    if after[0] == '{' {
      var stack: nat := 1;
      var result := "";
      var i := 1;
      while i < |after|
        invariant 1 <= i <= |after| && stack >= 1
        invariant result == after[1..i]
        invariant CloseIndex(after, i, stack) == CloseIndex(after, 1, 1)
        decreases |after| - i
      {
        var c := after[i];
        if c == '{' {
          stack := stack + 1;
        } else if c == '}' {
          if stack == 1 {
            break;
          }
          stack := stack - 1;
        }
        result := result + [c];
        i := i + 1;
      }
      if i < |after| {
        assert CloseIndex(after, i, stack) == Some(i);
      } else {
        assert CloseIndex(after, i, stack) == None;
      }
      assert BraceBody(after) == result;
      assert FindBoxSpec(s) == Some(BraceBody(after));
      return Some(result);
    } else {
      return DollarBody(after);
    }
  }

  /** `find_box` gives nothing when `boxed` does not occur, or occurs last
      at the very end of the text. */
  lemma FindBoxNone(s: string)
    ensures !Contains(s, "boxed") ==> FindBoxSpec(s).None?
    ensures EndsWith(s, "boxed") ==> FindBoxSpec(s).None?
  {
    LastIndexOfSpec(s, "boxed", |s|);
    if EndsWith(s, "boxed") {
      assert OccursAt(s, "boxed", |s| - 5);
      var f := LastIndexOf(s, "boxed", |s|);
      assert f == Some(|s| - 5);
    }
  }

  /** An occurrence in `s` is one in `prefix + s`, shifted, and back. */
  lemma OccursShift(prefix: string, s: string, p: string, k: nat)
    ensures OccursAt(prefix + s, p, |prefix| + k) <==> OccursAt(s, p, k)
  {
    var w := prefix + s;
    if k + |p| <= |s| {
      assert w[|prefix| + k..|prefix| + k + |p|] == s[k..k + |p|];
    }
  }

  /** The last `boxed` of `prefix + s` is the last one of `s`, when `s` has
      one. */
  lemma LastBoxedShift(prefix: string, s: string)
    requires LastIndexOf(s, "boxed", |s|).Some?
    ensures LastIndexOf(prefix + s, "boxed", |prefix + s|) == Some(|prefix| + LastIndexOf(s, "boxed", |s|).value)
  {
    var w := prefix + s;
    var ps := LastIndexOf(s, "boxed", |s|).value;
    LastIndexOfSpec(s, "boxed", |s|);
    LastIndexOfSpec(w, "boxed", |w|);
    OccursShift(prefix, s, "boxed", ps);
    var pw := LastIndexOf(w, "boxed", |w|);
    assert pw.Some?;
    if pw.value > |prefix| + ps {
      var k := pw.value - |prefix|;
      OccursShift(prefix, s, "boxed", k);
    }
  }

  /** Only the last `boxed` counts: putting any text in front of one that
      holds `boxed` leaves the answer unchanged. */
  lemma FindBoxLast(prefix: string, s: string)
    requires Contains(s, "boxed")
    ensures FindBoxSpec(prefix + s) == FindBoxSpec(s)
  {
    var i: nat :| i <= |s| && OccursAt(s, "boxed", i);
    LastIndexOfSpec(s, "boxed", |s|);
    var ps := LastIndexOf(s, "boxed", |s|);
    assert ps.Some?;
    LastBoxedShift(prefix, s);
    var w := prefix + s;
    assert w[|prefix| + ps.value + 5..] == s[ps.value + 5..];
    assert FindBoxSpec(w) == BoxAfter(w[|prefix| + ps.value + 5..]);
    assert FindBoxSpec(s) == BoxAfter(s[ps.value + 5..]);
  }

  /** `boxed{}` is `Some("")`. */
  lemma EmptyBox()
    ensures FindBoxSpec("boxed{}") == Some("")
  {
    var s := "boxed{}";
    assert OccursAt(s, "boxed", 0);
    assert s[6..] == "}";
    assert s[1..6][0] == 'o';
    assert !OccursAt(s, "boxed", 1);
    assert s[2..7][0] == 'x';
    assert !OccursAt(s, "boxed", 2);
    assert LastIndexOf(s, "boxed", |s|) == Some(0);
    var after := s[5..];
    assert after == "{}";
    assert CloseIndex(after, 1, 1) == Some(1);
    assert BraceBody(after) == after[1..1] == "";
    assert after != [] && after[0] == '{';
  }

  lemma {:induction false} NetDepthSnoc(w: string, c: char)
    ensures NetDepth(w + [c]) == NetDepth(w) + Delta(c)
  {
    if w != [] {
      assert (w + [c])[1..] == w[1..] + [c];
      NetDepthSnoc(w[1..], c);
    }
  }

  /** Where the scan closes, the depth has just come back to where it
      started and never dropped below it on the way. */
  lemma {:induction false} CloseIndexDepth(t: string, i: nat, depth: nat)
    requires i <= |t| && depth >= 1 && CloseIndex(t, i, depth).Some?
    decreases |t| - i
    ensures var j := CloseIndex(t, i, depth).value;
      && depth + NetDepth(t[i..j]) == 1
      && forall k :: i <= k <= j ==> depth + NetDepth(t[i..k]) >= 1
  {
    var j := CloseIndex(t, i, depth).value;
    if t[i] == '}' && depth == 1 {
      assert j == i;
      forall k | i <= k <= j
        ensures depth + NetDepth(t[i..k]) >= 1
      {
        assert t[i..k] == [];
      }
    } else {
      var d := depth + Delta(t[i]);
      CloseIndexDepth(t, i + 1, d);
      forall k | i <= k <= j
        ensures depth + NetDepth(t[i..k]) >= 1
      {
        if k > i {
          assert t[i..k][1..] == t[i + 1..k];
        }
      }
      assert t[i..j][1..] == t[i + 1..j];
    }
  }

  /** When the matching `}` exists, the body's braces are balanced. */
  lemma BraceBodyBalanced(t: string)
    requires t != [] && t[0] == '{' && CloseIndex(t, 1, 1).Some?
    ensures Balanced(BraceBody(t))
  {
    var j := CloseIndex(t, 1, 1).value;
    CloseIndexDepth(t, 1, 1);
    var b := t[1..j];
    forall k | 0 <= k <= |b|
      ensures NetDepth(b[..k]) >= 0
    {
      assert b[..k] == t[1..1 + k];
    }
  }

  /** Without a matching `}`, the whole rest after `{` is returned. */
  lemma BraceBodyUnclosed(t: string)
    requires t != [] && t[0] == '{' && CloseIndex(t, 1, 1).None?
    ensures BraceBody(t) == t[1..]
  {
  }

  /** The other branch: the trimmed text before the first `$`, and nothing
      exactly when that is empty. */
  lemma DollarBodySpec(t: string)
    ensures var end := match IndexOf(t, "$", 0) case Some(k) => k case None => |t|;
      && end <= |t| && (forall k :: 0 <= k < end ==> t[k] != '$')
      && (DollarBody(t).None? <==> TrimRust(t[..end]) == [])
      && (DollarBody(t).Some? ==> DollarBody(t).value == TrimRust(t[..end]))
  {
    var end := match IndexOf(t, "$", 0) case Some(k) => k case None => |t|;
    IndexOfSpec(t, "$", 0);
    forall k | 0 <= k < end
      ensures t[k] != '$'
    {
      assert !OccursAt(t, "$", k);
      assert t[k..k + 1] == [t[k]];
    }
  }

  /** `\begin{tag}` and `\end{tag}`, the tag taken literally. */
  function BeginTag(tag: string): string { "\\begin{" + tag + "}" }

  function EndTag(tag: string): string { "\\end{" + tag + "}" }

  /** The next capture from index `i`: where the body after the leftmost
      opening tag `bt` starts and where the first closing tag `et` after it
      starts. */
  function NextPair(text: string, bt: string, et: string, i: nat): (r: Option<(nat, nat)>)
    ensures r.Some? ==> i + |bt| <= r.value.0 <= r.value.1 && r.value.1 + |et| <= |text|
  {
    match IndexOf(text, bt, i)
    case None => None
    case Some(b) =>
      match IndexOf(text, et, b + |bt|)
      case None => None
      case Some(e) => Some((b + |bt|, e))
  }

  /** The pair found is the leftmost opening tag and the first closing tag
      after it. */
  lemma NextPairSpec(text: string, bt: string, et: string, i: nat, a: nat, e: nat)
    requires NextPair(text, bt, et, i) == Some((a, e))
    ensures OccursAt(text, bt, a - |bt|) && OccursAt(text, et, e)
    ensures forall k: nat :: i <= k < a - |bt| ==> !OccursAt(text, bt, k)
    ensures forall k: nat :: a <= k < e ==> !OccursAt(text, et, k)
  {
    IndexOfSpec(text, bt, i);
    IndexOfSpec(text, et, a);
  }

  /** The captures of `captures_iter` from index `i`: the leftmost opening
      tag, the body up to the first closing tag after it, and the search
      resumes after that closing tag. */
  function CapturesFrom(text: string, bt: string, et: string, i: nat): seq<string>
    requires i <= |text| && bt != []
    decreases |text| - i, 1
  {
    CapturesAt(text, bt, et, i, NextPair(text, bt, et, i))
  }

  /** What `NextPair` promises about the pair it finds. */
  predicate PairBounds(text: string, bt: string, et: string, i: nat, np: Option<(nat, nat)>)
  {
    np.Some? ==> i + |bt| <= np.value.0 <= np.value.1 && np.value.1 + |et| <= |text|
  }

  /** The captures, given the pair found from `i`. */
  function CapturesAt(text: string, bt: string, et: string, i: nat, np: Option<(nat, nat)>): seq<string>
    requires i <= |text| && bt != [] && PairBounds(text, bt, et, i, np)
    decreases |text| - i, 0
  {
    if np.None? then [] else [text[np.value.0..np.value.1]] + CapturesFrom(text, bt, et, np.value.1 + |et|)
  }

  /** The last capture from index `i` on, given the last one before. */
  function LastCaptureFrom(text: string, bt: string, et: string, i: nat, last: Option<string>): Option<string>
    requires i <= |text| && bt != []
    decreases |text| - i, 1
  {
    LastCaptureAt(text, bt, et, i, NextPair(text, bt, et, i), last)
  }

  /** The last capture, given the pair found from `i`. */
  function LastCaptureAt(text: string, bt: string, et: string, i: nat, np: Option<(nat, nat)>, last: Option<string>): Option<string>
    requires i <= |text| && bt != [] && PairBounds(text, bt, et, i, np)
    decreases |text| - i, 0
  {
    if np.None? then last else LastCaptureFrom(text, bt, et, np.value.1 + |et|, Some(text[np.value.0..np.value.1]))
  }

  /** `extract_all_component`. */
  function ExtractAll(text: string, tag: string): seq<string>
  {
    CapturesFrom(text, BeginTag(tag), EndTag(tag), 0)
  }

  /** `extract_component`: the last capture, if any. */
  function ExtractComponent(text: string, tag: string): Option<string>
  {
    LastCaptureFrom(text, BeginTag(tag), EndTag(tag), 0, None)
  }

  /** One capture: the body found first, then the captures after its
      closing tag. */
  lemma CaptureStep(text: string, bt: string, et: string, i: nat, a: nat, e: nat)
    requires i <= |text| && bt != [] && NextPair(text, bt, et, i) == Some((a, e))
    ensures a <= e && e + |et| <= |text|
    ensures CapturesFrom(text, bt, et, i) == [text[a..e]] + CapturesFrom(text, bt, et, e + |et|)
  {
  }

  /** One capture: it becomes the last one seen. */
  lemma LastCaptureStep(text: string, bt: string, et: string, i: nat, a: nat, e: nat, last: Option<string>)
    requires i <= |text| && bt != [] && NextPair(text, bt, et, i) == Some((a, e))
    ensures a <= e && e + |et| <= |text|
    ensures LastCaptureFrom(text, bt, et, i, last) == LastCaptureFrom(text, bt, et, e + |et|, Some(text[a..e]))
  {
  }

  lemma LastShape(l: Option<string>, all: seq<string>, body: string, rest: seq<string>, last: Option<string>)
    requires all == [body] + rest && l == (if rest == [] then Some(body) else Some(rest[|rest| - 1]))
    ensures l == if all == [] then last else Some(all[|all| - 1])
  {
  }

  lemma {:induction false} LastCaptureIsLast(text: string, bt: string, et: string, i: nat, last: Option<string>)
    requires i <= |text| && bt != []
    decreases |text| - i
    ensures var all := CapturesFrom(text, bt, et, i);
      LastCaptureFrom(text, bt, et, i, last) == if all == [] then last else Some(all[|all| - 1])
  {
    var np := NextPair(text, bt, et, i);
    if np.Some? {
      var a, e := np.value.0, np.value.1;
      CaptureStep(text, bt, et, i, a, e);
      LastCaptureStep(text, bt, et, i, a, e, last);
      LastCaptureIsLast(text, bt, et, e + |et|, Some(text[a..e]));
      LastShape(LastCaptureFrom(text, bt, et, i, last), CapturesFrom(text, bt, et, i),
        text[a..e], CapturesFrom(text, bt, et, e + |et|), last);
    }
  }

  /** `extract_component` is nothing when `extract_all_component` is empty,
      and its last element otherwise. */
  lemma ExtractComponentIsLast(text: string, tag: string)
    ensures var all := ExtractAll(text, tag);
      ExtractComponent(text, tag) == if all == [] then None else Some(all[|all| - 1])
  {
    LastCaptureIsLast(text, BeginTag(tag), EndTag(tag), 0, None);
  }

  /** An opening tag at or after `i` followed, later on, by a closing tag. */
  ghost predicate PairFrom(text: string, bt: string, et: string, i: nat)
  {
    exists b: nat, e: nat :: i <= b && b + |bt| <= e && OccursAt(text, bt, b) && OccursAt(text, et, e)
  }

  /** The list is empty exactly when no pair exists. */
  lemma CapturesEmptyIffNoPair(text: string, bt: string, et: string, i: nat)
    requires i <= |text| && bt != []
    ensures CapturesFrom(text, bt, et, i) == [] <==> !PairFrom(text, bt, et, i)
  {
    IndexOfSpec(text, bt, i);
    var ob := IndexOf(text, bt, i);
    if ob.Some? {
      var b := ob.value;
      IndexOfSpec(text, et, b + |bt|);
      var oe := IndexOf(text, et, b + |bt|);
      if oe.Some? {
        var e := oe.value;
        var a: nat := b + |bt|;
        assert NextPair(text, bt, et, i) == Some((a, e));
        assert PairFrom(text, bt, et, i) by {
          assert i <= b && b + |bt| <= e && OccursAt(text, bt, b) && OccursAt(text, et, e);
        }
      } else {
        assert NextPair(text, bt, et, i).None?;
      }
    } else {
      assert NextPair(text, bt, et, i).None?;
    }
  }

  /** `extract_all_component` is empty exactly when no `\begin{tag}` is
      followed by an `\end{tag}`. */
  lemma ExtractEmptyIffNoPair(text: string, tag: string)
    ensures ExtractAll(text, tag) == [] <==> !PairFrom(text, BeginTag(tag), EndTag(tag), 0)
  {
    CapturesEmptyIffNoPair(text, BeginTag(tag), EndTag(tag), 0);
  }

  /** `body` sits in `text` at `a`, right after an opening tag and right
      before a closing tag. */
  predicate BodyAt(text: string, bt: string, et: string, body: string, a: nat)
  {
    && a >= |bt| && a + |body| <= |text|
    && OccursAt(text, bt, a - |bt|)
    && text[a..a + |body|] == body && OccursAt(text, et, a + |body|)
  }

  /** A body as the regex captures it: a verbatim slice between the tags,
      with no closing tag of its own. */
  ghost predicate GoodBody(text: string, bt: string, et: string, body: string)
  {
    !Contains(body, et) && exists a: nat :: BodyAt(text, bt, et, body, a)
  }

  /** An occurrence inside `s[lo..hi]` is an occurrence in `s` before `hi`. */
  lemma SliceOccurrence(s: string, lo: nat, hi: nat, p: string) returns (k: nat)
    requires lo <= hi <= |s| && Contains(s[lo..hi], p)
    ensures lo <= k && k + |p| <= hi && OccursAt(s, p, k)
  {
    var t := s[lo..hi];
    var i: nat :| i <= |t| && OccursAt(t, p, i);
    assert forall j :: lo + i <= j < lo + i + |p| ==> s[j] == t[j - lo] == p[j - lo - i];
    assert s[lo + i..lo + i + |p|] == p;
    k := lo + i;
  }

  /** The body of one capture sits between the tags and holds no closing
      tag. */
  lemma CapturedBody(text: string, bt: string, et: string, i: nat, a: nat, e: nat)
    requires et != [] && NextPair(text, bt, et, i) == Some((a, e))
    ensures GoodBody(text, bt, et, text[a..e])
  {
    NextPairSpec(text, bt, et, i, a, e);
    var body := text[a..e];
    assert BodyAt(text, bt, et, body, a);
    if Contains(body, et) {
      var k := SliceOccurrence(text, a, e, et);
      assert false;
    }
  }

  /** Every body returned is a verbatim slice right after an opening tag
      and right before a closing tag, and holds no closing tag. */
  lemma {:induction false} CapturedBodies(text: string, bt: string, et: string, i: nat)
    requires i <= |text| && bt != [] && et != []
    decreases |text| - i
    ensures forall body :: body in CapturesFrom(text, bt, et, i) ==> GoodBody(text, bt, et, body)
  {
    var np := NextPair(text, bt, et, i);
    if np.Some? {
      var a, e := np.value.0, np.value.1;
      CaptureStep(text, bt, et, i, a, e);
      CapturedBodies(text, bt, et, e + |et|);
      CapturedBody(text, bt, et, i, a, e);
    }
  }

  /** Every body `extract_all_component` returns sits between a
      `\begin{tag}` and an `\end{tag}` and holds no `\end{tag}`. */
  lemma ExtractedBodies(text: string, tag: string)
    ensures forall body :: body in ExtractAll(text, tag) ==> GoodBody(text, BeginTag(tag), EndTag(tag), body)
  {
    CapturedBodies(text, BeginTag(tag), EndTag(tag), 0);
  }
}
