/** The i18n lookup `t(key, vars)`: a dictionary lookup that falls back to
    the key, followed by one global `replace` per supplied variable, in key
    order. JavaScript's `replace` expands `$` patterns in the replacement
    text, and that expansion is written out here. */
module LanguageContext {
  import opened Strings

  /** No character with a meaning in a regular expression: a name built into
      `new RegExp("\\{" + k + "\\}")` then matches itself literally. */
  predicate PlainName(k: string)
  {
    forall i :: 0 <= i < |k| ==> k[i] !in "\\^$.|?*+()[]{}"
  }

  /** The text the placeholder regex for variable `k` matches. */
  function Placeholder(k: string): (p: string)
    ensures |p| == |k| + 2 && p[0] == '{' && p[|p| - 1] == '}'
  {
    "{" + k + "}"
  }

  /** ECMAScript GetSubstitution for a pattern without capture groups:
      `$$` is `$`, `$&` the match, `` $` `` the text before it, `$'` the text
      after it; any other `$` stays as it is. */
  function Expand(repl: string, matched: string, before: string, after: string): string
    decreases |repl|
  {
    if repl == [] then []
    else if repl[0] == '$' && |repl| >= 2 && repl[1] == '$' then "$" + Expand(repl[2..], matched, before, after)
    else if repl[0] == '$' && |repl| >= 2 && repl[1] == '&' then matched + Expand(repl[2..], matched, before, after)
    else if repl[0] == '$' && |repl| >= 2 && repl[1] == '`' then before + Expand(repl[2..], matched, before, after)
    else if repl[0] == '$' && |repl| >= 2 && repl[1] == '\'' then after + Expand(repl[2..], matched, before, after)
    else [repl[0]] + Expand(repl[1..], matched, before, after)
  }

  /** A replacement without `$` is inserted verbatim. */
  lemma {:induction false} ExpandPlain(repl: string, matched: string, before: string, after: string)
    requires forall i :: 0 <= i < |repl| ==> repl[i] != '$'
    decreases |repl|
    ensures Expand(repl, matched, before, after) == repl
  {
    if repl != [] {
      ExpandPlain(repl[1..], matched, before, after);
    }
  }

  /** `s.replace(/pat/g, repl)` from index `i` on: the leftmost occurrence is
      replaced and the search resumes after it. */
  function ReplaceFrom(s: string, pat: string, repl: string, i: nat): string
    requires pat != [] && i <= |s|
    decreases |s| - i
  {
    if i + |pat| > |s| then s[i..]
    else if OccursAt(s, pat, i) then
      Expand(repl, pat, s[..i], s[i + |pat|..]) + ReplaceFrom(s, pat, repl, i + |pat|)
    else [s[i]] + ReplaceFrom(s, pat, repl, i + 1)
  }

  function ReplaceAll(s: string, pat: string, repl: string): string
    requires pat != []
  {
    ReplaceFrom(s, pat, repl, 0)
  }

  /** `segs` joined with `sep` between consecutive segments. */
  function Join(segs: seq<string>, sep: string): string
  {
    if segs == [] then [] else if |segs| == 1 then segs[0] else segs[0] + sep + Join(segs[1..], sep)
  }

  /** Cutting `s[i..]` at every occurrence the global replace finds, left to
      right and without overlap: the pieces between the occurrences. */
  function CutFrom(s: string, pat: string, i: nat): (segs: seq<string>)
    requires pat != [] && i <= |s|
    decreases |s| - i
    ensures segs != []
  {
    if i + |pat| > |s| then [s[i..]]
    else if OccursAt(s, pat, i) then [[]] + CutFrom(s, pat, i + |pat|)
    else
      var rest := CutFrom(s, pat, i + 1);
      [[s[i]] + rest[0]] + rest[1..]
  }

  lemma JoinEmptyHead(rest: seq<string>, sep: string)
    requires rest != []
    ensures Join([[]] + rest, sep) == sep + Join(rest, sep)
  {
    var t := [[]] + rest;
    assert t[0] == [] && t[1..] == rest;
  }

  lemma JoinConsHead(c: char, segs: seq<string>, sep: string)
    requires segs != []
    ensures Join([[c] + segs[0]] + segs[1..], sep) == [c] + Join(segs, sep)
  {
    var t := [[c] + segs[0]] + segs[1..];
    assert t[1..] == segs[1..];
  }

  /** An occurrence at `i` starts a new, empty piece: if the pieces after it
      join back to the rest, the pieces from `i` join back to `s[i..]`. */
  lemma CutHit(s: string, pat: string, i: nat, sep: string, rest: string)
    requires pat != [] && i + |pat| <= |s| && OccursAt(s, pat, i)
    requires Join(CutFrom(s, pat, i + |pat|), sep) == rest
    ensures Join(CutFrom(s, pat, i), sep) == sep + rest
  {
    assert CutFrom(s, pat, i) == [[]] + CutFrom(s, pat, i + |pat|);
    JoinEmptyHead(CutFrom(s, pat, i + |pat|), sep);
  }

  /** Any other character joins the first piece. */
  lemma CutMiss(s: string, pat: string, i: nat, sep: string, rest: string)
    requires pat != [] && i + |pat| <= |s| && !OccursAt(s, pat, i)
    requires Join(CutFrom(s, pat, i + 1), sep) == rest
    ensures Join(CutFrom(s, pat, i), sep) == [s[i]] + rest
  {
    var segs := CutFrom(s, pat, i + 1);
    assert CutFrom(s, pat, i) == [[s[i]] + segs[0]] + segs[1..];
    JoinConsHead(s[i], segs, sep);
  }

  lemma SuffixSplit(s: string, i: nat, k: nat)
    requires i <= k <= |s|
    ensures s[i..] == s[i..k] + s[k..]
  {
  }

  /** The pieces the global replace cuts out, joined by the pattern, give
      back the input. */
  lemma {:induction false} CutIsSplit(s: string, pat: string, i: nat)
    requires pat != [] && i <= |s|
    decreases |s| - i
    ensures s[i..] == Join(CutFrom(s, pat, i), pat)
  {
    if i + |pat| > |s| {
      assert CutFrom(s, pat, i) == [s[i..]];
    } else if OccursAt(s, pat, i) {
      CutIsSplit(s, pat, i + |pat|);
      SplitHit(s, pat, i);
    } else {
      CutIsSplit(s, pat, i + 1);
      SplitMiss(s, pat, i);
    }
  }

  /** No piece holds the pattern: the replace misses no occurrence. The
      first piece is also where the text continues. */
  lemma {:induction false} CutFree(s: string, pat: string, i: nat)
    requires pat != [] && i <= |s|
    decreases |s| - i
    ensures var segs := CutFrom(s, pat, i);
      && StartsWith(s[i..], segs[0])
      && forall j :: 0 <= j < |segs| ==> !Contains(segs[j], pat)
  {
    var segs := CutFrom(s, pat, i);
    if i + |pat| > |s| {
      assert segs == [s[i..]];
    } else if OccursAt(s, pat, i) {
      CutFree(s, pat, i + |pat|);
      var rest := CutFrom(s, pat, i + |pat|);
      assert segs == [[]] + rest;
      assert forall j :: 1 <= j < |segs| ==> segs[j] == rest[j - 1];
    } else {
      CutFree(s, pat, i + 1);
      var rest := CutFrom(s, pat, i + 1);
      assert segs == [[s[i]] + rest[0]] + rest[1..];
      FirstPieceFree(s, pat, i, rest[0]);
      assert forall j :: 1 <= j < |segs| ==> segs[j] == rest[j];
    }
  }

  /** A character at which the pattern does not start, followed by a
      pattern-free prefix of the text after it, is a pattern-free prefix. */
  lemma FirstPieceFree(s: string, pat: string, i: nat, t: string)
    requires pat != [] && i < |s| && !OccursAt(s, pat, i)
    requires StartsWith(s[i + 1..], t) && !Contains(t, pat)
    ensures StartsWith(s[i..], [s[i]] + t) && !Contains([s[i]] + t, pat)
  {
    var u := [s[i]] + t;
    assert s[i..][..|u|] == [s[i]] + s[i + 1..][..|t|];
    forall q | 0 <= q <= |u|
      ensures !OccursAt(u, pat, q)
    {
      if q == 0 && |pat| <= |u| {
        assert u[..|pat|] == s[i..i + |pat|];
        assert !OccursAt(s, pat, i);
      } else if q > 0 && q + |pat| <= |u| {
        assert u[q..q + |pat|] == t[q - 1..q - 1 + |pat|];
        assert !OccursAt(t, pat, q - 1);
      }
    }
  }

  lemma SplitHit(s: string, pat: string, i: nat)
    requires pat != [] && i + |pat| <= |s| && OccursAt(s, pat, i)
    requires s[i + |pat|..] == Join(CutFrom(s, pat, i + |pat|), pat)
    ensures s[i..] == Join(CutFrom(s, pat, i), pat)
  {
    CutHit(s, pat, i, pat, s[i + |pat|..]);
    SuffixSplit(s, i, i + |pat|);
  }

  lemma SplitMiss(s: string, pat: string, i: nat)
    requires pat != [] && i + |pat| <= |s| && !OccursAt(s, pat, i)
    requires s[i + 1..] == Join(CutFrom(s, pat, i + 1), pat)
    ensures s[i..] == Join(CutFrom(s, pat, i), pat)
  {
    CutMiss(s, pat, i, pat, s[i + 1..]);
    SuffixSplit(s, i, i + 1);
    assert s[i..i + 1] == [s[i]];
  }

  /** An occurrence at `i` is replaced by a `$`-free replacement as it is. */
  lemma ReplaceHit(s: string, pat: string, repl: string, i: nat)
    requires pat != [] && i + |pat| <= |s| && OccursAt(s, pat, i)
    requires forall j :: 0 <= j < |repl| ==> repl[j] != '$'
    ensures ReplaceFrom(s, pat, repl, i) == repl + ReplaceFrom(s, pat, repl, i + |pat|)
  {
    ExpandPlain(repl, pat, s[..i], s[i + |pat|..]);
  }

  lemma ReplaceMiss(s: string, pat: string, repl: string, i: nat)
    requires pat != [] && i + |pat| <= |s| && !OccursAt(s, pat, i)
    ensures ReplaceFrom(s, pat, repl, i) == [s[i]] + ReplaceFrom(s, pat, repl, i + 1)
  {
  }

  /** With a `$`-free replacement, the global replace swaps every occurrence
      it finds for the replacement and keeps the text between them as it is:
      the result is the same pieces joined by the replacement. */
  lemma {:induction false} ReplaceIsJoin(s: string, pat: string, repl: string, i: nat)
    requires pat != [] && i <= |s|
    requires forall j :: 0 <= j < |repl| ==> repl[j] != '$'
    decreases |s| - i
    ensures ReplaceFrom(s, pat, repl, i) == Join(CutFrom(s, pat, i), repl)
  {
    if i + |pat| > |s| {
      assert CutFrom(s, pat, i) == [s[i..]];
    } else if OccursAt(s, pat, i) {
      ReplaceIsJoin(s, pat, repl, i + |pat|);
      ReplaceHit(s, pat, repl, i);
      CutHit(s, pat, i, repl, ReplaceFrom(s, pat, repl, i + |pat|));
    } else {
      ReplaceIsJoin(s, pat, repl, i + 1);
      ReplaceMiss(s, pat, repl, i);
      CutMiss(s, pat, i, repl, ReplaceFrom(s, pat, repl, i + 1));
    }
  }



  /** A text holding no occurrence of the pattern is left as it is. */
  lemma {:induction false} ReplaceAbsent(s: string, pat: string, repl: string, i: nat)
    requires pat != [] && i <= |s|
    requires forall k: nat :: i <= k ==> !OccursAt(s, pat, k)
    decreases |s| - i
    ensures ReplaceFrom(s, pat, repl, i) == s[i..]
  {
    if i + |pat| <= |s| {
      ReplaceAbsent(s, pat, repl, i + 1);
      assert s[i..] == [s[i]] + s[i + 1..];
    }
  }

  /** The dictionary lookup with its fallback: `dict[key] ?? key`. An
      entry that is present is used even when it is empty. */
  function Lookup(dict: map<string, string>, key: string): (r: string)
    ensures key !in dict ==> r == key
    ensures key in dict ==> r == dict[key]
  {
    if key in dict then dict[key] else key
  }

  /** The `reduce`: each variable's placeholder replaced in turn. */
  function SubstituteAll(s: string, vars: seq<(string, string)>): string
    decreases |vars|
  {
    if vars == [] then s
    else SubstituteAll(ReplaceAll(s, Placeholder(vars[0].0), vars[0].1), vars[1..])
  }

  /** Variable names are distinct (they are an object's keys) and plain. */
  predicate WellFormedVars(vars: seq<(string, string)>)
  {
    && (forall i :: 0 <= i < |vars| ==> PlainName(vars[i].0))
    && (forall i, j :: 0 <= i < j < |vars| ==> vars[i].0 != vars[j].0)
  }

  /** `t(key, vars)`; `vars` lists the entries in `Object.keys` order, and
      numbers arrive already converted with `String`. */
  function T(dict: map<string, string>, key: string, vars: Option<seq<(string, string)>>): string
    requires vars.Some? ==> WellFormedVars(vars.value)
  {
    var str := Lookup(dict, key);
    match vars
    case None => str
    case Some(vs) => SubstituteAll(str, vs)
  }

  /** A missing key comes back as the key itself, substituted like any
      entry; with no variables the looked-up string is returned unchanged. */
  lemma LookupFallback(dict: map<string, string>, key: string, vars: Option<seq<(string, string)>>)
    requires vars.Some? ==> WellFormedVars(vars.value)
    ensures key !in dict && vars.None? ==> T(dict, key, vars) == key
    ensures key in dict && vars.None? ==> T(dict, key, vars) == dict[key]
    ensures vars == Some([]) ==> T(dict, key, vars) == Lookup(dict, key)
  {
  }

  /** One variable with a `$`-free value: every occurrence of its placeholder
      that the left-to-right search finds is replaced by the value, and the
      text between occurrences is kept. */
  lemma SingleVariable(dict: map<string, string>, key: string, k: string, v: string)
    requires PlainName(k)
    requires forall j :: 0 <= j < |v| ==> v[j] != '$'
    ensures var str, segs := Lookup(dict, key), CutFrom(Lookup(dict, key), Placeholder(k), 0);
      && str == Join(segs, Placeholder(k))
      && (forall j :: 0 <= j < |segs| ==> !Contains(segs[j], Placeholder(k)))
      && T(dict, key, Some([(k, v)])) == Join(segs, v)
  {
    var str := Lookup(dict, key);
    CutIsSplit(str, Placeholder(k), 0);
    CutFree(str, Placeholder(k), 0);
    ReplaceIsJoin(str, Placeholder(k), v, 0);
    assert str[0..] == str;
    var vs := [(k, v)];
    assert WellFormedVars(vs);
    assert SubstituteAll(str, vs) == SubstituteAll(ReplaceAll(str, Placeholder(k), v), []);
  }

  /** A variable whose placeholder does not occur leaves the text alone, and
      placeholders naming no supplied variable stay literal. */
  lemma UnusedVariable(s: string, k: string, v: string)
    requires !Contains(s, Placeholder(k))
    ensures ReplaceAll(s, Placeholder(k), v) == s
  {
    ReplaceAbsent(s, Placeholder(k), v, 0);
    assert s[0..] == s;
  }

  /** A text without a `{` holds no placeholder, so every substitution
      leaves it as it is, whatever the variables. */
  lemma {:induction false} BracelessUnchanged(s: string, vars: seq<(string, string)>)
    requires forall j :: 0 <= j < |s| ==> s[j] != '{'
    decreases |vars|
    ensures SubstituteAll(s, vars) == s
  {
    if vars != [] {
      var p := Placeholder(vars[0].0);
      forall q | 0 <= q <= |s|
        ensures !OccursAt(s, p, q)
      {
        if q + |p| <= |s| {
          assert s[q..q + |p|][0] == s[q];
        }
      }
      UnusedVariable(s, vars[0].0, vars[0].1);
      BracelessUnchanged(s, vars[1..]);
    }
  }

  /** Substitution is sequential: text inserted for an earlier variable is
      rewritten by a later one. */
  lemma SequentialSubstitution()
    ensures SubstituteAll("{a}", [("a", "{b}"), ("b", "X")]) == "X"
  {
    var s := "{a}";
    assert OccursAt(s, "{a}", 0);
    assert ReplaceAll(s, "{a}", "{b}") == Expand("{b}", "{a}", "", "") + ReplaceFrom(s, "{a}", "{b}", 3);
    assert ReplaceAll(s, "{a}", "{b}") == "{b}";
    var u := "{b}";
    assert OccursAt(u, "{b}", 0);
    assert ReplaceAll(u, "{b}", "X") == Expand("X", "{b}", "", "") + ReplaceFrom(u, "{b}", "X", 3);
  }

  /** `replace` reads `$` patterns in the value: `$$` inserts one `$` and
      `$&` re-inserts the placeholder. */
  lemma DollarPatterns()
    ensures ReplaceAll("{n}!", "{n}", "$$") == "$!"
    ensures ReplaceAll("{n}!", "{n}", "$&") == "{n}!"
  {
    var s := "{n}!";
    assert OccursAt(s, "{n}", 0);
    assert s[3..] == "!";
    assert ReplaceFrom(s, "{n}", "$$", 3) == "!";
    assert ReplaceFrom(s, "{n}", "$&", 3) == "!";
  }
}
