/** JavaScript's `String.prototype.split` with a regular expression, written out
    by hand for the two patterns the frontend renderers use:
    - `/\n{2,}/`, which cuts a text into blocks (no capturing group, so the
      separators are dropped), and
    - the math tokenizer `/(\$\$[\s\S]*?\$\$|\\\[[\s\S]*?\\\]|\\\([\s\S]*?\\\)|\$[^$\n]+\$)/g`,
      whose capturing group keeps every matched span in the output; the copies
      in project/page.tsx and ProjectDetailClient.tsx lack the `\(…\)` branch.
    The split is computed on index ranges, so that what is proved about the
    pieces (they tile the input, matches are where the regex matches, text
    pieces hold no match) speaks about positions in the input. */
module MathTokens {
  import opened Strings

  /** The regular expression handed to `split`. */
  datatype Pattern =
    | BlankLines               // /\n{2,}/
    | Tokenizer(parens: bool)  // the math alternation; `parens` adds the \(…\) branch

  /** A piece of the input `s[start..end]`: text between matches, or a match. */
  datatype Piece = Text(start: nat, end: nat) | Match(start: nat, end: nat)

  /** End of the run of characters other than `$` and newline that starts at `i`
      (the greedy `[^$\n]+`). */
  function InlineRunEnd(s: string, i: nat): (j: nat)
    requires i <= |s|
    decreases |s| - i
    ensures i <= j <= |s|
    ensures forall k :: i <= k < j ==> s[k] != '$' && s[k] != '\n'
    ensures j < |s| ==> s[j] == '$' || s[j] == '\n'
  {
    if i < |s| && s[i] != '$' && s[i] != '\n' then InlineRunEnd(s, i + 1) else i
  }

  /** End of the run of newlines that starts at `i` (the greedy `\n{2,}`). */
  function NewlineRunEnd(s: string, i: nat): (j: nat)
    requires i <= |s|
    decreases |s| - i
    ensures i <= j <= |s|
    ensures forall k :: i <= k < j ==> s[k] == '\n'
    ensures j < |s| ==> s[j] != '\n'
  {
    if i < |s| && s[i] == '\n' then NewlineRunEnd(s, i + 1) else i
  }

  /** `\$[^$\n]+\$` tried at position `q`: returns the end of the match. */
  function DollarInlineAt(s: string, q: nat): (r: Option<nat>)
    requires q <= |s|
  {
    if q < |s| && s[q] == '$' then
      var j := InlineRunEnd(s, q + 1);
      if q + 1 < j < |s| && s[j] == '$' then Some(j + 1) else None
    else None
  }

  /** `open[\s\S]*?close` tried at position `q`: the lazy body stops at the first
      `close` that begins at or after the end of `open`. */
  function LazyAt(s: string, q: nat, open: string, close: string): (r: Option<nat>)
  {
    if OccursAt(s, open, q) then
      match IndexOf(s, close, q + |open|)
      case Some(k) => Some(k + |close|)
      case None => None
    else None
  }

  /** The end of the match that the pattern finds when tried at `q` (a sticky
      match); the alternatives are tried in the order they are written. */
  function MatchAt(s: string, q: nat, pat: Pattern): (r: Option<nat>)
    requires q <= |s|
    ensures r.Some? ==> q + 2 <= r.value <= |s|
  {
    match pat
    case BlankLines =>
      if OccursAt(s, "\n\n", q) then Some(NewlineRunEnd(s, q)) else None
    case Tokenizer(parens) =>
      var dd := LazyAt(s, q, "$$", "$$");
      var br := LazyAt(s, q, "\\[", "\\]");
      var pr := if parens then LazyAt(s, q, "\\(", "\\)") else None;
      if dd.Some? then dd
      else if br.Some? then br
      else if pr.Some? then pr
      else DollarInlineAt(s, q)
  }

  /** The pieces are contiguous and cover `s[p..n]` exactly. */
  predicate Tiles(ps: seq<Piece>, p: nat, n: nat)
  {
    && (ps == [] ==> p == n)
    && (ps != [] ==> ps[0].start == p && ps[|ps| - 1].end == n)
    && (forall i :: 0 <= i < |ps| ==> ps[i].start <= ps[i].end)
    && (forall i :: 0 <= i < |ps| - 1 ==> ps[i].end == ps[i + 1].start)
  }

  /** Text and match pieces alternate; `textFirst` says which kind comes first. */
  predicate Alternates(ps: seq<Piece>, textFirst: bool)
  {
    forall i :: 0 <= i < |ps| ==> (ps[i].Text? <==> ((i % 2 == 0) == textFirst))
  }

  /** Every piece is a well-formed range of a string of length `n`. */
  predicate Bounded(ps: seq<Piece>, n: nat)
  {
    forall pc :: pc in ps ==> pc.start <= pc.end <= n
  }

  /** The ES `split` loop: `p` is where the current text piece began, `q` the
      position at which the pattern is tried next. */
  function SplitFrom(s: string, pat: Pattern, p: nat, q: nat): (ps: seq<Piece>)
    requires p <= q <= |s|
    decreases |s| - q, 1
    ensures ps != [] && ps[0].Text? && ps[0].start == p
  {
    if q == |s| then [Text(p, |s|)] else SplitAt(s, pat, p, q, MatchAt(s, q, pat))
  }

  /** What `MatchAt` promises about the end of a match at `q`. */
  predicate MatchBounds(s: string, q: nat, m: Option<nat>)
  {
    m.Some? ==> q + 2 <= m.value <= |s|
  }

  /** One step of the loop, given what the pattern matched at `q`. */
  function SplitAt(s: string, pat: Pattern, p: nat, q: nat, m: Option<nat>): (ps: seq<Piece>)
    requires p <= q < |s| && MatchBounds(s, q, m)
    decreases |s| - q, 0
    ensures ps != [] && ps[0].Text? && ps[0].start == p
  {
    match m
    case None => SplitFrom(s, pat, p, q + 1)
    case Some(e) => [Text(p, q), Match(q, e)] + SplitFrom(s, pat, e, e)
  }

  function Split(s: string, pat: Pattern): seq<Piece>
  {
    SplitFrom(s, pat, 0, 0)
  }

  /** The pieces of the split tile the input from `p` on. */
  lemma {:induction false} SplitTiles(s: string, pat: Pattern, p: nat, q: nat)
    requires p <= q <= |s|
    decreases |s| - q
    ensures var ps := SplitFrom(s, pat, p, q);
      Tiles(ps, p, |s|) && forall i :: 0 <= i < |ps| ==> p <= ps[i].start <= ps[i].end <= |s|
  {
    if q < |s| {
      var m := MatchAt(s, q, pat);
      if m.None? {
        SplitTiles(s, pat, p, q + 1);
      } else {
        var e := m.value;
        SplitTiles(s, pat, e, e);
        PrependTiles(p, q, e, SplitFrom(s, pat, e, e), |s|);
      }
    }
  }

  lemma PrependTiles(p: nat, q: nat, e: nat, rest: seq<Piece>, n: nat)
    requires p <= q <= e
    requires Tiles(rest, e, n) && forall i :: 0 <= i < |rest| ==> e <= rest[i].start <= rest[i].end <= n
    ensures var ps := [Text(p, q), Match(q, e)] + rest;
      Tiles(ps, p, n) && forall i :: 0 <= i < |ps| ==> p <= ps[i].start <= ps[i].end <= n
  {
    var ps := [Text(p, q), Match(q, e)] + rest;
    assert forall i :: 2 <= i < |ps| ==> ps[i] == rest[i - 2];
    if rest != [] {
      assert ps[|ps| - 1] == rest[|rest| - 1];
    }
    forall i | 0 <= i < |ps| - 1 ensures ps[i].end == ps[i + 1].start {
      if i >= 2 { assert ps[i].end == rest[i - 2].end && ps[i + 1].start == rest[i - 1].start; }
    }
  }

  /** Text and match pieces alternate, starting and ending with text. */
  lemma {:induction false} SplitAlternates(s: string, pat: Pattern, p: nat, q: nat)
    requires p <= q <= |s|
    decreases |s| - q
    ensures var ps := SplitFrom(s, pat, p, q); |ps| % 2 == 1 && Alternates(ps, true)
  {
    if q < |s| {
      var m := MatchAt(s, q, pat);
      if m.None? {
        SplitAlternates(s, pat, p, q + 1);
      } else {
        var e := m.value;
        SplitAlternates(s, pat, e, e);
        var rest := SplitFrom(s, pat, e, e);
        var ps := [Text(p, q), Match(q, e)] + rest;
        forall i | 0 <= i < |ps| ensures ps[i].Text? <==> i % 2 == 0 {
          if i >= 2 { assert ps[i] == rest[i - 2]; }
        }
      }
    }
  }

  /** Every match piece is where the pattern matches, with the end it matches to. */
  lemma {:induction false} SplitMatches(s: string, pat: Pattern, p: nat, q: nat)
    requires p <= q <= |s|
    decreases |s| - q
    ensures forall pc :: pc in SplitFrom(s, pat, p, q) && pc.Match? ==>
              pc.start < |s| && MatchAt(s, pc.start, pat) == Some(pc.end)
  {
    if q < |s| {
      var m := MatchAt(s, q, pat);
      if m.None? {
        SplitMatches(s, pat, p, q + 1);
      } else {
        SplitMatches(s, pat, m.value, m.value);
      }
    }
  }

  /** Leftmost matching: the pattern matches at no position inside a text piece. */
  lemma {:induction false} SplitTexts(s: string, pat: Pattern, p: nat, q: nat)
    requires p <= q <= |s|
    requires forall k :: p <= k < q ==> MatchAt(s, k, pat).None?
    decreases |s| - q
    ensures forall pc, k :: pc in SplitFrom(s, pat, p, q) && pc.Text? && pc.start <= k < pc.end && k <= |s| ==>
              MatchAt(s, k, pat).None?
  {
    if q < |s| {
      var m := MatchAt(s, q, pat);
      if m.None? {
        SplitTexts(s, pat, p, q + 1);
      } else {
        SplitTexts(s, pat, m.value, m.value);
      }
    }
  }

  lemma TilesBounded(ps: seq<Piece>, n: nat)
    requires forall i :: 0 <= i < |ps| ==> ps[i].start <= ps[i].end <= n
    ensures Bounded(ps, n)
  {
  }

  /** `filter(Boolean)`: drop the empty pieces. */
  function NonEmpty(ps: seq<Piece>): (r: seq<Piece>)
    ensures forall i :: 0 <= i < |r| ==> r[i] in ps && r[i].start < r[i].end
  {
    if ps == [] then []
    else if ps[0].start < ps[0].end then [ps[0]] + NonEmpty(ps[1..])
    else NonEmpty(ps[1..])
  }

  /** The text pieces only (split without a capturing group). */
  function TextPieces(ps: seq<Piece>): (r: seq<Piece>)
    ensures forall i :: 0 <= i < |r| ==> r[i] in ps && r[i].Text?
  {
    if ps == [] then []
    else if ps[0].Text? then [ps[0]] + TextPieces(ps[1..])
    else TextPieces(ps[1..])
  }

  /** The substrings the pieces stand for. */
  function Texts(s: string, ps: seq<Piece>): seq<string>
    requires Bounded(ps, |s|)
  {
    seq(|ps|, i requires 0 <= i < |ps| => s[ps[i].start..ps[i].end])
  }

  /** The raw pieces the tokenizer keeps, in source order. */
  function RawTokens(s: string, parens: bool): (ts: seq<Piece>)
    ensures Bounded(ts, |s|)
    ensures forall i :: 0 <= i < |ts| ==> ts[i].start < ts[i].end
  {
    SplitTiles(s, Tokenizer(parens), 0, 0);
    TilesBounded(Split(s, Tokenizer(parens)), |s|);
    NonEmpty(Split(s, Tokenizer(parens)))
  }

  /** `para.split(<tokenizer>).filter(Boolean)`. */
  function Tokens(s: string, parens: bool): seq<string>
  {
    Texts(s, RawTokens(s, parens))
  }

  /** The pieces `text.split(/\n{2,}/)` returns. */
  function BlockPieces(s: string): (bs: seq<Piece>)
    ensures Bounded(bs, |s|)
  {
    SplitTiles(s, BlankLines, 0, 0);
    TilesBounded(Split(s, BlankLines), |s|);
    TextPieces(Split(s, BlankLines))
  }

  /** `text.split(/\n{2,}/)`. */
  function Blocks(s: string): seq<string>
  {
    Texts(s, BlockPieces(s))
  }
  lemma TilesCons(pc: Piece, rest: seq<Piece>, n: nat)
    requires pc.start <= pc.end && Tiles(rest, pc.end, n)
    ensures Tiles([pc] + rest, pc.start, n)
  {
    var ps := [pc] + rest;
    assert forall i :: 1 <= i < |ps| ==> ps[i] == rest[i - 1];
  }

  lemma TilesTail(ps: seq<Piece>, p: nat, n: nat)
    requires ps != [] && Tiles(ps, p, n)
    ensures Tiles(ps[1..], ps[0].end, n)
  {
  }

  /** Dropping empty pieces keeps a tiling a tiling. */
  lemma {:induction false} NonEmptyTiles(ps: seq<Piece>, p: nat, n: nat)
    requires Tiles(ps, p, n)
    ensures Tiles(NonEmpty(ps), p, n)
  {
    if ps != [] {
      TilesTail(ps, p, n);
      NonEmptyTiles(ps[1..], ps[0].end, n);
      if ps[0].start < ps[0].end {
        TilesCons(ps[0], NonEmpty(ps[1..]), n);
      }
    }
  }

  lemma TextsCons(s: string, ps: seq<Piece>)
    requires ps != [] && Bounded(ps, |s|)
    ensures Bounded(ps[1..], |s|)
    ensures Texts(s, ps) == [s[ps[0].start..ps[0].end]] + Texts(s, ps[1..])
  {
    assert ps[0] in ps;
    assert forall pc :: pc in ps[1..] ==> pc in ps;
    var t := Texts(s, ps[1..]);
    assert forall i :: 0 <= i < |t| ==> t[i] == s[ps[i + 1].start..ps[i + 1].end];
  }

  /** The texts of a tiling of `s[p..n]` concatenate back to it. */
  lemma {:induction false} ConcatTexts(s: string, ps: seq<Piece>, p: nat, n: nat)
    requires Tiles(ps, p, n) && Bounded(ps, |s|) && n <= |s|
    ensures p <= n && Concat(Texts(s, ps)) == s[p..n]
  {
    if ps != [] {
      var m := ps[0].end;
      TilesTail(ps, p, n);
      TextsCons(s, ps);
      ConcatTexts(s, ps[1..], m, n);
      ConcatCons(s[p..m], Texts(s, ps[1..]));
      assert s[p..n] == s[p..m] + s[m..n];
    }
  }

  /** Tokenizing loses nothing: the tokens concatenate back to the block. */
  lemma TokensConcat(s: string, parens: bool)
    ensures Concat(Tokens(s, parens)) == s
  {
    var ps := Split(s, Tokenizer(parens));
    SplitTiles(s, Tokenizer(parens), 0, 0);
    NonEmptyTiles(ps, 0, |s|);
    ConcatTexts(s, NonEmpty(ps), 0, |s|);
    assert s[0..|s|] == s;
  }

  predicate NoAdjacentText(ps: seq<Piece>)
  {
    forall i :: 0 <= i < |ps| - 1 ==> !(ps[i].Text? && ps[i + 1].Text?)
  }

  /** Dropping empty text pieces never brings two text pieces together, as long
      as no match is empty. */
  lemma {:induction false} NonEmptyNoAdjacentText(ps: seq<Piece>)
    requires NoAdjacentText(ps)
    requires forall i :: 0 <= i < |ps| && ps[i].Match? ==> ps[i].start < ps[i].end
    ensures var r := NonEmpty(ps); NoAdjacentText(r) && (r != [] && r[0].Text? ==> ps[0].Text?)
  {
    if ps != [] {
      var rest := ps[1..];
      NonEmptyNoAdjacentText(rest);
      var rr := NonEmpty(rest);
      if ps[0].start < ps[0].end {
        var r := [ps[0]] + rr;
        assert forall i :: 1 <= i < |r| ==> r[i] == rr[i - 1];
        if rr != [] && rr[0].Text? {
          assert rest[0].Text?;
        }
      } else if rest != [] {
        assert rest[0].Match?;
      }
    }
  }

  /** The raw tokens: a text piece is always followed by a match. */
  lemma RawTokensNoAdjacentText(s: string, parens: bool)
    ensures NoAdjacentText(RawTokens(s, parens))
  {
    var ps := Split(s, Tokenizer(parens));
    SplitAlternates(s, Tokenizer(parens), 0, 0);
    SplitMatches(s, Tokenizer(parens), 0, 0);
    forall i | 0 <= i < |ps| - 1 ensures !(ps[i].Text? && ps[i + 1].Text?) {
      assert ps[i].Text? <==> i % 2 == 0;
      assert ps[i + 1].Text? <==> (i + 1) % 2 == 0;
    }
    forall i | 0 <= i < |ps| && ps[i].Match? ensures ps[i].start < ps[i].end {
      assert ps[i] in ps;
    }
    NonEmptyNoAdjacentText(ps);
  }

  /** Where `\n{2,}` matches nowhere, no blank line occurs. */
  lemma NoBlankLineInside(s: string, lo: nat, hi: nat)
    requires lo <= hi <= |s| && forall k :: lo <= k < hi ==> MatchAt(s, k, BlankLines).None?
    ensures !Contains(s[lo..hi], "\n\n")
  {
    var b := s[lo..hi];
    forall i: nat | i <= |b| ensures !OccursAt(b, "\n\n", i) {
      if i + 2 <= |b| {
        assert MatchAt(s, lo + i, BlankLines).None?;
        assert s[lo + i] == b[i] && s[lo + i + 1] == b[i + 1];
      }
    }
  }

  /** No block holds a blank line, so nothing found inside a block spans one. */
  lemma BlocksNoBlankLine(s: string)
    ensures forall b :: b in Blocks(s) ==> !Contains(b, "\n\n")
  {
    var ps := Split(s, BlankLines);
    SplitTexts(s, BlankLines, 0, 0);
    var bs := BlockPieces(s);
    var blocks := Blocks(s);
    forall b | b in blocks ensures !Contains(b, "\n\n") {
      var j :| 0 <= j < |bs| && b == blocks[j];
      var pc := bs[j];
      assert pc in ps && pc.Text?;
      NoBlankLineInside(s, pc.start, pc.end);
    }
  }

  /** Two patterns that match alike everywhere split alike. */
  lemma {:induction false} SplitSame(s: string, pat1: Pattern, pat2: Pattern, p: nat, q: nat)
    requires p <= q <= |s|
    requires forall k :: q <= k <= |s| ==> MatchAt(s, k, pat1) == MatchAt(s, k, pat2)
    decreases |s| - q
    ensures SplitFrom(s, pat1, p, q) == SplitFrom(s, pat2, p, q)
  {
    if q < |s| {
      var m := MatchAt(s, q, pat1);
      if m.None? {
        SplitSame(s, pat1, pat2, p, q + 1);
      } else {
        SplitSame(s, pat1, pat2, m.value, m.value);
      }
    }
  }

  /** Without any `\(` in the input the `\(…\)` branch never fires, and the two
      tokenizers cut the same tokens. */
  lemma TokensWithoutParens(s: string)
    requires !Contains(s, "\\(")
    ensures RawTokens(s, true) == RawTokens(s, false)
  {
    forall k | 0 <= k <= |s| ensures MatchAt(s, k, Tokenizer(true)) == MatchAt(s, k, Tokenizer(false)) {
      if OccursAt(s, "\\(", k) {
        assert false;
      }
    }
    SplitSame(s, Tokenizer(true), Tokenizer(false), 0, 0);
  }
  /** Where the pattern matches nowhere, the split is the input itself. */
  lemma {:induction false} SplitNoMatch(s: string, pat: Pattern, p: nat, q: nat)
    requires p <= q <= |s|
    requires forall k :: q <= k < |s| ==> MatchAt(s, k, pat).None?
    decreases |s| - q
    ensures SplitFrom(s, pat, p, q) == [Text(p, |s|)]
  {
    if q < |s| {
      SplitNoMatch(s, pat, p, q + 1);
    }
  }

  /** A text without a newline holds no blank line. */
  lemma NoNewlineNoBlankLine(s: string)
    requires forall k :: 0 <= k < |s| ==> s[k] != '\n'
    ensures !Contains(s, "\n\n")
  {
    forall i: nat | i <= |s|
      ensures !OccursAt(s, "\n\n", i)
    {
      if i + 2 <= |s| {
        assert s[i..i + 2][0] == s[i];
      }
    }
  }

  /** A text without a blank line is a single block. */
  lemma SingleBlock(s: string)
    requires !Contains(s, "\n\n")
    ensures Blocks(s) == [s]
  {
    forall k | 0 <= k < |s|
      ensures MatchAt(s, k, BlankLines).None?
    {
    }
    SplitNoMatch(s, BlankLines, 0, 0);
    var ps := Split(s, BlankLines);
    assert ps == [Text(0, |s|)];
    assert TextPieces(ps) == [Text(0, |s|)] + TextPieces([]);
    assert s[0..|s|] == s;
  }

  /** No math delimiter can open in `s`: no `$`, no `\[`, and no `\(` when that
      branch is on. */
  predicate NoDelimiters(s: string, parens: bool)
  {
    && (forall k :: 0 <= k < |s| ==> s[k] != '$')
    && (forall k :: 0 <= k < |s| - 1 && s[k] == '\\' ==> s[k + 1] != '[' && (parens ==> s[k + 1] != '('))
  }

  /** A block with no delimiter is one plain token, or none when empty. */
  lemma SingleToken(s: string, parens: bool)
    requires NoDelimiters(s, parens)
    ensures Tokens(s, parens) == if s == [] then [] else [s]
  {
    forall k | 0 <= k < |s|
      ensures MatchAt(s, k, Tokenizer(parens)).None?
    {
      if k + 2 <= |s| {
        var w := s[k..k + 2];
        assert w[0] == s[k] && w[1] == s[k + 1];
      }
    }
    SplitNoMatch(s, Tokenizer(parens), 0, 0);
    var ps := Split(s, Tokenizer(parens));
    assert ps == [Text(0, |s|)];
    if s == [] {
      assert NonEmpty(ps) == NonEmpty([]);
    } else {
      assert NonEmpty(ps) == [Text(0, |s|)] + NonEmpty([]);
      assert s[0..|s|] == s;
    }
  }
}
