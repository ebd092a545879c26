/** What the frontend renderers turn a text into: headings, paragraphs of text
    and inline math, and block math, in source order. Every renderer copy
    cuts the text into blocks, tokenizes each block, classifies each token by
    the shape of its trimmed text, and folds the tokens into nodes with a
    buffer of inline content that block math flushes into a paragraph. */
module ContentNodes {
  import opened Strings
  import opened MathTokens

  /** An item inside a paragraph. */
  datatype Inline = Plain(text: string) | InlineMath(expr: string)

  /** A rendered element (KaTeX `BlockMath`, `<p>`, or `<h2>`–`<h4>`). */
  datatype Node = Heading(level: nat, text: string) | Para(items: seq<Inline>) | BlockMath(expr: string)

  /** What a token turns into, judged on its trimmed text. */
  datatype Token = BlockTok(expr: string) | InlineTok(expr: string) | PlainTok(raw: string)

  /** JavaScript `t.slice(a, -b)` for positive `a` and `b`. */
  function JsSlice(t: string, a: nat, b: nat): (r: string)
    requires a > 0 && b > 0
    ensures a + b <= |t| ==> r == t[a..|t| - b]
    ensures a + b > |t| ==> r == []
  {
    var start := if a < |t| then a else |t|;
    var end := if |t| >= b then |t| - b else 0;
    if start < end then t[start..end] else []
  }

  /** `$$…$$` or `\[…\]` around the trimmed token: block math. */
  predicate BlockShaped(t: string)
  {
    (StartsWith(t, "$$") && EndsWith(t, "$$")) || (StartsWith(t, "\\[") && EndsWith(t, "\\]"))
  }

  /** `\(…\)` around the trimmed token. */
  predicate ParenShaped(t: string)
  {
    StartsWith(t, "\\(") && EndsWith(t, "\\)")
  }

  /** `$…$` around the trimmed token. */
  predicate DollarShaped(t: string)
  {
    StartsWith(t, "$") && EndsWith(t, "$")
  }

  /** The classification every copy applies to a token `tok`; `parens` is set in
      the copies whose tokenizer knows `\(…\)`. */
  function Classify(tok: string, parens: bool): Token
  {
    var t := TrimJs(tok);
    if BlockShaped(t) then BlockTok(TrimJs(JsSlice(t, 2, 2)))
    else if parens && ParenShaped(t) then InlineTok(TrimJs(JsSlice(t, 2, 2)))
    else if DollarShaped(t) then InlineTok(TrimJs(JsSlice(t, 1, 1)))
    else PlainTok(tok)
  }

  function ClassifyAll(toks: seq<string>, parens: bool): (r: seq<Token>)
    ensures |r| == |toks|
  {
    if toks == [] then [] else [Classify(toks[0], parens)] + ClassifyAll(toks[1..], parens)
  }

  lemma {:induction false} ClassifyAllAt(toks: seq<string>, parens: bool, i: nat)
    requires i < |toks|
    ensures ClassifyAll(toks, parens)[i] == Classify(toks[i], parens)
  {
    if i > 0 {
      ClassifyAllAt(toks[1..], parens, i - 1);
    }
  }

  /** The paragraph item a non-block token is buffered as. */
  function ItemOf(tk: Token): Inline
    requires !tk.BlockTok?
  {
    match tk
    case InlineTok(e) => InlineMath(e)
    case PlainTok(raw) => Plain(raw)
  }

  /** `flush`: a paragraph only from a non-empty buffer. */
  function Flush(buf: seq<Inline>): (r: seq<Node>)
    ensures r == [] <==> buf == []
    ensures forall n :: n in r ==> n == Para(buf)
  {
    if buf == [] then [] else [Para(buf)]
  }

  /** The fold over the tokens, with the buffer `buf` of pending inline items. */
  function AssembleFrom(ts: seq<Token>, buf: seq<Inline>): seq<Node>
    decreases |ts|, 0
  {
    if ts == [] then Flush(buf) else AssembleAt(ts[0], ts[1..], buf)
  }

  /** One step of the fold: the token `tk`, then the tokens `rest`. */
  function AssembleAt(tk: Token, rest: seq<Token>, buf: seq<Inline>): seq<Node>
    decreases |rest|, 1
  {
    match tk
    case BlockTok(e) => Flush(buf) + [BlockMath(e)] + AssembleFrom(rest, [])
    case _ => AssembleFrom(rest, buf + [ItemOf(tk)])
  }

  function Assemble(ts: seq<Token>): seq<Node>
  {
    AssembleFrom(ts, [])
  }

  /** The token loop of a renderer copy (`tokens.forEach`): `buf` collects
      inline content, `elems` the emitted nodes, and block math flushes the
      buffer first. The tokens arrive already classified; classification is
      pure, so doing it ahead of the loop changes nothing. */
  method AssembleTokens(cts: seq<Token>) returns (elems: seq<Node>)
    ensures elems == Assemble(cts)
  {
    elems := [];
    var buf: seq<Inline> := [];
    var i := 0;
    assert cts[0..] == cts;
    while i < |cts|
      invariant 0 <= i <= |cts|
      invariant elems + AssembleFrom(cts[i..], buf) == Assemble(cts)
    {
      assert cts[i..] == [cts[i]] + cts[i + 1..];
      match cts[i] {
        case BlockTok(expr) =>
          if |buf| > 0 {
            elems := elems + [Para(buf)];
            buf := [];
          }
          elems := elems + [BlockMath(expr)];
        case InlineTok(expr) =>
          buf := buf + [InlineMath(expr)];
        case PlainTok(raw) =>
          buf := buf + [Plain(raw)];
      }
      i := i + 1;
    }
    if |buf| > 0 {
      elems := elems + [Para(buf)];
    }
  }

  /** The shape every assembled block has: no headings, no empty paragraph,
      and a paragraph is always followed by block math (never by another
      paragraph). */
  predicate WellGrouped(nodes: seq<Node>)
  {
    && (forall i :: 0 <= i < |nodes| ==> !nodes[i].Heading?)
    && (forall i :: 0 <= i < |nodes| && nodes[i].Para? ==> nodes[i].items != [])
    && (forall i :: 0 <= i < |nodes| - 1 && nodes[i].Para? ==> nodes[i + 1].BlockMath?)
  }

  lemma WellGroupedCons(n: Node, rest: seq<Node>)
    requires WellGrouped(rest) && !n.Heading?
    requires n.Para? ==> n.items != [] && (rest == [] || rest[0].BlockMath?)
    ensures WellGrouped([n] + rest)
  {
    var ns := [n] + rest;
    assert forall i :: 1 <= i < |ns| ==> ns[i] == rest[i - 1];
  }

  lemma WellGroupedTail(nodes: seq<Node>)
    requires nodes != [] && WellGrouped(nodes)
    ensures WellGrouped(nodes[1..])
  {
    var rest := nodes[1..];
    assert forall i :: 0 <= i < |rest| ==> rest[i] == nodes[i + 1];
  }

  /** Assembly yields well-grouped nodes, whatever the tokens. */
  lemma {:induction false} AssembleWellGrouped(ts: seq<Token>, buf: seq<Inline>)
    ensures WellGrouped(AssembleFrom(ts, buf))
  {
    if ts == [] {
    } else if ts[0].BlockTok? {
      var rest := AssembleFrom(ts[1..], []);
      AssembleWellGrouped(ts[1..], []);
      WellGroupedCons(BlockMath(ts[0].expr), rest);
      if buf != [] {
        WellGroupedCons(Para(buf), [BlockMath(ts[0].expr)] + rest);
        assert AssembleFrom(ts, buf) == [Para(buf)] + ([BlockMath(ts[0].expr)] + rest);
      } else {
        assert AssembleFrom(ts, buf) == [BlockMath(ts[0].expr)] + rest;
      }
    } else {
      AssembleWellGrouped(ts[1..], buf + [ItemOf(ts[0])]);
    }
  }

  /** The tokens a paragraph item came from. */
  function ItemTokens(items: seq<Inline>): (r: seq<Token>)
    ensures |r| == |items|
  {
    seq(|items|, i requires 0 <= i < |items| =>
      match items[i]
      case Plain(raw) => PlainTok(raw)
      case InlineMath(e) => InlineTok(e))
  }

  /** The token classes one node was built from. */
  function NodeTokens(n: Node): seq<Token>
  {
    match n
    case Heading(_, _) => []
    case Para(items) => ItemTokens(items)
    case BlockMath(e) => [BlockTok(e)]
  }

  /** Reading the nodes back as the token classes they were built from. */
  function Flatten(nodes: seq<Node>): seq<Token>
  {
    if nodes == [] then [] else NodeTokens(nodes[0]) + Flatten(nodes[1..])
  }

  lemma FlattenFlush(buf: seq<Inline>)
    ensures Flatten(Flush(buf)) == ItemTokens(buf)
  {
    if buf != [] {
      assert Flush(buf)[1..] == [];
    }
  }

  lemma FlattenOne(n: Node)
    ensures Flatten([n]) == NodeTokens(n)
  {
    assert [n][1..] == [];
  }

  lemma ItemTokensSnoc(buf: seq<Inline>, tk: Token)
    requires !tk.BlockTok?
    ensures ItemTokens(buf + [ItemOf(tk)]) == ItemTokens(buf) + [tk]
  {
  }

  lemma {:induction false} FlattenAppend(a: seq<Node>, b: seq<Node>)
    ensures Flatten(a + b) == Flatten(a) + Flatten(b)
  {
    if a != [] {
      assert (a + b)[1..] == a[1..] + b;
      FlattenAppend(a[1..], b);
    } else {
      assert a + b == b;
    }
  }

  /** Block math flushes the buffer, then emits itself. */
  lemma AssembleBlock(e: string, rest: seq<Token>, buf: seq<Inline>)
    ensures AssembleFrom([BlockTok(e)] + rest, buf) == Flush(buf) + [BlockMath(e)] + AssembleFrom(rest, [])
  {
    var ts := [BlockTok(e)] + rest;
    assert ts[0] == BlockTok(e) && ts[1..] == rest;
  }

  /** Other tokens join the buffer. */
  lemma AssembleItem(tk: Token, rest: seq<Token>, buf: seq<Inline>)
    requires !tk.BlockTok?
    ensures AssembleFrom([tk] + rest, buf) == AssembleFrom(rest, buf + [ItemOf(tk)])
  {
    var ts := [tk] + rest;
    assert ts[0] == tk && ts[1..] == rest;
  }

  lemma FlattenCons(n: Node, rest: seq<Node>)
    ensures Flatten([n] + rest) == NodeTokens(n) + Flatten(rest)
  {
    var ns := [n] + rest;
    assert ns[0] == n && ns[1..] == rest;
  }

  /** Reading back what block math emits: the buffer, the block, the rest. */
  lemma FlattenBlockStep(e: string, more: seq<Token>, buf: seq<Inline>)
    requires Flatten(AssembleFrom(more, [])) == more
    ensures Flatten(AssembleFrom([BlockTok(e)] + more, buf)) == ItemTokens(buf) + [BlockTok(e)] + more
  {
    var b := BlockMath(e);
    var rest := AssembleFrom(more, []);
    AssembleBlock(e, more, buf);
    FlattenFlush(buf);
    FlattenAppend(Flush(buf) + [b], rest);
    FlattenAppend(Flush(buf), [b]);
    FlattenOne(b);
  }

  /** Nothing is lost or reordered: reading the assembled nodes back yields the
      buffered items followed by the tokens. */
  lemma {:induction false} AssembleFlatten(ts: seq<Token>, buf: seq<Inline>)
    ensures Flatten(AssembleFrom(ts, buf)) == ItemTokens(buf) + ts
  {
    if ts == [] {
      FlattenFlush(buf);
      assert ItemTokens(buf) + ts == ItemTokens(buf);
    } else {
      var tk, more := ts[0], ts[1..];
      assert ts == [tk] + more;
      if tk.BlockTok? {
        AssembleFlatten(more, []);
        FlattenBlockStep(tk.expr, more, buf);
        assert ItemTokens(buf) + [tk] + more == ItemTokens(buf) + ts;
      } else {
        AssembleItem(tk, more, buf);
        AssembleFlatten(more, buf + [ItemOf(tk)]);
        ItemTokensSnoc(buf, tk);
        assert ItemTokens(buf) + [tk] + more == ItemTokens(buf) + ts;
      }
    }
  }

  /** A run of inline items re-read as tokens only refills the buffer. */
  lemma {:induction false} AssembleItems(items: seq<Inline>, ts: seq<Token>, buf: seq<Inline>)
    ensures AssembleFrom(ItemTokens(items) + ts, buf) == AssembleFrom(ts, buf + items)
  {
    if items == [] {
      assert ItemTokens(items) + ts == ts;
      assert buf + items == buf;
    } else {
      var all := ItemTokens(items) + ts;
      assert all[0] == ItemTokens(items)[0];
      assert ItemOf(all[0]) == items[0];
      assert all[1..] == ItemTokens(items[1..]) + ts;
      AssembleItems(items[1..], ts, buf + [items[0]]);
      assert buf + [items[0]] + items[1..] == buf + items;
    }
  }

  /** Reading back block math in front of nodes that read back to
      themselves. */
  lemma InverseBlockStep(e: string, rest: seq<Node>)
    requires Assemble(Flatten(rest)) == rest
    ensures Assemble(Flatten([BlockMath(e)] + rest)) == [BlockMath(e)] + rest
  {
    FlattenCons(BlockMath(e), rest);
    AssembleBlock(e, Flatten(rest), []);
  }

  /** Reading back a paragraph and the block math after it, in front of
      nodes that read back to themselves. */
  lemma InverseParaStep(items: seq<Inline>, e: string, more: seq<Node>)
    requires items != [] && Assemble(Flatten(more)) == more
    ensures Assemble(Flatten([Para(items)] + ([BlockMath(e)] + more))) == [Para(items)] + ([BlockMath(e)] + more)
  {
    var rest := [BlockMath(e)] + more;
    FlattenCons(Para(items), rest);
    FlattenCons(BlockMath(e), more);
    AssembleItems(items, Flatten(rest), []);
    assert [] + items == items;
    AssembleBlock(e, Flatten(more), items);
  }

  /** Reading back a last paragraph. */
  lemma InverseLastPara(items: seq<Inline>)
    requires items != []
    ensures Assemble(Flatten([Para(items)])) == [Para(items)]
  {
    FlattenOne(Para(items));
    assert ItemTokens(items) + [] == ItemTokens(items);
    AssembleItems(items, [], []);
    assert [] + items == items;
  }

  /** Assembly is the only well-grouped way to lay out a token sequence: it
      inverts `Flatten` on well-grouped nodes. */
  lemma {:induction false} AssembleInverse(nodes: seq<Node>)
    requires WellGrouped(nodes)
    decreases |nodes|
    ensures Assemble(Flatten(nodes)) == nodes
  {
    if nodes != [] {
      WellGroupedTail(nodes);
      var n, rest := nodes[0], nodes[1..];
      assert nodes == [n] + rest;
      if n.BlockMath? {
        AssembleInverse(rest);
        InverseBlockStep(n.expr, rest);
      } else if rest == [] {
        InverseLastPara(n.items);
      } else {
        var m, more := rest[0], rest[1..];
        assert m.BlockMath?;
        assert rest == [m] + more;
        WellGroupedTail(rest);
        AssembleInverse(more);
        InverseParaStep(n.items, m.expr, more);
      }
    }
  }

  /** One block, as every copy renders a block without headings. */
  function RenderBlock(para: string, parens: bool): (r: seq<Node>)
    ensures WellGrouped(r)
  {
    AssembleWellGrouped(ClassifyAll(Tokens(para, parens), parens), []);
    Assemble(ClassifyAll(Tokens(para, parens), parens))
  }

  /** One block as a renderer copy processes it: split, `filter(Boolean)`,
      classify, and run the token loop. */
  method RenderParagraph(para: string, parens: bool) returns (elems: seq<Node>)
    ensures elems == RenderBlock(para, parens)
    ensures WellGrouped(elems)
  {
    var tokens := Tokens(para, parens);
    elems := AssembleTokens(ClassifyAll(tokens, parens));
  }

  /** No headings and no empty paragraphs anywhere. */
  predicate ParagraphsOnly(nodes: seq<Node>)
  {
    forall n :: n in nodes ==> !n.Heading? && (n.Para? ==> n.items != [])
  }

  /** `flatMap` of the block renderer over the blocks, in order. */
  function RenderBlocks(blocks: seq<string>, parens: bool): (r: seq<Node>)
    ensures ParagraphsOnly(r)
  {
    if blocks == [] then []
    else
      var first := RenderBlock(blocks[0], parens);
      assert forall i :: 0 <= i < |first| ==> !first[i].Heading?;
      first + RenderBlocks(blocks[1..], parens)
  }

  /** `text.split(/\n{2,}/).flatMap(<render one block>)`. */
  function Render(text: string, parens: bool): (r: seq<Node>)
    ensures ParagraphsOnly(r)
  {
    RenderBlocks(Blocks(text), parens)
  }

  /** A token that neither starts nor ends with white space is classified by
      its own shape. */
  lemma ClassifyUntrimmed(tk: string, parens: bool)
    requires tk != [] && !IsJsSpace(tk[0]) && !IsJsSpace(tk[|tk| - 1])
    ensures TrimJs(tk) == tk
  {
    TrimUnchanged(tk, Js);
  }

  /** A match of `open[\s\S]*?close` with two-character delimiters. */
  lemma LazyToken(s: string, q: nat, e: nat, open: string, close: string)
    requires |open| == 2 && |close| == 2 && LazyAt(s, q, open, close) == Some(e)
    ensures q + 4 <= e <= |s| && s[q] == open[0] && s[q + 1] == open[1]
    ensures s[q..e][..2] == open && s[q..e][|s[q..e]| - 2..] == close
    ensures JsSlice(s[q..e], 2, 2) == s[q + 2..e - 2]
  {
    var k := IndexOf(s, close, q + 2).value;
    assert e == k + 2;
    assert s[q..e][|s[q..e]| - 2..] == s[k..k + 2];
  }

  /** A lazy `$$…$$` or `\[…\]` match is block math of its trimmed inside. */
  lemma ClassifyBlockMath(s: string, q: nat, e: nat, parens: bool, open: string, close: string)
    requires (open, close) == ("$$", "$$") || (open, close) == ("\\[", "\\]")
    requires LazyAt(s, q, open, close) == Some(e)
    ensures q + 4 <= e <= |s| && Classify(s[q..e], parens) == BlockTok(TrimJs(s[q + 2..e - 2]))
  {
    LazyToken(s, q, e, open, close);
    var tk := s[q..e];
    ClassifyUntrimmed(tk, parens);
    assert BlockShaped(tk);
  }

  lemma ClassifyParen(s: string, q: nat, e: nat)
    requires LazyAt(s, q, "\\(", "\\)") == Some(e)
    ensures q + 4 <= e <= |s| && Classify(s[q..e], true) == InlineTok(TrimJs(s[q + 2..e - 2]))
  {
    LazyToken(s, q, e, "\\(", "\\)");
    var tk := s[q..e];
    ClassifyUntrimmed(tk, true);
    assert !BlockShaped(tk) by {
      assert tk[0] == '\\' && tk[1] == '(';
    }
    assert ParenShaped(tk);
  }

  /** A match of `\$[^$\n]+\$`. */
  lemma DollarToken(s: string, q: nat, e: nat)
    requires q <= |s| && DollarInlineAt(s, q) == Some(e)
    ensures q + 3 <= e <= |s| && s[q] == '$' && s[q + 1] != '$'
    ensures s[q..e][0] == '$' && s[q..e][1] != '$' && s[q..e][e - q - 1] == '$'
    ensures JsSlice(s[q..e], 1, 1) == s[q + 1..e - 1]
  {
    var j := InlineRunEnd(s, q + 1);
    assert e == j + 1 && s[q + 1] != '$';
    var tk := s[q..e];
    assert |tk| == e - q;
    assert tk[1..|tk| - 1] == s[q + 1..e - 1];
  }

  lemma ClassifyDollarInline(s: string, q: nat, e: nat, parens: bool)
    requires q <= |s| && DollarInlineAt(s, q) == Some(e)
    ensures q + 3 <= e <= |s| && Classify(s[q..e], parens) == InlineTok(TrimJs(s[q + 1..e - 1]))
  {
    DollarToken(s, q, e);
    var tk := s[q..e];
    ClassifyUntrimmed(tk, parens);
    assert !BlockShaped(tk) by {
      assert tk[..2] != "$$" && tk[..2] != "\\[";
    }
    assert !ParenShaped(tk) by {
      assert tk[..2] != "\\(";
    }
    assert tk[..1] == "$" && tk[|tk| - 1..] == "$";
    assert DollarShaped(tk);
  }

  /** The match the tokenizer finds at `q` turns into math, with the delimiters
      of the alternative that matched cut off and the rest trimmed. */
  lemma ClassifyMatch(s: string, q: nat, e: nat, parens: bool)
    requires q <= |s| && MatchAt(s, q, Tokenizer(parens)) == Some(e)
    ensures q + 2 <= e <= |s|
    ensures s[q] == '$' || (s[q] == '\\' && (s[q + 1] == '[' || (parens && s[q + 1] == '(')))
    ensures (s[q] == '$' && s[q + 1] == '$') || (s[q] == '\\' && s[q + 1] == '[') ==>
              q + 4 <= e && Classify(s[q..e], parens) == BlockTok(TrimJs(s[q + 2..e - 2]))
    ensures s[q] == '\\' && s[q + 1] == '(' ==>
              q + 4 <= e && Classify(s[q..e], parens) == InlineTok(TrimJs(s[q + 2..e - 2]))
    ensures s[q] == '$' && s[q + 1] != '$' ==>
              q + 3 <= e && Classify(s[q..e], parens) == InlineTok(TrimJs(s[q + 1..e - 1]))
  {
    var dd := LazyAt(s, q, "$$", "$$");
    var br := LazyAt(s, q, "\\[", "\\]");
    var pr := if parens then LazyAt(s, q, "\\(", "\\)") else None;
    if dd.Some? {
      assert dd == Some(e);
      ClassifyBlockMath(s, q, e, parens, "$$", "$$");
      LazyToken(s, q, e, "$$", "$$");
    } else if br.Some? {
      assert br == Some(e);
      ClassifyBlockMath(s, q, e, parens, "\\[", "\\]");
      LazyToken(s, q, e, "\\[", "\\]");
    } else if pr.Some? {
      assert parens && pr == Some(e);
      ClassifyParen(s, q, e);
      LazyToken(s, q, e, "\\(", "\\)");
    } else {
      assert DollarInlineAt(s, q) == Some(e);
      ClassifyDollarInline(s, q, e, parens);
      DollarToken(s, q, e);
    }
  }

  /** Two tokens in a row are never both plain text. */
  lemma NoAdjacentPlain(s: string, parens: bool)
    ensures var cs := ClassifyAll(Tokens(s, parens), parens);
      forall i :: 0 <= i < |cs| - 1 ==> !(cs[i].PlainTok? && cs[i + 1].PlainTok?)
  {
    var rt := RawTokens(s, parens);
    var ps := Split(s, Tokenizer(parens));
    RawTokensNoAdjacentText(s, parens);
    SplitMatches(s, Tokenizer(parens), 0, 0);
    var toks := Tokens(s, parens);
    var cs := ClassifyAll(toks, parens);
    forall i | 0 <= i < |cs| - 1 ensures !(cs[i].PlainTok? && cs[i + 1].PlainTok?) {
      var k := if rt[i].Match? then i else i + 1;
      assert rt[k].Match?;
      assert rt[k] in ps;
      ClassifyMatch(s, rt[k].start, rt[k].end, parens);
      ClassifyAllAt(toks, parens, k);
    }
  }

  /** A block without `\(` renders the same with or without the `\(…\)` branch. */
  lemma RenderBlockWithoutParens(b: string)
    requires !Contains(b, "\\(")
    ensures RenderBlock(b, true) == RenderBlock(b, false)
  {
    TokensWithoutParens(b);
    var toks := Tokens(b, false);
    var rt := RawTokens(b, false);
    forall i | 0 <= i < |toks| ensures Classify(toks[i], true) == Classify(toks[i], false) {
      var t := TrimJs(toks[i]);
      if StartsWith(t, "\\(") {
        StartsWithContains(t, "\\(");
        TrimContains(toks[i], Js, "\\(");
        assert rt[i] in rt;
        SliceContains(b, rt[i].start, rt[i].end, "\\(");
        assert false;
      }
    }
    ClassifyAllAgree(toks);
  }

  lemma {:induction false} ClassifyAllAgree(toks: seq<string>)
    requires forall i :: 0 <= i < |toks| ==> Classify(toks[i], true) == Classify(toks[i], false)
    ensures ClassifyAll(toks, true) == ClassifyAll(toks, false)
  {
    if toks != [] {
      assert Classify(toks[0], true) == Classify(toks[0], false);
      ClassifyAllAgree(toks[1..]);
    }
  }

  /** A text without `\(` renders the same with or without the `\(…\)` branch. */
  lemma RenderWithoutParens(text: string)
    requires !Contains(text, "\\(")
    ensures Render(text, true) == Render(text, false)
  {
    var bp := BlockPieces(text);
    var bs := Blocks(text);
    forall i | 0 <= i < |bs| ensures !Contains(bs[i], "\\(") {
      assert bp[i] in bp;
      if Contains(bs[i], "\\(") {
        SliceContains(text, bp[i].start, bp[i].end, "\\(");
        assert false;
      }
    }
    BlocksWithoutParens(bs);
  }

  lemma {:induction false} BlocksWithoutParens(bs: seq<string>)
    requires forall i :: 0 <= i < |bs| ==> !Contains(bs[i], "\\(")
    ensures RenderBlocks(bs, true) == RenderBlocks(bs, false)
  {
    if bs != [] {
      RenderBlockWithoutParens(bs[0]);
      BlocksWithoutParens(bs[1..]);
    }
  }
  /** A slice of a text without delimiters has none either. */
  lemma SliceNoDelimiters(s: string, lo: nat, hi: nat, parens: bool)
    requires lo <= hi <= |s| && NoDelimiters(s, parens)
    ensures NoDelimiters(s[lo..hi], parens)
  {
    var t := s[lo..hi];
    assert forall k :: 0 <= k < |t| ==> t[k] == s[lo + k];
  }

  /** Without delimiters a trimmed token has none of the math shapes. */
  lemma NoDelimitersNoShape(t: string, parens: bool)
    requires NoDelimiters(t, parens)
    ensures !BlockShaped(t) && !DollarShaped(t) && !(parens && ParenShaped(t))
  {
    if t != [] {
      assert t[..1][0] == t[0];
      if |t| >= 2 {
        assert t[..2][0] == t[0] && t[..2][1] == t[1];
      }
    }
  }

  /** A token that cannot open any delimiter is plain text. */
  lemma ClassifyPlain(s: string, parens: bool)
    requires NoDelimiters(s, parens)
    ensures Classify(s, parens) == PlainTok(s)
  {
    TrimSpec(s, Js);
    var t := TrimJs(s);
    var lo, hi :| 0 <= lo <= hi <= |s| && t == s[lo..hi] && AllSpace(s[..lo], Js) && AllSpace(s[hi..], Js);
    SliceNoDelimiters(s, lo, hi, parens);
    NoDelimitersNoShape(t, parens);
  }

  /** A block that cannot open any delimiter renders as one paragraph holding
      its text verbatim; an empty block renders as nothing. */
  lemma PlainBlock(s: string, parens: bool)
    requires NoDelimiters(s, parens)
    ensures RenderBlock(s, parens) == if s == [] then [] else [Para([Plain(s)])]
  {
    SingleToken(s, parens);
    if s != [] {
      ClassifyPlain(s, parens);
      var cts := ClassifyAll([s], parens);
      assert cts == [PlainTok(s)];
      assert [] + [ItemOf(PlainTok(s))] == [Plain(s)];
      assert AssembleFrom(cts, []) == AssembleFrom(cts[1..], [Plain(s)]);
      assert cts[1..] == [];
    }
  }
}
