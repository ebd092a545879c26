/** Worked inputs for the shared math renderer, covering its edge cases. */
module RenderExamples {
  import opened Strings
  import opened MathTokens
  import opened ContentNodes

  /** A leftover `$` is not text: in `$$x$` no `$$` closes, so `$x$` matches
      and the first `$` becomes empty inline math. */
  lemma LeftoverDollar()
    ensures RenderBlock("$$x$", true) == [Para([InlineMath(""), InlineMath("x")])]
  {
    LeftoverDollarTokens();
    LeftoverDollarClassify();
    LeftoverDollarAssemble();
  }

  lemma LeftoverDollarTokens()
    ensures Tokens("$$x$", true) == ["$", "$x$"]
  {
    var s := "$$x$";
    assert s[2..4][0] == 'x';
    assert IndexOf(s, "$$", 2) == None;
    assert InlineRunEnd(s, 1) == 1;
    assert MatchAt(s, 0, Tokenizer(true)) == None;
    assert InlineRunEnd(s, 2) == 3;
    assert MatchAt(s, 1, Tokenizer(true)) == Some(4);
    assert Split(s, Tokenizer(true)) == [Text(0, 1), Match(1, 4), Text(4, 4)];
    assert RawTokens(s, true) == [Text(0, 1), Match(1, 4)];
    assert s[0..1] == "$" && s[1..4] == "$x$";
  }

  lemma LeftoverDollarClassify()
    ensures ClassifyAll(["$", "$x$"], true) == [InlineTok(""), InlineTok("x")]
  {
    LoneDollar();
    DollarX();
    var toks := ["$", "$x$"];
    assert toks[1..] == ["$x$"] && toks[1..][1..] == [];
    assert ClassifyAll(toks[1..], true) == [InlineTok("x")];
  }

  /** A lone `$` is both `$`-prefixed and `$`-suffixed: empty inline math. */
  lemma LoneDollar()
    ensures Classify("$", true) == InlineTok("")
  {
    assert TrimJs("$") == "$";
    assert !BlockShaped("$") && !ParenShaped("$") && DollarShaped("$");
    assert JsSlice("$", 1, 1) == [];
    assert TrimJs([]) == [];
  }

  lemma DollarX()
    ensures Classify("$x$", true) == InlineTok("x")
  {
    var t := "$x$";
    assert TrimJs(t) == t;
    assert t[..2] == "$x" && t[1..] == "x$";
    assert !BlockShaped(t) && !ParenShaped(t) && DollarShaped(t);
    assert JsSlice(t, 1, 1) == "x";
    assert TrimJs("x") == "x";
  }

  lemma LeftoverDollarAssemble()
    ensures Assemble([InlineTok(""), InlineTok("x")]) == [Para([InlineMath(""), InlineMath("x")])]
  {
    var cts := [InlineTok(""), InlineTok("x")];
    var items := [InlineMath(""), InlineMath("x")];
    assert AssembleFrom(cts[1..][1..], items) == [Para(items)];
    assert cts[1..][0] == InlineTok("x") && cts[0] == InlineTok("");
    assert [InlineMath("")] + [ItemOf(InlineTok("x"))] == items;
    assert AssembleFrom(cts[1..], [InlineMath("")]) == [Para(items)];
    assert [] + [ItemOf(InlineTok(""))] == [InlineMath("")];
  }

  lemma ClassifyOne(s: string, parens: bool)
    ensures ClassifyAll([s], parens) == [Classify(s, parens)]
  {
    assert [s][1..] == [];
  }

  lemma AssembleOne(tk: Token)
    ensures Assemble([tk]) == if tk.BlockTok? then [BlockMath(tk.expr)] else [Para([ItemOf(tk)])]
  {
    assert [tk] == [tk] + [];
    if tk.BlockTok? {
      AssembleBlock(tk.expr, [], []);
    } else {
      AssembleItem(tk, [], []);
      assert [] + [ItemOf(tk)] == [ItemOf(tk)];
    }
  }

  /** A block that is one token renders as what that token assembles to. */
  lemma SingleTokenBlock(s: string, parens: bool, tk: Token)
    requires Tokens(s, parens) == [s] && Classify(s, parens) == tk
    ensures RenderBlock(s, parens) == if tk.BlockTok? then [BlockMath(tk.expr)] else [Para([ItemOf(tk)])]
  {
    ClassifyOne(s, parens);
    AssembleOne(tk);
  }

  /** A text without a blank line is one block. */
  lemma SingleBlockRender(s: string, parens: bool)
    requires !Contains(s, "\n\n")
    ensures Render(s, parens) == RenderBlock(s, parens)
  {
    SingleBlock(s);
    assert [s][1..] == [];
    assert RenderBlocks([s], parens) == RenderBlock(s, parens) + RenderBlocks([], parens);
  }

  lemma BareDoubleDollarTokens(parens: bool)
    ensures Tokens("$$", parens) == ["$$"]
  {
    var s := "$$";
    assert IndexOf(s, "$$", 2) == None;
    assert InlineRunEnd(s, 1) == 1;
    assert MatchAt(s, 0, Tokenizer(parens)) == None;
    assert InlineRunEnd(s, 2) == 2;
    assert MatchAt(s, 1, Tokenizer(parens)) == None;
    assert Split(s, Tokenizer(parens)) == [Text(0, 2)];
    assert RawTokens(s, parens) == [Text(0, 2)];
    assert s[0..2] == s;
  }

  lemma BareDoubleDollarClassify(parens: bool)
    ensures Classify("$$", parens) == BlockTok("")
  {
    var s := "$$";
    assert TrimJs(s) == s;
    assert BlockShaped(s);
    assert JsSlice(s, 2, 2) == [];
    assert TrimJs([]) == [];
  }

  /** A block that is just `$$` matches nothing, yet its trimmed text starts
      and ends with `$$`: it becomes empty block math. */
  lemma BareDoubleDollar(parens: bool)
    ensures RenderBlock("$$", parens) == [BlockMath("")]
  {
    BareDoubleDollarTokens(parens);
    BareDoubleDollarClassify(parens);
    SingleTokenBlock("$$", parens, BlockTok(""));
  }

  lemma BlankTokens(parens: bool)
    ensures Tokens("  ", parens) == ["  "]
  {
    var s := "  ";
    assert MatchAt(s, 0, Tokenizer(parens)) == None;
    assert MatchAt(s, 1, Tokenizer(parens)) == None;
    assert Split(s, Tokenizer(parens)) == [Text(0, 2)];
    assert RawTokens(s, parens) == [Text(0, 2)];
    assert s[0..2] == s;
  }

  lemma BlankClassify(parens: bool)
    ensures Classify("  ", parens) == PlainTok("  ")
  {
    assert TrimJs("  ") == "";
    assert !BlockShaped("") && !ParenShaped("") && !DollarShaped("");
  }

  /** Plain tokens are kept untrimmed: a block of spaces still yields a
      paragraph. */
  lemma BlankBlock(parens: bool)
    ensures RenderBlock("  ", parens) == [Para([Plain("  ")])]
  {
    BlankTokens(parens);
    BlankClassify(parens);
    SingleTokenBlock("  ", parens, PlainTok("  "));
  }

  /** An empty text splits into one empty block, which yields nothing. */
  lemma EmptyText(parens: bool)
    ensures Render("", parens) == []
  {
    assert Split("", BlankLines) == [Text(0, 0)];
    assert BlockPieces("") == [Text(0, 0)];
    assert Blocks("") == [""];
    assert Split("", Tokenizer(parens)) == [Text(0, 0)];
    assert RawTokens("", parens) == [];
    assert Tokens("", parens) == [];
    assert ClassifyAll([], parens) == [];
    assert RenderBlock("", parens) == [];
    assert RenderBlocks([""], parens) == RenderBlock("", parens) + RenderBlocks([], parens);
  }
  lemma ParenTokens()
    ensures Tokens("\\(x\\)", true) == ["\\(x\\)"]
  {
    var s := "\\(x\\)";
    assert s[3..5] == "\\)";
    assert s[2..4][0] == 'x';
    assert IndexOf(s, "\\)", 3) == Some(3);
    assert IndexOf(s, "\\)", 2) == Some(3);
    assert LazyAt(s, 0, "\\(", "\\)") == Some(5);
    assert MatchAt(s, 0, Tokenizer(true)) == Some(5);
    assert Split(s, Tokenizer(true)) == [Text(0, 0), Match(0, 5), Text(5, 5)];
    assert RawTokens(s, true) == [Match(0, 5)];
    assert s[0..5] == s;
  }

  lemma ParenClassify()
    ensures Classify("\\(x\\)", true) == InlineTok("x")
  {
    var s := "\\(x\\)";
    assert TrimJs(s) == s;
    assert s[..2] == "\\(" && s[3..] == "\\)";
    assert !BlockShaped(s) && ParenShaped(s);
    assert JsSlice(s, 2, 2) == "x";
    assert TrimJs("x") == "x";
  }

  lemma ParenOneBlock()
    ensures !Contains("\\(x\\)", "\n\n")
  {
    var s := "\\(x\\)";
    assert |s| == 5 && s[0] == '\\' && s[1] == '(' && s[2] == 'x' && s[3] == '\\' && s[4] == ')';
    NoNewlineNoBlankLine(s);
  }

  /** With the `\\(…\\)` branch on, `\\(x\\)` is inline math. */
  lemma ParenInline()
    ensures Render("\\(x\\)", true) == [Para([InlineMath("x")])]
  {
    var s := "\\(x\\)";
    ParenTokens();
    ParenClassify();
    SingleTokenBlock(s, true, InlineTok("x"));
    ParenOneBlock();
    SingleBlockRender(s, true);
  }
}
