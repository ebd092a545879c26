/** The lemma detail view: the proof renderer, which adds ATX-style `#`
    headings in front of the shared math renderer, the statement and comment
    renderers, which are the shared renderer with the `\(…\)` branch on, and
    this view's own copy of the status and importance badges. */
module LemmaDetail {
  import opened Strings
  import opened MathTokens
  import opened ContentNodes
  import opened LemmaList

  /** The end of the run of `#` that starts at `i`. */
  function HashRunEnd(t: string, i: nat): (r: nat)
    requires i <= |t|
    decreases |t| - i
    ensures i <= r <= |t|
  {
    if i < |t| && t[i] == '#' then HashRunEnd(t, i + 1) else i
  }

  lemma {:induction false} HashRunEndSpec(t: string, i: nat)
    requires i <= |t|
    decreases |t| - i
    ensures var r := HashRunEnd(t, i);
      (forall k :: i <= k < r ==> t[k] == '#') && (r < |t| ==> t[r] != '#')
  {
    if i < |t| && t[i] == '#' {
      HashRunEndSpec(t, i + 1);
    }
  }

  /** How many `#` the text starts with. */
  function LeadingHashes(t: string): nat
  {
    HashRunEnd(t, 0)
  }

  /** `/^#{1,6}\s/.test(t)`: the backtracking regex succeeds only with all the
      leading `#` taken, since a `#` is not white space. */
  predicate IsHeading(t: string)
  {
    var n := LeadingHashes(t);
    1 <= n <= 6 && n < |t| && IsJsSpace(t[n])
  }

  /** The regex read literally: some count from 1 to 6 of `#` followed by a
      white-space character. */
  predicate HeadingPrefixAt(t: string, k: nat)
  {
    1 <= k <= 6 && k < |t| && (forall j :: 0 <= j < k ==> t[j] == '#') && IsJsSpace(t[k])
  }

  /** The count-based test is the regex. */
  lemma IsHeadingRegex(t: string)
    ensures IsHeading(t) <==> exists k: nat :: HeadingPrefixAt(t, k)
  {
    HashRunEndSpec(t, 0);
    var n := LeadingHashes(t);
    if IsHeading(t) {
      assert HeadingPrefixAt(t, n);
    }
    if k: nat :| HeadingPrefixAt(t, k) {
      assert k == n;
    }
  }

  /** Seven or more `#` never make a heading. */
  lemma SevenHashesNoHeading(t: string)
    requires StartsWith(t, "#######")
    ensures !IsHeading(t)
  {
    HashRunEndSpec(t, 0);
    assert forall j :: 0 <= j < 7 ==> t[j] == "#######"[j];
  }

  /** The first index at or after `i` holding a line terminator, or the end. */
  function LineEnd(t: string, i: nat): (r: nat)
    requires i <= |t|
    decreases |t| - i
    ensures i <= r <= |t|
  {
    if i < |t| && !IsLineTerminator(t[i]) then LineEnd(t, i + 1) else i
  }

  lemma {:induction false} LineEndSpec(t: string, i: nat)
    requires i <= |t|
    decreases |t| - i
    ensures var r := LineEnd(t, i);
      (forall k :: i <= k < r ==> !IsLineTerminator(t[k])) && (r < |t| ==> IsLineTerminator(t[r]))
  {
    if i < |t| && !IsLineTerminator(t[i]) {
      LineEndSpec(t, i + 1);
    }
  }

  /** Where the second group of `/^(#{1,6})\s*(.*)/` starts: after the `#` and
      all the white space that follows them, newlines included. */
  function HeadingTextStart(t: string): nat
    requires IsHeading(t)
  {
    SkipSpace(t, Js, LeadingHashes(t))
  }

  /** The second group itself: `.*` stops at the first line terminator. */
  function HeadingText(t: string): string
    requires IsHeading(t)
  {
    var a := HeadingTextStart(t);
    t[a..LineEnd(t, a)]
  }

  /** On a trimmed block the heading text is non-empty, starts with a
      character other than white space, holds no line terminator, and is the
      whole rest of its line: what follows it is empty or starts a new line.
      Between the `#` and the text there is only white space. */
  lemma HeadingTextSpec(t: string)
    requires IsHeading(t) && !IsJsSpace(t[|t| - 1])
    ensures var n, a, h := LeadingHashes(t), HeadingTextStart(t), HeadingText(t);
      && n < a <= |t|
      && (forall k :: n <= k < a ==> IsJsSpace(t[k]))
      && h != [] && !IsJsSpace(h[0])
      && (forall k :: 0 <= k < |h| ==> !IsLineTerminator(h[k]))
      && StartsWith(t[a..], h)
      && (a + |h| < |t| ==> IsLineTerminator(t[a + |h|]))
  {
    var n := LeadingHashes(t);
    SkipSpaceSpec(t, Js, n);
    var a := HeadingTextStart(t);
    assert a != n;
    LineEndSpec(t, a);
    var h := HeadingText(t);
    assert h[0] == t[a];
    assert forall k :: 0 <= k < |h| ==> h[k] == t[a + k];
    assert t[a..][..|h|] == h;
  }

  /** The HTML heading level: h2 for `#`, h3 for `##`, h4 for anything deeper. */
  function HeadingTag(level: nat): (tag: nat)
    ensures 2 <= tag <= 4
  {
    if level == 1 then 2 else if level == 2 then 3 else 4
  }

  /** Every heading is rendered one level below its `#` count, capped at h4. */
  lemma HeadingTagShift(level: nat)
    requires 1 <= level
    ensures HeadingTag(level) == if level + 1 < 4 then level + 1 else 4
  {
  }

  /** One block of a proof: a heading when its trimmed text looks like one,
      otherwise the shared renderer on the untrimmed block. */
  function ProofBlock(para: string): (r: seq<Node>)
  {
    var t := TrimJs(para);
    if IsHeading(t) then [Heading(LeadingHashes(t), HeadingText(t))]
    else RenderBlock(para, true)
  }

  /** A block yields a heading exactly when its trimmed text is one; the
      heading is then the block's only node, its level is 1 to 6 and counts
      the `#`; any other block renders as a statement block does. */
  lemma ProofBlockHeading(para: string)
    ensures var r, t := ProofBlock(para), TrimJs(para);
      && ((exists i :: 0 <= i < |r| && r[i].Heading?) <==> IsHeading(t))
      && (IsHeading(t) ==> |r| == 1 && 1 <= r[0].level <= 6 && r[0].level == LeadingHashes(t)
                           && r[0].text == HeadingText(t))
      && (!IsHeading(t) ==> r == RenderBlock(para, true))
  {
    var r, t := ProofBlock(para), TrimJs(para);
    if IsHeading(t) {
      assert r[0].Heading?;
    } else {
      assert WellGrouped(r);
    }
  }

  /** A heading swallows the rest of its block: the line after it is lost. */
  lemma HeadingDropsLaterLines()
    ensures ProofBlock("### x\ny") == [Heading(3, "x")]
  {
    var t := "### x\ny";
    TrimUnchanged(t, Js);
    assert HashRunEnd(t, 3) == 3;
    assert LeadingHashes(t) == 3;
    assert SkipSpace(t, Js, 4) == 4;
    assert HeadingTextStart(t) == 4;
    assert LineEnd(t, 5) == 5;
    assert HeadingText(t) == t[4..5] == "x";
  }

  /** The proof's per-block loop as the component runs it: the heading test,
      then the token loop with its buffer. */
  method RenderProofBlock(para: string) returns (elems: seq<Node>)
    ensures elems == ProofBlock(para)
  {
    var trimmed := TrimJs(para);
    if IsHeading(trimmed) {
      elems := [Heading(LeadingHashes(trimmed), HeadingText(trimmed))];
    } else {
      elems := RenderParagraph(para, true);
    }
  }

  function ProofBlocks(blocks: seq<string>): seq<Node>
  {
    if blocks == [] then [] else ProofBlock(blocks[0]) + ProofBlocks(blocks[1..])
  }

  /** `renderProofContent`. */
  function RenderProof(proof: string): seq<Node>
  {
    ProofBlocks(Blocks(proof))
  }

  /** The statement renderer: the shared renderer with `\(…\)` enabled. */
  function RenderStatement(statement: string): (r: seq<Node>)
    ensures ParagraphsOnly(r)
  {
    Render(statement, true)
  }

  /** `renderCommentContent`: the same algorithm as the statement renderer. */
  function RenderComment(comment: string): (r: seq<Node>)
    ensures ParagraphsOnly(r)
  {
    Render(comment, true)
  }

  lemma {:induction false} ProofBlocksWithoutHeadings(blocks: seq<string>)
    requires forall i :: 0 <= i < |blocks| ==> !IsHeading(TrimJs(blocks[i]))
    ensures ProofBlocks(blocks) == RenderBlocks(blocks, true)
  {
    if blocks != [] {
      ProofBlocksWithoutHeadings(blocks[1..]);
    }
  }

  /** A proof none of whose blocks is a heading renders exactly as a
      statement or a comment with the same text would. */
  lemma ProofWithoutHeadings(proof: string)
    requires forall b :: b in Blocks(proof) ==> !IsHeading(TrimJs(b))
    ensures RenderProof(proof) == RenderStatement(proof)
    ensures RenderProof(proof) == RenderComment(proof)
  {
    var bs := Blocks(proof);
    assert forall i :: 0 <= i < |bs| ==> bs[i] in bs;
    ProofBlocksWithoutHeadings(bs);
  }

  lemma {:induction false} ProofBlocksHeadings(blocks: seq<string>, k: nat)
    requires k < |blocks| && IsHeading(TrimJs(blocks[k]))
    ensures var t := TrimJs(blocks[k]); Heading(LeadingHashes(t), HeadingText(t)) in ProofBlocks(blocks)
  {
    if k > 0 {
      ProofBlocksHeadings(blocks[1..], k - 1);
    }
  }

  /** Every heading block of the proof shows up as a heading node. */
  lemma ProofHeadings(proof: string, b: string)
    requires b in Blocks(proof) && IsHeading(TrimJs(b))
    ensures var t := TrimJs(b); Heading(LeadingHashes(t), HeadingText(t)) in RenderProof(proof)
  {
    var bs := Blocks(proof);
    var k :| 0 <= k < |bs| && bs[k] == b;
    ProofBlocksHeadings(bs, k);
  }

  /** The status icon's colour in this view. */
  function StatusIconColor(status: string): (c: string)
    ensures !KnownStatus(status) ==> c == "text-gray-400"
  {
    if status == "proved" then "text-green-600"
    else if status == "in_progress" then "text-yellow-500"
    else if status == "invalid" then "text-red-500"
    else "text-gray-400"
  }

  /** This view's status label: the same chain as the list's. */
  function DetailStatusLabel(status: string): (l: string)
    ensures l == StatusLabel(status)
  {
    if status == "proved" then "已证明"
    else if status == "in_progress" then "证明中"
    else if status == "invalid" then "无效"
    else "待处理"
  }

  /** This view's importance text, computed from the lemma record. */
  function DetailImportanceText(l: Lemma): (t: string)
    ensures t == ImportanceText(l.reviews, l.title)
  {
    if IsTheorem(l.title) || l.reviews >= 24 then "关键"
    else if l.reviews >= 12 then "重要"
    else "次要"
  }

  /** This view's importance colours: the same tiers as the list's badge,
      in different shades. */
  function DetailImportanceColor(l: Lemma): (c: string)
  {
    if IsTheorem(l.title) || l.reviews >= 24 then "text-red-600 bg-red-100"
    else if l.reviews >= 12 then "text-yellow-600 bg-yellow-100"
    else "text-gray-600 bg-gray-100"
  }

  /** Both views put a lemma in the same importance tier: the detail colour
      changes exactly when the list colour does. */
  lemma DetailImportanceAgrees(l: Lemma, m: Lemma)
    ensures DetailImportanceColor(l) == DetailImportanceColor(m)
            <==> ImportanceColor(l.reviews, l.title) == ImportanceColor(m.reviews, m.title)
    ensures DetailImportanceColor(l) == DetailImportanceColor(m)
            <==> DetailImportanceText(l) == DetailImportanceText(m)
  {
  }
}
