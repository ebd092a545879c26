/** The project page: its description renderer, which is the shared math
    renderer without the `\(…\)` branch and without headings, and the search
    box's lemma filter. */
module ProjectPage {
  import opened Strings
  import opened MathTokens
  import opened ContentNodes

  /** A lemma as the project pages hold it. */
  datatype ProjectLemma = ProjectLemma(
    id: string,
    title: string,
    statement: string,
    proof: string,
    status: string,
    difficulty: string,
    createdBy: string,
    createdAt: string,
    lastUpdated: string)

  /** `renderDescription`. */
  function RenderDescription(description: string): (r: seq<Node>)
    ensures ParagraphsOnly(r)
  {
    Render(description, false)
  }

  /** A description block is processed by the same token loop as every copy. */
  method RenderDescriptionBlock(para: string) returns (elems: seq<Node>)
    ensures elems == RenderBlock(para, false)
    ensures WellGrouped(elems)
  {
    elems := RenderParagraph(para, false);
  }

  /** Markdown headings are not recognised: `### x` stays literal text. */
  lemma HeadingStaysLiteral()
    ensures RenderDescription("### x") == [Para([Plain("### x")])]
  {
    var s := "### x";
    NoNewlineNoBlankLine(s);
    SingleBlock(s);
    PlainBlock(s, false);
    assert RenderBlocks([s], false) == RenderBlock(s, false) + RenderBlocks([], false);
  }

  /** Without the `\(…\)` branch, `\(x\)` is plain text. */
  lemma ParenMathStaysLiteral()
    ensures RenderDescription("\\(x\\)") == [Para([Plain("\\(x\\)")])]
  {
    var s := "\\(x\\)";
    NoNewlineNoBlankLine(s);
    SingleBlock(s);
    PlainBlock(s, false);
    assert RenderBlocks([s], false) == RenderBlock(s, false) + RenderBlocks([], false);
  }

  /** The search matches a case-sensitive substring of title or statement. */
  predicate MatchesFilter(l: ProjectLemma, filter: string)
  {
    Contains(l.title, filter) || Contains(l.statement, filter)
  }

  /** `lemmas.filter(…)`: the matching lemmas, in their original order. */
  function FilteredLemmas(lemmas: seq<ProjectLemma>, filter: string): (r: seq<ProjectLemma>)
    ensures |r| <= |lemmas|
    ensures forall l :: l in r <==> l in lemmas && MatchesFilter(l, filter)
  {
    if lemmas == [] then []
    else if MatchesFilter(lemmas[0], filter) then [lemmas[0]] + FilteredLemmas(lemmas[1..], filter)
    else FilteredLemmas(lemmas[1..], filter)
  }

  /** Filtering works piecewise, so relative order is kept. */
  lemma {:induction false} FilterAppend(a: seq<ProjectLemma>, b: seq<ProjectLemma>, filter: string)
    ensures FilteredLemmas(a + b, filter) == FilteredLemmas(a, filter) + FilteredLemmas(b, filter)
  {
    if a != [] {
      assert (a + b)[0] == a[0] && (a + b)[1..] == a[1..] + b;
      FilterAppend(a[1..], b, filter);
    } else {
      assert a + b == b;
    }
  }

  /** When every lemma matches, nothing is dropped. */
  lemma {:induction false} FilterAllMatch(lemmas: seq<ProjectLemma>, filter: string)
    requires forall i :: 0 <= i < |lemmas| ==> MatchesFilter(lemmas[i], filter)
    ensures FilteredLemmas(lemmas, filter) == lemmas
  {
    if lemmas != [] {
      FilterAllMatch(lemmas[1..], filter);
    }
  }

  /** An empty search box keeps every lemma. */
  lemma EmptyFilterKeepsAll(lemmas: seq<ProjectLemma>)
    ensures FilteredLemmas(lemmas, "") == lemmas
  {
    forall i | 0 <= i < |lemmas|
      ensures MatchesFilter(lemmas[i], "")
    {
      assert OccursAt(lemmas[i].title, "", 0);
    }
    FilterAllMatch(lemmas, "");
  }

  /** Filtering twice with the same text is filtering once. */
  lemma {:induction false} FilterIdempotent(lemmas: seq<ProjectLemma>, filter: string)
    ensures FilteredLemmas(FilteredLemmas(lemmas, filter), filter) == FilteredLemmas(lemmas, filter)
  {
    var r := FilteredLemmas(lemmas, filter);
    assert forall i :: 0 <= i < |r| ==> r[i] in r;
    FilterAllMatch(r, filter);
  }

  /** The search is case-sensitive: `theorem` does not find `Theorem`. */
  lemma FilterCaseSensitive(l: ProjectLemma)
    requires l.title == "Theorem" && l.statement == ""
    ensures FilteredLemmas([l], "theorem") == []
  {
    assert !OccursAt(l.title, "theorem", 0) by {
      assert l.title[0] != "theorem"[0];
    }
    assert forall i: nat :: 0 < i ==> !OccursAt(l.title, "theorem", i);
    assert !MatchesFilter(l, "theorem");
  }
  /** `a` is `b` with some elements left out, order kept. */
  predicate IsSubsequence<T(==)>(a: seq<T>, b: seq<T>)
    decreases |b|
  {
    a == [] || (b != [] && ((a[0] == b[0] && IsSubsequence(a[1..], b[1..])) || IsSubsequence(a, b[1..])))
  }

  /** The filter keeps the lemmas in their original relative order. */
  lemma {:induction false} FilterIsSubsequence(lemmas: seq<ProjectLemma>, filter: string)
    ensures IsSubsequence(FilteredLemmas(lemmas, filter), lemmas)
  {
    if lemmas != [] {
      FilterIsSubsequence(lemmas[1..], filter);
      var rest := FilteredLemmas(lemmas[1..], filter);
      if MatchesFilter(lemmas[0], filter) {
        assert ([lemmas[0]] + rest)[1..] == rest;
      }
    }
  }
}
