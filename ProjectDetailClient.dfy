/** The project detail client: the same description renderer as the project
    page, applied to the problem text fetched from the server, and the same
    lemma filter. */
module ProjectDetailClient {
  import opened Strings
  import opened ContentNodes
  import ProjectPage
  import LemmaDetail
  import RenderExamples

  /** `renderDescription(text)`. */
  function RenderDescription(text: string): (r: seq<Node>)
    ensures ParagraphsOnly(r)
  {
    Render(text, false)
  }

  /** The project detail page carries its own copy of the description
      renderer, identical to the project page's; the model therefore
      defines `RenderDescription` by the project page's `Render`, and the
      agreement holds by that definition. */
  lemma SameAsProjectPage(text: string)
    ensures RenderDescription(text) == ProjectPage.RenderDescription(text)
  {
  }

  /** On a text without `\(`, the missing branch never fires, and the
      description renders exactly as a lemma statement or comment would. */
  lemma SameAsStatementWithoutParens(text: string)
    requires !Contains(text, "\\(")
    ensures RenderDescription(text) == LemmaDetail.RenderStatement(text)
    ensures RenderDescription(text) == LemmaDetail.RenderComment(text)
  {
    RenderWithoutParens(text);
  }

  /** With `\(x\)` in the text the copies part ways: the statement renderer
      shows inline math where the description shows the text. */
  lemma DiffersWithParens()
    ensures RenderDescription("\\(x\\)") == [Para([Plain("\\(x\\)")])]
    ensures LemmaDetail.RenderStatement("\\(x\\)") == [Para([InlineMath("x")])]
  {
    ProjectPage.ParenMathStaysLiteral();
    RenderExamples.ParenInline();
  }
}
