/**
 * `extract_pdf_text`: the text of every page, each followed by a newline, in
 * page order. The PDF library is abstracted: a document either fails to
 * open, or is a sequence of pages each of whose text either comes back or
 * raises. An exception ends the loop but keeps what was already appended.
 */
module Extraction {
  import opened Wrappers

  /** The text of one page, or `None` when reading it raised. */
  type Page = Option<string>

  /** The pages of a document, or `None` when opening it raised. */
  type Document = Option<seq<Page>>

  predicate AllReadable(pages: seq<Page>) {
    forall k :: 0 <= k < |pages| ==> pages[k].Some?
  }

  /** The text accumulated over `pages` until the first page that raises. */
  function PagesText(pages: seq<Page>): (text: string)
    ensures text == [] <==> (|pages| == 0 || pages[0].None?)
  {
    if |pages| == 0 then []
    else
      match pages[0]
      case None => []
      case Some(t) => t + "\n" + PagesText(pages[1..])
  }

  /**
   * `extract_pdf_text`: empty when the document cannot be opened; otherwise
   * empty exactly when it has no page or its first page cannot be read.
   */
  function ExtractPdfText(doc: Document): (text: string)
    ensures doc.None? ==> text == []
    ensures text == [] <==> (doc.None? || |doc.value| == 0 || doc.value[0].None?)
  {
    match doc
    case None => []
    case Some(pages) => PagesText(pages)
  }

  /** One readable page contributes its text and a newline. */
  lemma OnePage(t: string)
    ensures PagesText([Some(t)]) == t + "\n"
  {
  }

  /** Readable pages followed by more pages: the texts are concatenated in page order. */
  lemma {:induction false} PagesConcat(a: seq<Page>, b: seq<Page>)
    requires AllReadable(a)
    ensures PagesText(a + b) == PagesText(a) + PagesText(b)
    decreases |a|
  {
    if |a| == 0 {
      assert a + b == b;
    } else {
      PagesConcat(a[1..], b);
      assert (a + b)[0] == a[0];
      assert (a + b)[1..] == a[1..] + b;
      var t := a[0].value;
      assert PagesText(a + b) == t + "\n" + (PagesText(a[1..]) + PagesText(b));
    }
  }

  /** A page that raises drops itself and every later page, and keeps every earlier one. */
  lemma FailingPageTruncates(a: seq<Page>, b: seq<Page>)
    requires AllReadable(a)
    ensures PagesText(a + [None] + b) == PagesText(a)
  {
    PagesConcat(a, [None] + b);
    assert a + [None] + b == a + ([None] + b);
  }

  /** The length of the text of readable pages: every page's text plus one newline each. */
  function TotalLength(pages: seq<Page>): nat
    requires AllReadable(pages)
  {
    if |pages| == 0 then 0 else |pages[0].value| + 1 + TotalLength(pages[1..])
  }

  /** Every readable page's text reaches the result, with exactly one newline per page. */
  lemma {:induction false} PagesLength(pages: seq<Page>)
    requires AllReadable(pages)
    ensures |PagesText(pages)| == TotalLength(pages)
    decreases |pages|
  {
    if |pages| > 0 {
      PagesLength(pages[1..]);
    }
  }
}
