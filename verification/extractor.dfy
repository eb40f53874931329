/**
 The extraction routine the popup injects into a results page
 (`executeExtraction` in `popup.js`): text cleaning, the question-link test,
 the link filter, one row per question card, and the per-page dedup.

 A page is given as its anchors in document order. The DOM lookups around an
 anchor (the enclosing card, the position and category links inside it and
 the date text) are given as optional strings on the anchor, because they
 depend on the markup rather than on the routine.
 */
module Extractor {
  import opened Options
  import opened Text
  import opened Rows
  import opened Sequences

  /** The path every question link starts with. */
  const QuestionPrefix: string := "/interview-questions/"

  // ---------------------------------------------------------------------
  // clean

  /** `clean`: a missing text becomes the empty string, then every run of
      white space becomes one space and the ends are trimmed. The result is
      the words of the input joined by single spaces. */
  function Clean(text: Option<string>): (r: string)
    ensures Normalized(r)
    ensures r == Join(Words(text.GetOr("")), ' ')
    ensures text.None? ==> r == ""
  {
    var s := text.GetOr("");
    ReplaceThenTrim(s);
    WordsAreWords(s);
    JoinNormalized(Words(s));
    JoinEmpty(Words(""), ' ');
    Trim(ReplaceSpaceRuns(s, ' '))
  }

  /** Cleaning twice is cleaning once. */
  lemma CleanIdempotent(text: Option<string>)
    ensures Clean(Some(Clean(text))) == Clean(text)
  {
    var ws := Words(text.GetOr(""));
    WordsAreWords(text.GetOr(""));
    WordsOfJoin(ws, ' ');
  }

  /** A text survives cleaning unchanged exactly when it is already
      normalized. */
  lemma CleanFixedPoints(s: string)
    ensures Clean(Some(s)) == s <==> Normalized(s)
  {
    if Normalized(s) {
      ReplaceKeepsSingleSpaces(s);
      TrimStartKeeps(s);
      TrimEndKeeps(s);
      ReplaceThenTrim(s);
    }
  }

  // ---------------------------------------------------------------------
  // Text length as JavaScript counts it.

  /** `String.prototype.length`: the number of UTF-16 code units, so a
      character outside the Basic Multilingual Plane counts twice. */
  function Utf16Length(s: string): (n: nat)
    ensures |s| <= n <= 2 * |s|
  {
    if |s| == 0 then 0
    else (if s[0] as int > 0xFFFF then 2 else 1) + Utf16Length(s[1..])
  }

  /** Within the Basic Multilingual Plane the JavaScript length is the
      number of characters. */
  lemma {:induction false} Utf16LengthBmp(s: string)
    requires forall i :: 0 <= i < |s| ==> s[i] as int <= 0xFFFF
    ensures Utf16Length(s) == |s|
  {
    if |s| > 0 {
      assert forall i :: 0 <= i < |s[1..]| ==> s[1..][i] == s[i + 1];
      Utf16LengthBmp(s[1..]);
    }
  }

  // ---------------------------------------------------------------------
  // isQuestionLink

  /** `s` begins with `prefix`. */
  predicate StartsWith(s: string, prefix: string) {
    |prefix| <= |s| && s[..|prefix|] == prefix
  }

  /** The `[^/]+$` part of the pattern, matched character by character: a
      non-empty rest of the string with no slash in it. */
  function Segment(s: string): (b: bool)
    ensures b <==> |s| > 0 && '/' !in s
    decreases |s|
  {
    if |s| == 0 then false
    else if s[0] == '/' then false
    else |s| == 1 || Segment(s[1..])
  }

  /** `isQuestionLink`: an empty `href` is rejected; otherwise it must match
      `^/interview-questions/[^/]+$`. The accepted paths are exactly the
      question prefix followed by one non-empty slash-free segment. */
  function IsQuestionLink(href: string): (b: bool)
    ensures b <==> StartsWith(href, QuestionPrefix) && |href| > |QuestionPrefix|
                    && forall i :: |QuestionPrefix| <= i < |href| ==> href[i] != '/'
  {
    if |href| == 0 then false
    else StartsWith(href, QuestionPrefix) && Segment(href[|QuestionPrefix|..])
  }

  /** A path under the question prefix is a question link exactly when the
      rest is one non-empty segment. */
  lemma QuestionLinkUnderPrefix(segment: string)
    ensures IsQuestionLink(QuestionPrefix + segment) <==> |segment| > 0 && '/' !in segment
  {
    var href := QuestionPrefix + segment;
    assert href[..|QuestionPrefix|] == QuestionPrefix;
    assert href[|QuestionPrefix|..] == segment;
  }

  /** The position and category listing paths are not question links. */
  lemma ListingLinksRejected()
    ensures !IsQuestionLink(QuestionPrefix + "position/backend")
    ensures !IsQuestionLink(QuestionPrefix + "category/backend")
  {
    DeeperPathRejected("position", "backend");
    DeeperPathRejected("category", "backend");
  }

  /** A path with two segments under the question prefix is not a question
      link. */
  lemma DeeperPathRejected(first: string, second: string)
    ensures !IsQuestionLink(QuestionPrefix + (first + "/" + second))
  {
    QuestionLinkUnderPrefix(first + "/" + second);
    assert (first + "/" + second)[|first|] == '/';
  }

  /** The prefix alone and deeper paths are not question links; a path of
      one segment is. */
  lemma SegmentLinks()
    ensures !IsQuestionLink(QuestionPrefix)
    ensures !IsQuestionLink(QuestionPrefix + "design/")
    ensures IsQuestionLink(QuestionPrefix + "design")
  {
    QuestionLinkUnderPrefix("");
    assert QuestionPrefix + "" == QuestionPrefix;
    QuestionLinkUnderPrefix("design/");
    assert "design/"[6] == '/';
    QuestionLinkUnderPrefix("design");
  }

  /** Absolute URLs and the empty `href` are not question links. */
  lemma OtherLinksRejected()
    ensures !IsQuestionLink("https://site.com/interview-questions/design")
    ensures !IsQuestionLink("")
  {
    var u := "https://site.com/interview-questions/design";
    assert u[0] == 'h';
    assert u[..|QuestionPrefix|][0] == u[0];
  }

  // ---------------------------------------------------------------------
  // The page.

  /** What the lookups around a question link found in its card: the text of
      the position link, of the category link, and the raw date text. Each is
      absent when the card holds no such element. */
  datatype Card = Card(position: Option<string>, category: Option<string>, date: Option<string>)

  /** An anchor of the page: its `href` attribute (absent when the element
      has none), its text content and the card enclosing it (absent when no
      enclosing element was found). */
  datatype Anchor = Anchor(href: Option<string>, text: string, card: Option<Card>)

  /** A results page as its anchors in document order. */
  datatype Page = Page(anchors: seq<Anchor>)

  /** What the routine hands back: the number of rows and the rows. */
  datatype PageResult = PageResult(count: int, rows: seq<Row>)

  /** The selector `a[href^='/interview-questions/']`: the anchor has an
      `href` attribute whose value is the question prefix followed by
      anything. */
  function Selected(a: Anchor): (b: bool)
    ensures b <==> exists rest :: a.href == Some(QuestionPrefix + rest)
  {
    if a.href.Some? && StartsWith(a.href.value, QuestionPrefix) then
      assert a.href.value == QuestionPrefix + a.href.value[|QuestionPrefix|..];
      true
    else
      false
  }

  /** The link filter: a selected anchor whose `href` (or `""` when absent)
      is a question link and whose cleaned text is longer than 8. The
      selector and the `""` fallback decide nothing the link test does not:
      an anchor passes exactly when it has an `href` that is a question link
      and a long enough text, and a passing anchor's cleaned text is never
      empty. */
  function IsQuestionAnchor(a: Anchor): (b: bool)
    ensures b <==> a.href.Some? && IsQuestionLink(a.href.value) && Utf16Length(Clean(Some(a.text))) > 8
    ensures b ==> |Clean(Some(a.text))| > 4
  {
    && Selected(a)
    && IsQuestionLink(a.href.GetOr(""))
    && Utf16Length(Clean(Some(a.text))) > 8
  }

  /** The question links of a page, in document order. */
  function QuestionLinks(anchors: seq<Anchor>): (links: seq<Anchor>)
    ensures forall i :: 0 <= i < |links| ==> IsQuestionAnchor(links[i])
    ensures forall a :: a in anchors && IsQuestionAnchor(a) ==> a in links
    ensures Subsequence(links, anchors)
    decreases |anchors|
  {
    if |anchors| == 0 then []
    else
      var rest := QuestionLinks(anchors[1..]);
      assert forall a :: a in anchors ==> a == anchors[0] || a in anchors[1..];
      if IsQuestionAnchor(anchors[0]) then
        assert ([anchors[0]] + rest)[1..] == rest;
        [anchors[0]] + rest
      else rest
  }

  /** The filter keeps a single anchor exactly when it passes. */
  lemma QuestionLinksOfOne(a: Anchor)
    ensures QuestionLinks([a]) == if IsQuestionAnchor(a) then [a] else []
  {
    assert [a][1..] == [];
  }

  /** The filter works anchor by anchor: the links of two stretches of the
      page are the links of the first followed by those of the second, so
      order and repetitions are kept. */
  lemma {:induction false} QuestionLinksAppend(a: seq<Anchor>, b: seq<Anchor>)
    ensures QuestionLinks(a + b) == QuestionLinks(a) + QuestionLinks(b)
    decreases |a|
  {
    if |a| > 0 {
      assert (a + b)[0] == a[0];
      assert (a + b)[1..] == a[1..] + b;
      QuestionLinksAppend(a[1..], b);
    } else {
      assert a + b == b;
    }
  }

  /** The row for one question link: none when the link has no card or its
      cleaned text is empty; otherwise the cleaned question text and the
      cleaned position, category and date, a missing one becoming `""`. */
  function CardRow(a: Anchor): (row: Option<Row>)
    ensures row.Some? <==> a.card.Some? && Clean(Some(a.text)) != ""
    ensures row.Some? ==> row.value.question == Clean(Some(a.text))
    ensures row.Some? ==> && row.value.position == Clean(a.card.value.position)
                          && row.value.category == Clean(a.card.value.category)
                          && row.value.date == Clean(a.card.value.date)
  {
    var question := Clean(Some(a.text));
    match a.card
    case None => None
    case Some(card) =>
      if question == "" then None
      else Some(Row(Clean(card.position), Clean(card.category), question, Clean(card.date)))
  }

  /** Every field of the row is in cleaned form. */
  predicate RowNormalized(row: Row) {
    Normalized(row.position) && Normalized(row.category) && Normalized(row.question) && Normalized(row.date)
  }

  /** The `forEach` over the question links: one row per link that has a
      card and a non-empty text, in link order. */
  function CardRows(links: seq<Anchor>): (rows: seq<Row>)
    ensures |rows| <= |links|
    ensures forall r :: r in rows ==> exists a :: a in links && CardRow(a) == Some(r)
    ensures forall a :: a in links && CardRow(a).Some? ==> CardRow(a).value in rows
    decreases |links|
  {
    if |links| == 0 then []
    else
      var rest := CardRows(links[1..]);
      assert forall a :: a in links ==> a == links[0] || a in links[1..];
      match CardRow(links[0])
      case None => rest
      case Some(row) => [row] + rest
  }

  /** A single link yields its row, if it has one. */
  lemma CardRowsOfOne(a: Anchor)
    ensures CardRows([a]) == if CardRow(a).Some? then [CardRow(a).value] else []
  {
    assert [a][1..] == [];
  }

  /** Rows are built link by link: the rows of two runs of links are the
      rows of the first followed by those of the second, one row per
      link that yields one, in link order. */
  lemma {:induction false} CardRowsAppend(a: seq<Anchor>, b: seq<Anchor>)
    ensures CardRows(a + b) == CardRows(a) + CardRows(b)
    decreases |a|
  {
    if |a| > 0 {
      assert (a + b)[0] == a[0];
      assert (a + b)[1..] == a[1..] + b;
      CardRowsAppend(a[1..], b);
    } else {
      assert a + b == b;
    }
  }

  /** The injected routine: filter the question links, build their rows,
      drop repeated keys keeping the first, and report the count. */
  function ExtractPage(page: Page): (result: PageResult)
    ensures result.count == |result.rows|
    ensures KeysUnique(result.rows)
  {
    var unique := Dedup(CardRows(QuestionLinks(page.anchors)));
    PageResult(|unique|, unique)
  }

  /** Every row of a page comes from one of its question links, so it is in
      cleaned form and its question is longer than 8. */
  lemma ExtractPageProvenance(page: Page, r: Row)
    requires r in ExtractPage(page).rows
    ensures exists a :: a in page.anchors && IsQuestionAnchor(a) && CardRow(a) == Some(r)
    ensures RowNormalized(r) && Utf16Length(r.question) > 8
  {
    var links := QuestionLinks(page.anchors);
    var raw := CardRows(links);
    SubsequenceIn(Dedup(raw), raw);
    assert r in raw;
    var a :| a in links && CardRow(a) == Some(r);
    LinkIsQuestionAnchor(links, a);
    SubsequenceIn(links, page.anchors);
  }

  lemma LinkIsQuestionAnchor(links: seq<Anchor>, a: Anchor)
    requires forall i :: 0 <= i < |links| ==> IsQuestionAnchor(links[i])
    requires a in links
    ensures IsQuestionAnchor(a)
  {
    var i :| 0 <= i < |links| && links[i] == a;
  }

  /** Every question link of a page that sits in a card contributes its key
      to the page's rows. */
  lemma ExtractPageComplete(page: Page, a: Anchor)
    requires a in page.anchors && IsQuestionAnchor(a) && a.card.Some?
    ensures CardRow(a).Some? && Key(CardRow(a).value) in KeySet(ExtractPage(page).rows)
  {
    var links := QuestionLinks(page.anchors);
    var raw := CardRows(links);
    assert a in links;
    assert CardRow(a).value in raw;
    assert KeySet(Dedup(raw)) == KeySet(raw);
  }

  const ExampleText: string := "Design an LRU cache"
  const ExamplePosition := Anchor(Some(QuestionPrefix + "position/backend"), "Backend", None)
  const ExampleCategory := Anchor(Some(QuestionPrefix + "category/backend"), "Backend", None)
  const ExampleQuestion :=
    Anchor(Some(QuestionPrefix + "design"), "  " + ExampleText,
           Some(Card(Some("Backend"), Some("Caching"), Some("Jan 5, 2024"))))

  lemma ExampleQuestionText()
    ensures Clean(Some(ExampleQuestion.text)) == ExampleText
  {
    assert ExampleQuestion.text == [' '] + ([' '] + ExampleText);
    TrimLeadSpace([' '] + ExampleText);
    TrimLeadSpace(ExampleText);
    TrimStartKeeps(ExampleText);
    CleanSkipsLeadingSpace(ExampleQuestion.text);
    ExampleTextNormalized();
    CleanFixedPoints(ExampleText);
  }

  lemma ExampleTextNormalized()
    ensures Normalized(ExampleText)
  {
  }

  lemma ExampleCardFields()
    ensures Clean(Some("Backend")) == "Backend"
    ensures Clean(Some("Caching")) == "Caching"
    ensures Clean(Some("Jan 5, 2024")) == "Jan 5, 2024"
  {
    ExampleFieldsNormalized();
    CleanFixedPoints("Backend");
    CleanFixedPoints("Caching");
    CleanFixedPoints("Jan 5, 2024");
  }

  lemma ExampleFieldsNormalized()
    ensures Normalized("Backend") && Normalized("Caching") && Normalized("Jan 5, 2024")
  {
    WordNormalized("Backend");
    WordNormalized("Caching");
    DateNormalized();
  }

  lemma WordNormalized(w: string)
    requires IsWord(w)
    ensures Normalized(w)
  {
  }

  lemma DateNormalized()
    ensures Normalized("Jan 5, 2024")
  {
  }

  lemma ExampleAnchors()
    ensures !IsQuestionAnchor(ExamplePosition) && !IsQuestionAnchor(ExampleCategory)
    ensures IsQuestionAnchor(ExampleQuestion)
  {
    ListingLinksRejected();
    SegmentLinks();
    ExampleQuestionText();
    assert |ExampleText| == 19;
  }

  lemma ExampleLinks()
    ensures QuestionLinks([ExamplePosition, ExampleQuestion, ExampleCategory]) == [ExampleQuestion]
  {
    ExampleAnchors();
    var anchors := [ExamplePosition, ExampleQuestion, ExampleCategory];
    assert anchors[1..][1..] == [ExampleCategory];
    assert QuestionLinks([ExampleCategory]) == [] by {
      assert [ExampleCategory][1..] == [];
    }
    assert anchors[1..] == [ExampleQuestion, ExampleCategory];
    assert QuestionLinks(anchors[1..]) == [ExampleQuestion];
  }

  lemma ExampleCardRow()
    ensures CardRow(ExampleQuestion) == Some(Row("Backend", "Caching", ExampleText, "Jan 5, 2024"))
  {
    ExampleCardFields();
    ExampleQuestionText();
  }

  lemma ExampleRow()
    ensures CardRows([ExampleQuestion]) == [Row("Backend", "Caching", ExampleText, "Jan 5, 2024")]
  {
    ExampleCardRow();
    CardRowsOfOne(ExampleQuestion);
  }

  /** A page holding one question card between a position listing link and
      a category listing link yields exactly that question, with the card's
      position and category and not the listing links' own text. */
  lemma OneQuestionPage()
    ensures ExtractPage(Page([ExamplePosition, ExampleQuestion, ExampleCategory])).rows
      == [Row("Backend", "Caching", ExampleText, "Jan 5, 2024")]
  {
    ExampleLinks();
    ExampleRow();
    var row := Row("Backend", "Caching", ExampleText, "Jan 5, 2024");
    assert [row][1..] == [];
  }

  /** Leading white space does not reach the cleaned text. */
  lemma CleanSkipsLeadingSpace(s: string)
    ensures Clean(Some(s)) == Clean(Some(TrimStart(s)))
  {
    WordsSkipSpace(s);
  }
}
