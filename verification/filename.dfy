/**
 The name of the exported workbook (`toFilename` in `popup.js`): the
 company name trimmed, each run of white space replaced by `_`, `Company`
 when nothing is left, and a fixed suffix.
 */
module Filename {
  import opened Text

  const Suffix: string := "_Interview_Questions.xlsx"
  const Fallback: string := "Company"

  /** The part of the file name before the suffix: the company's words
      joined by `_`, or the fallback for a blank name. */
  function FilenameStem(company: string): (stem: string)
    ensures stem == (if Blank(company) then Fallback else Join(Words(company), '_'))
    ensures |stem| > 0 && NoSpace(stem)
  {
    var replaced := ReplaceSpaceRuns(Trim(company), '_');
    TrimThenReplace(company, '_');
    WordsAreWords(company);
    JoinEmpty(Words(company), '_');
    WordsEmptyIffBlank(company);
    JoinNoSpace(Words(company), '_');
    if replaced == "" then
      // Spelled out so that the fallback is seen to hold no white space.
      assert Fallback == ['C', 'o', 'm', 'p', 'a', 'n', 'y'];
      Fallback
    else replaced
  }

  /** `toFilename`. */
  function ToFilename(company: string): (name: string)
    ensures |name| > |Suffix| && name[|name| - |Suffix|..] == Suffix
    ensures name[..|name| - |Suffix|] == FilenameStem(company)
  {
    var stem := FilenameStem(company);
    assert (stem + Suffix)[..|stem|] == stem;
    stem + Suffix
  }

  /** Names that have the same words get the same file name: spacing,
      padding and the kind of white space do not matter. */
  lemma SameWordsSameFilename(a: string, b: string)
    requires Words(a) == Words(b)
    ensures ToFilename(a) == ToFilename(b)
  {
    WordsEmptyIffBlank(a);
    WordsEmptyIffBlank(b);
  }

  /** A blank name falls back to `Company`. */
  lemma BlankCompany(company: string)
    requires Blank(company)
    ensures ToFilename(company) == "Company_Interview_Questions.xlsx"
  {
    CompanyName();
  }

  lemma CompanyName()
    ensures Fallback + Suffix == "Company_Interview_Questions.xlsx"
  {
  }

  lemma TwoWords()
    ensures IsWord("Acme") && IsWord("Corp")
  {
  }

  lemma CorpWords()
    ensures Words("  Corp ") == ["Corp"]
  {
    assert "  Corp " == [' '] + ([' '] + ("Corp" + " "));
    TrimLeadSpace([' '] + ("Corp" + " "));
    TrimLeadSpace("Corp" + " ");
    TrimStartKeeps("Corp" + " ");
    WordsSkipSpace("  Corp ");
    TwoWords();
    WordsCons("Corp", " ");
    WordsEmptyIffBlank(" ");
  }

  lemma AcmeCorpWords()
    ensures Words("  Acme  Corp ") == ["Acme", "Corp"]
  {
    var s := "  Acme  Corp ";
    assert s == [' '] + ([' '] + ("Acme" + ("  Corp ")));
    TrimLeadSpace([' '] + ("Acme" + "  Corp "));
    TrimLeadSpace("Acme" + "  Corp ");
    TrimStartKeeps("Acme" + "  Corp ");
    WordsSkipSpace(s);
    TwoWords();
    WordsCons("Acme", "  Corp ");
    CorpWords();
  }

  /** Padding and a double space between the words of the name. */
  lemma AcmeCorp()
    ensures ToFilename("  Acme  Corp ") == "Acme_Corp_Interview_Questions.xlsx"
  {
    var s := "  Acme  Corp ";
    AcmeCorpWords();
    assert !Blank(s) by {
      assert !IsSpace(s[2]);
    }
    AcmeCorpJoin();
    assert FilenameStem(s) == "Acme_Corp";
    AcmeCorpName();
  }

  lemma AcmeCorpName()
    ensures "Acme_Corp" + Suffix == "Acme_Corp_Interview_Questions.xlsx"
  {
  }

  lemma AcmeCorpJoin()
    ensures Join(["Acme", "Corp"], '_') == "Acme_Corp"
  {
    assert ["Acme", "Corp"][1..] == ["Corp"];
    assert Join(["Corp"], '_') == "Corp";
    assert "Acme" + ['_'] + "Corp" == "Acme_Corp";
  }
}
