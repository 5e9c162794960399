/**
 * The classification half of `fetch_paper_details`: once the efetch response is
 * parsed, the paper is a title, a year and an ordered list of authors, each with
 * an optional last name and an optional affiliation. Authors whose affiliation
 * names a company keyword are collected, the last such affiliation holding an
 * `@` supplies the e-mail, and a six-field record is produced only when at least
 * one author was collected.
 */
module Papers {
  import opened Wrappers
  import opened Text
  import opened Selection

  /** The keywords whose presence in a lower-cased affiliation marks a company. */
  const Keywords: seq<string> := ["pharma", "biotech", "therapeutics", "labs", "inc", "ltd"]

  /** The value substituted for a missing title or publication year. */
  const NotAvailable: string := "N/A"

  /** The separator of the two multi-valued output fields. */
  const ListSeparator: string := ", "

  /** One `Author` element: its `LastName` child and its first `Affiliation` descendant. */
  datatype Author = Author(lastName: Option<string>, affiliation: Option<string>)

  /** The parts of the efetch document the filter reads: the first `ArticleTitle`,
      the first `PubDate/Year` and every `Author`, in document order. */
  datatype Document = Document(title: Option<string>, year: Option<string>, authors: seq<Author>)

  /** One output row; the two list fields are already joined with ", ". */
  datatype PaperRecord = PaperRecord(
    pubmedId: string,
    title: string,
    publicationDate: string,
    nonAcademicAuthors: string,
    companyAffiliations: string,
    email: string)

  /** The state of the author loop: the two lists it appends to and the e-mail it reassigns. */
  datatype Classification = Classification(
    nonAcademicAuthors: seq<string>,
    companyAffiliations: seq<string>,
    email: string)

  /** `any(x in affil.lower() for x in [...])`. */
  predicate HasCompanyKeyword(affil: string) {
    exists k :: 0 <= k < |Keywords| && Contains(Lower(affil), Keywords[k])
  }

  /** The loop's test `affil and any(...)`: a present, non-empty affiliation naming a keyword. */
  predicate IsCompanyAuthor(a: Author) {
    a.affiliation.Some? && a.affiliation.value != "" && HasCompanyKeyword(a.affiliation.value)
  }

  /** A collected author whose affiliation contains `@` and so replaces the e-mail. */
  predicate GivesEmail(a: Author) {
    IsCompanyAuthor(a) && '@' in a.affiliation.value
  }

  /** One turn of the author loop. */
  function Step(c: Classification, a: Author): Classification {
    if IsCompanyAuthor(a) then
      var affil := a.affiliation.value;
      Classification(
        c.nonAcademicAuthors + [a.lastName.GetOr("")],
        c.companyAffiliations + [affil],
        if '@' in affil then LastWord(affil) else c.email)
    else c
  }

  /** The state the author loop reaches after the given authors, starting from
      two empty lists and the e-mail "". */
  function Classify(authors: seq<Author>): Classification {
    if authors == [] then Classification([], [], "")
    else Step(Classify(authors[..|authors| - 1]), authors[|authors| - 1])
  }

  /** The author loop of `fetch_paper_details`. */
  method ClassifyAuthors(authors: seq<Author>)
    returns (nonAcademicAuthors: seq<string>, companyAffiliations: seq<string>, email: string)
    ensures Classification(nonAcademicAuthors, companyAffiliations, email) == Classify(authors)
  {
    companyAffiliations, nonAcademicAuthors, email := [], [], "";
    for i := 0 to |authors|
      invariant Classification(nonAcademicAuthors, companyAffiliations, email) == Classify(authors[..i])
    {
      assert authors[..i + 1][..i] == authors[..i];
      var affil := authors[i].affiliation;
      if affil.Some? && affil.value != "" && HasCompanyKeyword(affil.value) {
        companyAffiliations := companyAffiliations + [affil.value];
        var lastName := authors[i].lastName.GetOr("");
        nonAcademicAuthors := nonAcademicAuthors + [lastName];
        if '@' in affil.value {
          SplitNonEmptyIff(affil.value);
          var words := Split(affil.value);
          email := words[|words| - 1];
        }
      }
    }
    assert authors[..|authors|] == authors;
  }

  /** The value `fetch_paper_details` returns for one parsed document: `None`
      stands for the empty dictionary. */
  function PaperDetails(pubmedId: string, document: Document): Option<PaperRecord> {
    var c := Classify(document.authors);
    if c.nonAcademicAuthors == [] then None
    else Some(PaperRecord(
      pubmedId,
      document.title.GetOr(NotAvailable),
      document.year.GetOr(NotAvailable),
      Join(c.nonAcademicAuthors, ListSeparator),
      Join(c.companyAffiliations, ListSeparator),
      c.email))
  }

  /** `fetch_paper_details` after the request and the XML parse. */
  method FetchPaperDetails(pubmedId: string, document: Document) returns (paper: Option<PaperRecord>)
    ensures paper == PaperDetails(pubmedId, document)
  {
    var title := document.title.GetOr(NotAvailable);
    var date := document.year.GetOr(NotAvailable);
    var nonAcademicAuthors, companyAffiliations, email := ClassifyAuthors(document.authors);
    if nonAcademicAuthors != [] {
      paper := Some(PaperRecord(
        pubmedId, title, date,
        Join(nonAcademicAuthors, ListSeparator),
        Join(companyAffiliations, ListSeparator),
        email));
    } else {
      paper := None;
    }
  }

  /**
   * The two lists line up with the collected authors: both are as long as the
   * list of positions of company authors, and entry `k` of each comes from the
   * author at the `k`-th such position, in author order.
   */
  lemma {:induction false} ClassifyFollowsMatches(authors: seq<Author>)
    ensures var c, idx := Classify(authors), Selected(authors, IsCompanyAuthor);
      && |c.nonAcademicAuthors| == |idx|
      && |c.companyAffiliations| == |idx|
      && forall k :: 0 <= k < |idx| ==>
           && c.nonAcademicAuthors[k] == authors[idx[k]].lastName.GetOr("")
           && c.companyAffiliations[k] == authors[idx[k]].affiliation.value
  {
    if authors != [] {
      var init := authors[..|authors| - 1];
      ClassifyFollowsMatches(init);
      var idx0 := Selected(init, IsCompanyAuthor);
      assert forall k :: 0 <= k < |idx0| ==> authors[idx0[k]] == init[idx0[k]];
    }
  }

  /** A record is produced exactly when some author has a company affiliation. */
  lemma RecordIffCompanyAuthor(pubmedId: string, document: Document)
    ensures PaperDetails(pubmedId, document).Some? <==>
      exists i :: 0 <= i < |document.authors| && IsCompanyAuthor(document.authors[i])
  {
    ClassifyFollowsMatches(document.authors);
    SelectedEmptyIff(document.authors, IsCompanyAuthor);
  }

  /** A keyword that a slice of the affiliation lower-cases to marks a company. */
  lemma KeywordAtMarksCompany(affil: string, k: nat, i: nat)
    requires k < |Keywords| && i + |Keywords[k]| <= |affil|
    requires Lower(affil[i..i + |Keywords[k]|]) == Keywords[k]
    ensures HasCompanyKeyword(affil)
  {
    LowerSlice(affil, i, i + |Keywords[k]|);
    ContainsIff(Lower(affil), Keywords[k]);
    assert OccursAt(Lower(affil), Keywords[k], i);
  }

  /** "Inc" lower-cases to the keyword "inc". */
  lemma IncIsKeyword()
    ensures Lower("Inc") == Keywords[4]
  {
    var s := Lower("Inc");
    assert s[0] == LowerChar('I') == 'i';
    assert s[1] == 'n' && s[2] == 'c';
  }

  /** Case does not matter: two affiliations that agree once lower-cased are
      classified alike. */
  lemma KeywordMatchIgnoresCase(s: string, t: string)
    requires |s| == |t|
    requires forall i :: 0 <= i < |s| ==> LowerChar(s[i]) == LowerChar(t[i])
    ensures HasCompanyKeyword(s) <==> HasCompanyKeyword(t)
  {
    assert Lower(s) == Lower(t);
  }

  /** An upper-case keyword matches: an author at "PHARMA Corp" is a company author. */
  lemma UpperCaseKeywordMatches(a: Author)
    requires a.affiliation == Some("PHARMA Corp")
    ensures IsCompanyAuthor(a)
  {
    var affil := a.affiliation.value;
    assert affil[0..6] == "PHARMA";
    var s := Lower("PHARMA");
    assert s[0] == 'p' && s[1] == 'h' && s[2] == 'a' && s[3] == 'r' && s[4] == 'm' && s[5] == 'a';
    KeywordAtMarksCompany(affil, 0, 0);
  }

  /** An affiliation without the letters h, c and l, in either case, names no
      company: every keyword holds one of them. */
  lemma NoKeywordWithoutLetters(affil: string)
    requires 'h' !in affil && 'H' !in affil
    requires 'c' !in affil && 'C' !in affil
    requires 'l' !in affil && 'L' !in affil
    ensures !HasCompanyKeyword(affil)
  {
    var s := Lower(affil);
    LowerOmits(affil, 'h', 'H');
    LowerOmits(affil, 'c', 'C');
    LowerOmits(affil, 'l', 'L');
    MissingCharNotContained(s, Keywords[0], 'h');
    MissingCharNotContained(s, Keywords[1], 'h');
    MissingCharNotContained(s, Keywords[2], 'h');
    MissingCharNotContained(s, Keywords[3], 'l');
    MissingCharNotContained(s, Keywords[4], 'c');
    MissingCharNotContained(s, Keywords[5], 'l');
  }

  /** With a single author, the loop runs one step from the empty state. */
  lemma ClassifySingle(a: Author)
    ensures Classify([a]) == Step(Classification([], [], ""), a)
  {
    assert [a][..0] == [];
  }

  /** A single company author with an `@` in the affiliation sets the e-mail
      to the affiliation's last word. */
  lemma SingleAuthorEmail(a: Author)
    requires GivesEmail(a)
    ensures HasWord(a.affiliation.value)
    ensures Classify([a]).email == LastWord(a.affiliation.value)
  {
    CharMakesWord(a.affiliation.value, '@');
    ClassifySingle(a);
  }

  /** A document whose only author is a company author with an `@` in the
      affiliation yields a record whose e-mail is the affiliation's last word. */
  lemma SingleEmailAuthorRecord(pubmedId: string, document: Document)
    requires |document.authors| == 1 && GivesEmail(document.authors[0])
    ensures HasWord(document.authors[0].affiliation.value)
    ensures PaperDetails(pubmedId, document).Some?
    ensures PaperDetails(pubmedId, document).value.email == LastWord(document.authors[0].affiliation.value)
  {
    var a := document.authors[0];
    CharMakesWord(a.affiliation.value, '@');
    assert document.authors == [a];
    ClassifySingle(a);
  }

  /** An author who is not a company author leaves no trace: removing it changes
      neither list nor the e-mail. */
  lemma {:induction false} NonCompanyAuthorIgnored(before: seq<Author>, x: Author, after: seq<Author>)
    requires !IsCompanyAuthor(x)
    ensures Classify(before + [x] + after) == Classify(before + after)
    decreases |after|
  {
    if after == [] {
      assert (before + [x] + after)[..|before|] == before;
      assert before + after == before;
    } else {
      var after' := after[..|after| - 1];
      NonCompanyAuthorIgnored(before, x, after');
      assert (before + [x] + after)[..|before + [x] + after| - 1] == before + [x] + after';
      assert (before + after)[..|before + after| - 1] == before + after';
    }
  }

  /** An author with an absent or empty affiliation never matters to the record. */
  lemma AuthorWithoutAffiliationIgnored(
    pubmedId: string, title: Option<string>, year: Option<string>,
    before: seq<Author>, x: Author, after: seq<Author>)
    requires x.affiliation == None || x.affiliation == Some("")
    ensures PaperDetails(pubmedId, Document(title, year, before + [x] + after))
         == PaperDetails(pubmedId, Document(title, year, before + after))
  {
    NonCompanyAuthorIgnored(before, x, after);
  }

  /** The e-mail is the last word of the affiliation of the last company author
      whose affiliation contains `@`: later authors without one keep it. */
  lemma {:induction false} EmailFromLastCandidate(authors: seq<Author>, j: nat)
    requires j < |authors| && GivesEmail(authors[j])
    requires forall k :: j < k < |authors| ==> !GivesEmail(authors[k])
    ensures HasWord(authors[j].affiliation.value)
    ensures Classify(authors).email == LastWord(authors[j].affiliation.value)
  {
    CharMakesWord(authors[j].affiliation.value, '@');
    var init := authors[..|authors| - 1];
    if j < |authors| - 1 {
      assert init[j] == authors[j];
      EmailFromLastCandidate(init, j);
    }
  }

  /** The e-mail stays "" exactly when no company author's affiliation contains `@`. */
  lemma {:induction false} EmailEmptyIffNoCandidate(authors: seq<Author>)
    ensures Classify(authors).email == "" <==>
      forall k :: 0 <= k < |authors| ==> !GivesEmail(authors[k])
  {
    if authors != [] {
      var init := authors[..|authors| - 1];
      EmailEmptyIffNoCandidate(init);
      assert forall k :: 0 <= k < |init| ==> init[k] == authors[k];
    }
  }

  /** A company author without a last name still makes the record: it stands in
      the author list as "". */
  lemma NamelessCompanyAuthorCounts(pubmedId: string, document: Document, i: nat)
    requires i < |document.authors| && IsCompanyAuthor(document.authors[i])
    requires document.authors[i].lastName == None
    ensures PaperDetails(pubmedId, document).Some?
    ensures "" in Classify(document.authors).nonAcademicAuthors
  {
    RecordIffCompanyAuthor(pubmedId, document);
    ClassifyFollowsMatches(document.authors);
    var idx := Selected(document.authors, IsCompanyAuthor);
    var k :| 0 <= k < |idx| && idx[k] == i;
    assert Classify(document.authors).nonAcademicAuthors[k] == "";
  }

  /** The title and the publication date are the extracted values when present
      and "N/A" when absent; the two lists are joined with ", ". */
  lemma RecordFields(pubmedId: string, document: Document)
    requires PaperDetails(pubmedId, document).Some?
    ensures var r, c := PaperDetails(pubmedId, document).value, Classify(document.authors);
      && r.pubmedId == pubmedId
      && (document.title.Some? ==> r.title == document.title.value)
      && (document.title.None? ==> r.title == "N/A")
      && (document.year.Some? ==> r.publicationDate == document.year.value)
      && (document.year.None? ==> r.publicationDate == "N/A")
      && r.nonAcademicAuthors == Join(c.nonAcademicAuthors, ", ")
      && r.companyAffiliations == Join(c.companyAffiliations, ", ")
      && r.email == c.email
  {
  }

  /** "Acme Inc, a@b.com (corresponding)" names a company, through "inc". */
  lemma AcmeIsCompany(affil: string)
    requires affil == "Acme Inc, a@b.com (corresponding)"
    ensures HasCompanyKeyword(affil)
  {
    assert affil == "Acme " + "Inc" + ", a@b.com (corresponding)";
    assert affil[5..8] == "Inc";
    IncIsKeyword();
    KeywordAtMarksCompany(affil, 4, 5);
  }

  /** The last word of "Acme Inc, a@b.com (corresponding)" is "(corresponding)". */
  lemma AcmeLastWord(affil: string)
    requires affil == "Acme Inc, a@b.com (corresponding)"
    ensures '@' in affil && HasWord(affil) && LastWord(affil) == "(corresponding)"
  {
    assert affil == "Acme Inc, a@b.com" + " " + "(corresponding)";
    NoSpaceAt("(corresponding)");
    LastWordAfterSpace("Acme Inc, a@b.com", "(corresponding)");
  }

  /** The e-mail is the affiliation's last word whatever it is: for "Acme Inc,
      a@b.com (corresponding)" it is "(corresponding)", which holds no `@`. */
  lemma EmailIsLastWordEvenWithoutAt(a: Author)
    requires a.affiliation == Some("Acme Inc, a@b.com (corresponding)")
    ensures GivesEmail(a)
    ensures Classify([a]).email == "(corresponding)"
  {
    var affil := a.affiliation.value;
    AcmeIsCompany(affil);
    AcmeLastWord(affil);
    SingleAuthorEmail(a);
  }
}
