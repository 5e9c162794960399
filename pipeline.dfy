/**
 * The accept loop of `main`: every identifier returned by the search is fetched
 * and classified in turn, and only the non-empty results are kept, in
 * identifier order; the reported count is their number.
 */
module Pipeline {
  import opened Wrappers
  import opened Text
  import opened Selection
  import opened Papers

  /** One identifier from the search together with the document its detail
      request returned. */
  datatype Fetched = Fetched(pubmedId: string, document: Document)

  /** The document has an author with a company affiliation. */
  predicate Qualifies(f: Fetched) {
    exists i :: 0 <= i < |f.document.authors| && IsCompanyAuthor(f.document.authors[i])
  }

  /** The list `main` hands to the CSV writer. */
  function Accepted(fetched: seq<Fetched>): seq<PaperRecord> {
    if fetched == [] then []
    else
      var f := fetched[|fetched| - 1];
      var paper := PaperDetails(f.pubmedId, f.document);
      Accepted(fetched[..|fetched| - 1]) + (if paper.Some? then [paper.value] else [])
  }

  /** The loop of `main` over the identifiers; `count` is the number it reports. */
  method CollectPapers(fetched: seq<Fetched>) returns (results: seq<PaperRecord>, count: nat)
    ensures results == Accepted(fetched)
    ensures count == |results|
  {
    results := [];
    for i := 0 to |fetched|
      invariant results == Accepted(fetched[..i])
    {
      assert fetched[..i + 1][..i] == fetched[..i];
      var paper := FetchPaperDetails(fetched[i].pubmedId, fetched[i].document);
      if paper.Some? {
        results := results + [paper.value];
      }
    }
    assert fetched[..|fetched|] == fetched;
    count := |results|;
  }

  /**
   * The accepted list holds one record per qualifying document, in identifier
   * order: record `k` is the record of the `k`-th qualifying document and
   * carries its identifier.
   */
  lemma {:induction false} AcceptedInOrder(fetched: seq<Fetched>)
    ensures var rs, idx := Accepted(fetched), Selected(fetched, Qualifies);
      && |rs| == |idx|
      && forall k :: 0 <= k < |idx| ==>
           && PaperDetails(fetched[idx[k]].pubmedId, fetched[idx[k]].document) == Some(rs[k])
           && rs[k].pubmedId == fetched[idx[k]].pubmedId
  {
    if fetched != [] {
      var n := |fetched| - 1;
      var init, f := fetched[..n], fetched[n];
      AcceptedInOrder(init);
      RecordIffCompanyAuthor(f.pubmedId, f.document);
      var paper := PaperDetails(f.pubmedId, f.document);
      var idx0, rs0 := Selected(init, Qualifies), Accepted(init);
      var idx, rs := Selected(fetched, Qualifies), Accepted(fetched);
      assert idx == idx0 + (if Qualifies(f) then [n] else []);
      assert rs == rs0 + (if paper.Some? then [paper.value] else []);
      assert paper.Some? <==> Qualifies(f);
      forall k | 0 <= k < |idx0|
        ensures PaperDetails(fetched[idx[k]].pubmedId, fetched[idx[k]].document) == Some(rs[k])
        ensures rs[k].pubmedId == fetched[idx[k]].pubmedId
      {
        assert idx[k] == idx0[k] && rs[k] == rs0[k];
        assert fetched[idx0[k]] == init[idx0[k]];
      }
      if paper.Some? {
        assert idx[|idx0|] == n && rs[|idx0|] == paper.value;
      }
    }
  }

  /** Two documents of which only the first yields a record. */
  lemma AcceptedPair(first: Fetched, second: Fetched)
    requires PaperDetails(first.pubmedId, first.document).Some?
    requires PaperDetails(second.pubmedId, second.document).None?
    ensures Accepted([first, second]) == [PaperDetails(first.pubmedId, first.document).value]
  {
    var r := PaperDetails(first.pubmedId, first.document).value;
    assert [first][..0] == [];
    assert Accepted([first]) == Accepted([]) + [r];
    assert [first, second][..1] == [first];
    assert Accepted([first, second]) == Accepted([first]) + [];
  }

  /** A search that returns no identifiers yields no records. */
  lemma NoIdentifiersNoRecords()
    ensures Accepted([]) == []
  {
  }

  /** "Genentech Inc, contact@genentech.com" names a company, through "inc". */
  lemma GenentechIsCompany(affil: string)
    requires affil == "Genentech Inc, contact@genentech.com"
    ensures HasCompanyKeyword(affil)
  {
    assert affil == "Genentech " + "Inc" + ", contact@genentech.com";
    assert affil[10..13] == "Inc";
    IncIsKeyword();
    KeywordAtMarksCompany(affil, 4, 10);
  }

  /** The last word of "Genentech Inc, contact@genentech.com" is the address. */
  lemma GenentechLastWord(affil: string)
    requires affil == "Genentech Inc, contact@genentech.com"
    ensures HasWord(affil) && LastWord(affil) == "contact@genentech.com"
  {
    assert affil == "Genentech Inc," + " " + "contact@genentech.com";
    NoSpaceAt("contact@genentech.com");
    LastWordAfterSpace("Genentech Inc,", "contact@genentech.com");
  }

  /** A document whose only author works at "Genentech Inc,
      contact@genentech.com" yields a record carrying that address. */
  lemma GenentechRecord(pubmedId: string, document: Document)
    requires |document.authors| == 1
    requires document.authors[0].affiliation == Some("Genentech Inc, contact@genentech.com")
    ensures PaperDetails(pubmedId, document).Some?
    ensures PaperDetails(pubmedId, document).value.email == "contact@genentech.com"
  {
    var affil := document.authors[0].affiliation.value;
    GenentechIsCompany(affil);
    GenentechLastWord(affil);
    assert '@' in affil;
    SingleEmailAuthorRecord(pubmedId, document);
  }

  /** A document whose only author works at "State
      University" yields no record. */
  lemma UniversityRecord(pubmedId: string, document: Document)
    requires |document.authors| == 1
    requires document.authors[0].affiliation == Some("State University")
    ensures PaperDetails(pubmedId, document) == None
  {
    var a := document.authors[0];
    UniversityIsNotCompany(a.affiliation.value);
    assert document.authors == [a];
    ClassifySingle(a);
  }

  /** "State University" names no company: it has no h, c or l. */
  lemma UniversityIsNotCompany(affil: string)
    requires affil == "State University"
    ensures !HasCompanyKeyword(affil)
  {
    assert 'h' !in affil && 'H' !in affil;
    assert 'c' !in affil && 'C' !in affil;
    assert 'l' !in affil && 'L' !in affil;
    NoKeywordWithoutLetters(affil);
  }

  /**
   * Two identifiers: the first document's only author works at "Genentech Inc,
   * contact@genentech.com", the second's at "State
   * University". Exactly one record is kept, for identifier "1", with e-mail
   * "contact@genentech.com".
   */
  lemma GenentechExample(first: Fetched, second: Fetched)
    requires first.pubmedId == "1" && second.pubmedId == "2"
    requires |first.document.authors| == 1 && |second.document.authors| == 1
    requires first.document.authors[0].affiliation == Some("Genentech Inc, contact@genentech.com")
    requires second.document.authors[0].affiliation == Some("State University")
    ensures var rs := Accepted([first, second]);
      && |rs| == 1
      && rs[0].pubmedId == "1"
      && rs[0].email == "contact@genentech.com"
  {
    GenentechRecord(first.pubmedId, first.document);
    UniversityRecord(second.pubmedId, second.document);
    AcceptedPair(first, second);
  }
}
