# get_papers_list — affiliation filter

`get_papers_list.py` is a command-line tool. It searches PubMed for a query and
fetches each paper's details. It keeps only the papers with at least one author
whose affiliation names a company, meaning the lower-cased affiliation contains
one of the keywords "pharma", "biotech", "therapeutics", "labs", "inc" or "ltd".
The kept papers become rows of a CSV file.

This project models the decision-making core of that tool:

- **`Text`** (`text.dfy`) gives the Python string built-ins the tool relies on:
  - `str.lower()` on ASCII letters;
  - `x in s` as a substring test;
  - `str.split()` with no argument, and `split()[-1]`;
  - `", ".join`.

  Each comes with lemmas that pin down its meaning. `ContainsIff` states the
  substring test as "occurs at some index". `LastWordIsTrailing` says the last
  split word is the run of non-space characters before the trailing whitespace.
- **`Selection`** (`selection.dfy`) is an independent reference definition: the
  increasing list of positions a filter keeps.
- **`Papers`** (`papers.dfy`) covers the part of `fetch_paper_details` that runs
  after the XML parse:
  - the loop over the authors, as the method `ClassifyAuthors`;
  - the construction of the six-field record, as the method `FetchPaperDetails`.

  Both are proved equal to the specification functions `Classify` and
  `PaperDetails`. The lemmas then state what those functions mean.
- **`Pipeline`** (`pipeline.dfy`) covers the loop of `main` that keeps every
  non-empty result, as the method `CollectPapers`. It is proved equal to the
  specification function `Accepted`, and `AcceptedInOrder` relates `Accepted`
  to the qualifying documents.

Four behaviours of the code are modelled as written:

- **The e-mail is always a last word.** The e-mail field is the last
  whitespace-separated word of the affiliation of the *last* company author
  whose affiliation contains `@`. That word need not itself contain `@`:
  `EmailIsLastWordEvenWithoutAt` proves that for "Acme Inc, a@b.com
  (corresponding)" it is "(corresponding)". It is the last word of the last
  such affiliation, not the first `@`-containing word of any affiliation.
- **Keywords match anywhere.** A keyword is a plain substring test, so "inc"
  also matches inside words such as "Princeton".
- **A company author without a last name still counts.** They appear in the
  author list as "".
- **An empty result is `None`.** The empty dictionary returned for a paper with
  no company author is `None`.

A parsed efetch document is modelled as a `Document` value. Its title and year
are present or absent, and `Option.GetOr("N/A")` plays the part of
`findtext(..., default="N/A")`. It also holds the ordered authors. Each author
has an optional last name and an optional affiliation; a missing affiliation or
an empty string both count as false. The network's answers are the input
sequence of `Fetched` pairs, each an identifier and its parsed document.

## Model

| member | source | states |
|---|---|---|
| Text.Lower | get_papers_list.py:41 | `affil.lower()` keeps the length and lower-cases each character; no character of the result is an upper-case ASCII letter (`LowerSlice` relates it to slices) |
| Text.Contains | get_papers_list.py:41 | the recursive `x in s` test; `ContainsIff` proves it means "occurs at some index" |
| Text.ContainsIff | get_papers_list.py:41 | `Contains(s, pat)` holds exactly when `pat` occurs in `s` at some index: the meaning of Python's `x in s` on strings |
| Text.Split | get_papers_list.py:46 | every word `str.split()` returns is non-empty and free of whitespace |
| Text.SplitNonEmptyIff | get_papers_list.py:46 | `split()` returns a non-empty list exactly when the text has a non-whitespace character, so `[-1]` is defined whenever the affiliation contains `@` |
| Text.LastWord | get_papers_list.py:46 | `split()[-1]` is non-empty and contains no whitespace |
| Text.LastWordIsTrailing | get_papers_list.py:46 | `split()[-1]` is the maximal run of non-space characters that ends where the trailing whitespace begins |
| Text.Join | get_papers_list.py:52-53 | `sep.join(parts)`; `JoinAppend`, `JoinLength` and `JoinIsEmpty` state its contents, length and emptiness |
| Text.JoinAppend | get_papers_list.py:52-53 | joining one more part appends the separator and that part, so the parts appear in order with one separator between neighbours |
| Text.JoinLength | get_papers_list.py:52-53 | the length of `sep.join(parts)` is the sum of the parts' lengths plus one separator between each two parts |
| Text.JoinIsEmpty | get_papers_list.py:52-53 | `", ".join(parts)` is "" exactly when there are no parts or a single empty part |
| Text.LowerSlice | get_papers_list.py:41 | lower-casing commutes with slicing, so a keyword found in a slice is found in the whole lower-cased affiliation |
| Selection.Selected | get_papers_list.py:39-44 | the positions a filter keeps: in range, satisfying the filter, strictly increasing and complete |
| Selection.SelectedEmptyIff | get_papers_list.py:55 | no position is kept exactly when no element satisfies the filter |
| Papers.HasCompanyKeyword | get_papers_list.py:41 | the `any(x in affil.lower() ...)` test: some of the six keywords occurs in the lower-cased affiliation (`KeywordAtMarksCompany`, `KeywordMatchIgnoresCase`, `NoKeywordWithoutLetters`) |
| Papers.IsCompanyAuthor | get_papers_list.py:40-41 | the loop's test `affil and any(...)`: the affiliation is present, non-empty and names a keyword (`AuthorWithoutAffiliationIgnored`, `RecordIffCompanyAuthor`) |
| Papers.GivesEmail | get_papers_list.py:45 | a collected author whose affiliation contains `@` (`EmailFromLastCandidate`, `EmailEmptyIffNoCandidate`) |
| Papers.Step | get_papers_list.py:39-46 | one turn of the author loop: a company author appends its last name (or "") and affiliation and, with `@`, sets the e-mail; any other author changes nothing (`NonCompanyAuthorIgnored`) |
| Papers.Classify | get_papers_list.py:34-46 | the state after the author loop, from two empty lists and ""; `ClassifyFollowsMatches` and the e-mail lemmas state its contents |
| Papers.PaperDetails | get_papers_list.py:48-55 | the returned dict: `None` when no author was collected, else the six-field record (`RecordIffCompanyAuthor`, `RecordFields`) |
| Papers.ClassifyAuthors | get_papers_list.py:34-46 | the author loop ends with the two lists and the e-mail that `Classify` gives for the authors |
| Papers.FetchPaperDetails | get_papers_list.py:31-55 | the value returned for a parsed document is `PaperDetails`: `None` (the empty dict) or the six-field record |
| Papers.ClassifyFollowsMatches | get_papers_list.py:39-44 | both lists have one entry per company author, and entry `k` is the last name (or "") and affiliation of the `k`-th company author, in document order |
| Papers.RecordIffCompanyAuthor | get_papers_list.py:39-55 | a record is returned if and only if some author has a present, non-empty affiliation naming a keyword |
| Papers.KeywordAtMarksCompany | get_papers_list.py:41 | a slice of the affiliation that lower-cases to a keyword makes the affiliation a company one |
| Papers.KeywordMatchIgnoresCase | get_papers_list.py:41 | two affiliations that agree after lower-casing are classified alike |
| Papers.UpperCaseKeywordMatches | get_papers_list.py:41 | an author at "PHARMA Corp" is a company author: the keyword test ignores case |
| Papers.NoKeywordWithoutLetters | get_papers_list.py:41 | an affiliation with none of the letters h, c and l, in either case, names no keyword |
| Papers.NonCompanyAuthorIgnored | get_papers_list.py:39-46 | removing a non-company author from anywhere in the list changes neither list nor the e-mail |
| Papers.AuthorWithoutAffiliationIgnored | get_papers_list.py:40-41 | an author with a missing or empty affiliation never changes the returned value |
| Papers.EmailFromLastCandidate | get_papers_list.py:45-46 | the e-mail is the last word of the affiliation of the last company author whose affiliation contains `@` |
| Papers.EmailEmptyIffNoCandidate | get_papers_list.py:37-46 | the e-mail stays "" if and only if no company author's affiliation contains `@` |
| Papers.SingleEmailAuthorRecord | get_papers_list.py:39-55 | a document whose only author is a company author with `@` gives a record whose e-mail is that affiliation's last word |
| Papers.EmailIsLastWordEvenWithoutAt | get_papers_list.py:45-46 | for "Acme Inc, a@b.com (corresponding)" the author is collected and the e-mail is "(corresponding)", a word without `@` |
| Papers.NamelessCompanyAuthorCounts | get_papers_list.py:43-55 | a company author without a last name still makes the record and is listed as "" |
| Papers.RecordFields | get_papers_list.py:31-55 | the record carries the identifier, the title and year or "N/A" when absent, both lists joined with ", ", and the loop's e-mail |
| Pipeline.Qualifies | get_papers_list.py:83-84 | a fetched document whose result is truthy, i.e. one with a company author (`RecordIffCompanyAuthor`) |
| Pipeline.Accepted | get_papers_list.py:81-85 | the list handed to the CSV writer; `AcceptedInOrder` states it holds the qualifying documents' records in identifier order |
| Pipeline.CollectPapers | get_papers_list.py:81-90 | the loop of `main` keeps exactly `Accepted(fetched)`, and the reported count is its length |
| Pipeline.AcceptedInOrder | get_papers_list.py:81-85 | there is one kept record per qualifying document, in identifier order, and record `k` is the `k`-th qualifying document's record and carries its identifier |
| Pipeline.AcceptedPair | get_papers_list.py:81-85 | of two documents, a first that yields a record and a second that does not, only the first's record is kept |
| Pipeline.NoIdentifiersNoRecords | get_papers_list.py:81-85 | a search with no identifiers yields no records |
| Pipeline.GenentechRecord | get_papers_list.py:39-55 | a lone author at "Genentech Inc, contact@genentech.com" gives a record with e-mail "contact@genentech.com" |
| Pipeline.UniversityRecord | get_papers_list.py:39-55 | a lone author at "State University" gives no record |
| Pipeline.GenentechExample | get_papers_list.py:81-85 | with ids "1" (Genentech author) and "2" (university author), exactly one record is kept, for "1", with e-mail "contact@genentech.com" |

## Left out

- `fetch_pubmed_ids` (lines 8-18) is not modelled: it is an HTTP request to esearch and JSON decoding. Its result enters as the order of the `fetched` sequence. The `retmax` cap of 10 identifiers is therefore not modelled.
- The efetch HTTP request in `fetch_paper_details` (lines 23-28) is not modelled, and neither is its missing status check. The parsed document is a parameter.
- XML parsing with `ElementTree` (line 29), its `ParseError`, and the XPath lookups (lines 31-34, 40, 43) are not modelled. Their results are the fields of `Document` and `Author`: the first match, or absent.
- `write_to_csv` (lines 58-67) is not modelled; it is file output. The model stops at the list of records handed to it.
- Argument parsing, the debug prints and the summary print in `main` (lines 71-79, 86-87, 90) are not modelled; they are I/O. The printed count is the `count` output of `CollectPapers`.
- Text.Lower: only ASCII letters are lower-cased. Python's `str.lower()` also folds non-ASCII letters, for example "Ä" to "ä".
- Text.Split: only the ASCII whitespace characters (tab, newline, vertical tab, form feed, carriage return, the file/group/record/unit separators, space) split words. Python's `str.split()` also splits on Unicode spaces such as U+00A0.
- Dictionary keys and the CSV column names are not modelled; the six fields of `PaperRecord` stand for them.
