/** The job scraper of backend/scraper.py: the contact-address heuristic and the
    mapping of a job board's rows to posting records. The job board itself is a
    parameter: a function from the search term to what the board returns. */
module Scraper {
  import opened Common
  import opened Strings

  /** The corporate words deleted from a lower-cased company name, in the order
      they are deleted. */
  const RemoveWords: seq<string> :=
    ["pvt", "ltd", "limited", "inc", "corp", "corporation", "solutions", "technologies", "india"]

  /** The name after the first `n` listed words have been deleted from it as
      substrings, first word first. */
  function StripWords(s: string, n: nat): string
    requires n <= |RemoveWords|
  {
    if n == 0 then s else Remove(StripWords(s, n - 1), RemoveWords[n - 1])
  }

  /** Deleting words never brings in a character that was not there. */
  lemma {:induction false} StripWordsSubset(s: string, n: nat)
    requires n <= |RemoveWords|
    ensures forall c :: c in StripWords(s, n) ==> c in s
  {
    if n > 0 {
      StripWordsSubset(s, n - 1);
      RemoveSubset(StripWords(s, n - 1), RemoveWords[n - 1]);
    }
  }

  /** The mailbox domain label derived from a company name. */
  function Label(companyName: string): string {
    KeepAlnum(StripWords(Lower(companyName), |RemoveWords|))
  }

  /** The address `generate_corporate_email` returns. */
  function CorporateEmail(companyName: string): string {
    "hr@" + Label(companyName) + ".com"
  }

  /** `generate_corporate_email`: lower-case, delete each listed word in turn,
      drop everything but ASCII letters and digits, wrap as hr@<label>.com. */
  method GenerateCorporateEmail(companyName: string) returns (email: string)
    ensures email == CorporateEmail(companyName)
  {
    var cleanName := Lower(companyName);
    var removeWords := RemoveWords;
    for i := 0 to |removeWords|
      invariant cleanName == StripWords(Lower(companyName), i)
    {
      cleanName := Remove(cleanName, removeWords[i]);
    }
    cleanName := KeepAlnum(cleanName);
    var domain := cleanName + ".com";
    email := "hr@" + domain;
  }

  /** The address is always hr@<label>.com with a label of lower-case ASCII
      letters and digits only, so its one '@' is the one after "hr". */
  lemma CorporateEmailShape(companyName: string)
    ensures var r := CorporateEmail(companyName);
      && |r| >= 7 && r[..3] == "hr@" && r[|r| - 4..] == ".com"
      && r[3..|r| - 4] == Label(companyName)
      && (forall i :: 3 <= i < |r| - 4 ==> IsLowerAlnum(r[i]))
      && (forall i :: 0 <= i < |r| && r[i] == '@' ==> i == 2)
  {
    var lowered := Lower(companyName);
    var stripped := StripWords(lowered, |RemoveWords|);
    var domainLabel := Label(companyName);
    KeepAlnumSubset(stripped);
    StripWordsSubset(lowered, |RemoveWords|);
    forall c | c in domainLabel ensures IsLowerAlnum(c) {
      assert c in stripped && c in lowered;
      var k :| 0 <= k < |lowered| && lowered[k] == c;
      assert c == LowerChar(companyName[k]);
    }
    var r := CorporateEmail(companyName);
    assert r == "hr@" + domainLabel + ".com";
    forall i | 3 <= i < |r| - 4 ensures IsLowerAlnum(r[i]) {
      assert r[i] == domainLabel[i - 3];
      assert domainLabel[i - 3] in domainLabel;
    }
  }

  /** Names that differ only in letter case get the same address. */
  lemma CorporateEmailIgnoresCase(a: string, b: string)
    requires EqualIgnoringCase(a, b)
    ensures CorporateEmail(a) == CorporateEmail(b)
  {
    assert Lower(a) == Lower(b);
  }

  /** A name with no ASCII letter or digit (the empty name included) gives
      exactly hr@.com: no placeholder label is substituted. */
  lemma NoLettersOrDigitsGivesBareDomain(companyName: string)
    requires forall i :: 0 <= i < |companyName| ==> !IsAsciiAlnum(companyName[i])
    ensures CorporateEmail(companyName) == "hr@.com"
  {
    var lowered := Lower(companyName);
    var stripped := StripWords(lowered, |RemoveWords|);
    StripWordsSubset(lowered, |RemoveWords|);
    forall i | 0 <= i < |stripped| ensures !IsAsciiAlnum(stripped[i]) {
      assert stripped[i] in lowered;
      var k :| 0 <= k < |lowered| && lowered[k] == stripped[i];
      assert lowered[k] == LowerChar(companyName[k]);
    }
    KeepAlnumOfNonAlnum(stripped);
  }

  /** Deleting `w` from text holding it exactly once, after a prefix that
      cannot start it. */
  lemma RemoveOnce(u: string, w: string, x: string, c: char)
    requires w != [] && w[0] !in u && c in w && c !in x
    ensures Remove(u + w + x, w) == u + x
  {
    assert u + w + x == u + (w + x);
    RemoveSkipPrefix(u, w + x, w);
    RemoveLeading(w, x);
    RemoveMissingChar(x, w, c);
  }

  /** The label spelled out with the number of listed words. */
  lemma LabelUnfolded(companyName: string)
    ensures Label(companyName) == KeepAlnum(StripWords(Lower(companyName), 9))
  {
  }

  // The worked examples below establish the facts about the literal strings
  // first and only then bring in the deletions, each changing deletion in a
  // lemma of its own.

  /** "inc" goes from the middle of "princeton". */
  lemma PrincetonLosesInc()
    ensures Remove("princeton", "inc") == "preton"
  {
    assert 'i' !in "pr" && 'i' !in "eton";
    assert "pr" + "inc" + "eton" == "princeton";
    RemoveOnce("pr", "inc", "eton", 'i');
  }

  /** Every other listed word has a letter the text lacks. */
  lemma PrincetonKeptWords()
    ensures Remove("princeton", "pvt") == "princeton"
    ensures Remove("princeton", "ltd") == "princeton"
    ensures Remove("princeton", "limited") == "princeton"
    ensures Remove("preton", "corp") == "preton"
    ensures Remove("preton", "corporation") == "preton"
    ensures Remove("preton", "solutions") == "preton"
    ensures Remove("preton", "technologies") == "preton"
    ensures Remove("preton", "india") == "preton"
  {
    assert 'v' !in "princeton" && 'l' !in "princeton";
    assert 'c' !in "preton" && 's' !in "preton" && 'h' !in "preton" && 'd' !in "preton";
    RemoveMissingChar("princeton", "pvt", 'v');
    RemoveMissingChar("princeton", "ltd", 'l');
    RemoveMissingChar("princeton", "limited", 'l');
    RemoveMissingChar("preton", "corp", 'c');
    RemoveMissingChar("preton", "corporation", 'c');
    RemoveMissingChar("preton", "solutions", 's');
    RemoveMissingChar("preton", "technologies", 'h');
    RemoveMissingChar("preton", "india", 'd');
  }

  lemma PrincetonStripped()
    ensures StripWords("princeton", 9) == "preton"
  {
    PrincetonKeptWords();
    PrincetonLosesInc();
  }

  lemma PrincetonLabel()
    ensures Label("Princeton") == "preton"
  {
    assert Lower("Princeton") == "princeton";
    assert forall i :: 0 <= i < |"preton"| ==> IsAsciiAlnum("preton"[i]);
    LabelUnfolded("Princeton");
    PrincetonStripped();
    KeepAlnumOfAlnum("preton");
  }

  /** The words go as substrings: "inc" is cut out of "Princeton". */
  lemma PrincetonExample()
    ensures CorporateEmail("Princeton") == "hr@preton.com"
  {
    PrincetonLabel();
  }

  lemma AcmeSolutionsLosesPvt()
    ensures Remove("acme solutions pvt ltd", "pvt") == "acme solutions  ltd"
  {
    assert 'p' !in "acme solutions " && 'p' !in " ltd";
    assert "acme solutions " + "pvt" + " ltd" == "acme solutions pvt ltd";
    assert "acme solutions " + " ltd" == "acme solutions  ltd";
    RemoveOnce("acme solutions ", "pvt", " ltd", 'p');
  }

  /** The "l" of "solutions" starts no "ltd"; the trailing "ltd" goes. */
  lemma AcmeSolutionsLosesLtd()
    ensures Remove("acme solutions  ltd", "ltd") == "acme solutions  "
  {
    var x := "utions  ltd";
    assert 'l' !in "utions  " && 'l' !in "acme so";
    assert ([('l')] + x)[..3][1] != "ltd"[1];
    assert "utions  " + "ltd" + "" == x;
    assert "acme so" + ([('l')] + x) == "acme solutions  ltd";
    assert "acme so" + ([('l')] + ("utions  " + "")) == "acme solutions  ";
    RemoveOnce("utions  ", "ltd", "", 'l');
    RemoveKeepChar('l', x, "ltd");
    RemoveSkipPrefix("acme so", [('l')] + x, "ltd");
  }

  /** The "i" of "solutions" starts no "inc". */
  lemma AcmeSolutionsKeepsInc()
    ensures Remove("acme solutions  ", "inc") == "acme solutions  "
  {
    var x := "ons  ";
    assert 'i' !in x && 'i' !in "acme solut";
    assert ([('i')] + x)[..3][1] != "inc"[1];
    assert "acme solut" + ([('i')] + x) == "acme solutions  ";
    RemoveMissingChar(x, "inc", 'i');
    RemoveKeepChar('i', x, "inc");
    RemoveSkipPrefix("acme solut", [('i')] + x, "inc");
  }

  lemma AcmeSolutionsLosesSolutions()
    ensures Remove("acme solutions  ", "solutions") == "acme   "
  {
    assert 's' !in "acme " && 's' !in "  ";
    assert "acme " + "solutions" + "  " == "acme solutions  ";
    assert "acme " + "  " == "acme   ";
    RemoveOnce("acme ", "solutions", "  ", 's');
  }

  lemma AcmeSolutionsKeptWords()
    ensures Remove("acme solutions  ", "limited") == "acme solutions  "
    ensures Remove("acme solutions  ", "corp") == "acme solutions  "
    ensures Remove("acme solutions  ", "corporation") == "acme solutions  "
    ensures Remove("acme   ", "technologies") == "acme   "
    ensures Remove("acme   ", "india") == "acme   "
  {
    assert 'd' !in "acme solutions  " && 'p' !in "acme solutions  ";
    assert 'h' !in "acme   " && 'd' !in "acme   ";
    RemoveMissingChar("acme solutions  ", "limited", 'd');
    RemoveMissingChar("acme solutions  ", "corp", 'p');
    RemoveMissingChar("acme solutions  ", "corporation", 'p');
    RemoveMissingChar("acme   ", "technologies", 'h');
    RemoveMissingChar("acme   ", "india", 'd');
  }

  lemma AcmeSolutionsStripped()
    ensures StripWords("acme solutions pvt ltd", 9) == "acme   "
  {
    AcmeSolutionsLosesPvt();
    AcmeSolutionsLosesLtd();
    AcmeSolutionsKeepsInc();
    AcmeSolutionsLosesSolutions();
    AcmeSolutionsKeptWords();
  }

  /** The spaces left between and after the words are dropped. */
  lemma AcmeSolutionsKeepAlnum()
    ensures KeepAlnum("acme   ") == "acme"
  {
    assert forall i :: 0 <= i < |"acme"| ==> IsAsciiAlnum("acme"[i]);
    assert forall i :: 0 <= i < |"   "| ==> !IsAsciiAlnum("   "[i]);
    assert "acme" + "   " == "acme   ";
    KeepAlnumConcat("acme", "   ");
    KeepAlnumOfAlnum("acme");
    KeepAlnumOfNonAlnum("   ");
  }

  lemma AcmeSolutionsLabel()
    ensures Label("Acme Solutions Pvt Ltd") == "acme"
  {
    assert Lower("Acme Solutions Pvt Ltd") == "acme solutions pvt ltd";
    LabelUnfolded("Acme Solutions Pvt Ltd");
    AcmeSolutionsStripped();
    AcmeSolutionsKeepAlnum();
  }

  /** Every listed suffix of "Acme Solutions Pvt Ltd" is deleted. */
  lemma AcmeSolutionsExample()
    ensures CorporateEmail("Acme Solutions Pvt Ltd") == "hr@acme.com"
  {
    AcmeSolutionsLabel();
  }

  /** The "i" of "corporation" starts no "inc". */
  lemma CorporationKeepsInc()
    ensures Remove("acme corporation", "inc") == "acme corporation"
  {
    assert 'i' !in "acme corporat";
    assert ([('i')] + "on")[..3][1] != "inc"[1];
    assert "acme corporat" + ([('i')] + "on") == "acme corporation";
    RemoveShort("on", "inc");
    RemoveKeepChar('i', "on", "inc");
    RemoveSkipPrefix("acme corporat", [('i')] + "on", "inc");
  }

  /** The "c" of "acme" starts no "corp"; the "corp" of "corporation" goes. */
  lemma CorporationLosesCorp()
    ensures Remove("acme corporation", "corp") == "acme oration"
  {
    var x := "me corporation";
    assert 'c' !in "me " && 'c' !in "oration" && 'c' !in "a";
    assert ([('c')] + x)[..4][1] != "corp"[1];
    assert "me " + "corp" + "oration" == x;
    assert "a" + ([('c')] + x) == "acme corporation";
    assert "a" + ([('c')] + ("me " + "oration")) == "acme oration";
    RemoveOnce("me ", "corp", "oration", 'c');
    RemoveKeepChar('c', x, "corp");
    RemoveSkipPrefix("a", [('c')] + x, "corp");
  }

  lemma CorporationKeptWordsBefore()
    ensures Remove("acme corporation", "pvt") == "acme corporation"
    ensures Remove("acme corporation", "ltd") == "acme corporation"
    ensures Remove("acme corporation", "limited") == "acme corporation"
  {
    assert 'v' !in "acme corporation" && 'l' !in "acme corporation";
    RemoveMissingChar("acme corporation", "pvt", 'v');
    RemoveMissingChar("acme corporation", "ltd", 'l');
    RemoveMissingChar("acme corporation", "limited", 'l');
  }

  lemma CorporationKeptWordsAfter()
    ensures Remove("acme oration", "corporation") == "acme oration"
    ensures Remove("acme oration", "solutions") == "acme oration"
    ensures Remove("acme oration", "technologies") == "acme oration"
    ensures Remove("acme oration", "india") == "acme oration"
  {
    assert 'p' !in "acme oration" && 'u' !in "acme oration";
    assert 'h' !in "acme oration" && 'd' !in "acme oration";
    RemoveMissingChar("acme oration", "corporation", 'p');
    RemoveMissingChar("acme oration", "solutions", 'u');
    RemoveMissingChar("acme oration", "technologies", 'h');
    RemoveMissingChar("acme oration", "india", 'd');
  }

  lemma CorporationStripped()
    ensures StripWords("acme corporation", 9) == "acme oration"
  {
    CorporationKeptWordsBefore();
    CorporationKeepsInc();
    CorporationLosesCorp();
    CorporationKeptWordsAfter();
  }

  /** The space left between the two parts is dropped. */
  lemma CorporationKeepAlnumTail()
    ensures KeepAlnum(" oration") == "oration"
  {
    assert forall i :: 0 <= i < |"oration"| ==> IsAsciiAlnum("oration"[i]);
    KeepAlnumOfAlnum("oration");
  }

  lemma CorporationKeepAlnum()
    ensures KeepAlnum("acme oration") == "acmeoration"
  {
    assert forall i :: 0 <= i < |"acme"| ==> IsAsciiAlnum("acme"[i]);
    assert "acme" + " oration" == "acme oration";
    assert "acme" + "oration" == "acmeoration";
    CorporationKeepAlnumTail();
    KeepAlnumOfAlnum("acme");
    KeepAlnumConcat("acme", " oration");
  }

  lemma CorporationLabel()
    ensures Label("Acme Corporation") == "acmeoration"
  {
    assert Lower("Acme Corporation") == "acme corporation";
    LabelUnfolded("Acme Corporation");
    CorporationStripped();
    CorporationKeepAlnum();
  }

  lemma CorporationAloneKeptWordsBefore()
    ensures Remove("corporation", "pvt") == "corporation"
    ensures Remove("corporation", "ltd") == "corporation"
    ensures Remove("corporation", "limited") == "corporation"
  {
    assert 'v' !in "corporation" && 'l' !in "corporation";
    RemoveMissingChar("corporation", "pvt", 'v');
    RemoveMissingChar("corporation", "ltd", 'l');
    RemoveMissingChar("corporation", "limited", 'l');
  }

  /** The "i" of "ion" starts no "inc". */
  lemma CorporationAloneKeepsInc()
    ensures Remove("corporation", "inc") == "corporation"
  {
    assert 'i' !in "corporat";
    assert ([('i')] + "on")[..3][1] != "inc"[1];
    assert "corporat" + ([('i')] + "on") == "corporation";
    RemoveShort("on", "inc");
    RemoveKeepChar('i', "on", "inc");
    RemoveSkipPrefix("corporat", [('i')] + "on", "inc");
  }

  /** The word opens with "corp", which goes; no other "c" is left. */
  lemma CorporationAloneLosesCorp()
    ensures Remove("corporation", "corp") == "oration"
  {
    assert "corp" + "oration" == "corporation";
    assert 'c' !in "oration";
    RemoveLeading("corp", "oration");
    RemoveMissingChar("oration", "corp", 'c');
  }

  lemma CorporationAloneKeptWordsAfter()
    ensures Remove("oration", "corporation") == "oration"
    ensures Remove("oration", "solutions") == "oration"
    ensures Remove("oration", "technologies") == "oration"
    ensures Remove("oration", "india") == "oration"
  {
    assert 'p' !in "oration" && 'u' !in "oration";
    assert 'h' !in "oration" && 'd' !in "oration";
    RemoveMissingChar("oration", "corporation", 'p');
    RemoveMissingChar("oration", "solutions", 'u');
    RemoveMissingChar("oration", "technologies", 'h');
    RemoveMissingChar("oration", "india", 'd');
  }

  lemma CorporationAloneStripped()
    ensures StripWords("corporation", 9) == "oration"
  {
    CorporationAloneKeptWordsBefore();
    CorporationAloneKeepsInc();
    CorporationAloneLosesCorp();
    CorporationAloneKeptWordsAfter();
  }

  lemma CorporationAloneKeepAlnum()
    ensures KeepAlnum("oration") == "oration"
  {
    assert forall i :: 0 <= i < |"oration"| ==> IsAsciiAlnum("oration"[i]);
    KeepAlnumOfAlnum("oration");
  }

  lemma CorporationAloneLabel()
    ensures Label("Corporation") == "oration"
  {
    assert Lower("Corporation") == "corporation";
    LabelUnfolded("Corporation");
    CorporationAloneStripped();
    CorporationAloneKeepAlnum();
  }

  /** A name made only of a listed word can still leave letters: "corp" is
      deleted first, so "Corporation" keeps "oration" and the address is not
      the bare domain. */
  lemma CorporationAloneExample()
    ensures CorporateEmail("Corporation") == "hr@oration.com"
  {
    CorporationAloneLabel();
  }

  /** "corp" is deleted before "corporation" is looked for, so "Corporation"
      loses only its first four letters. */
  lemma CorporationExample()
    ensures CorporateEmail("Acme Corporation") == "hr@acmeoration.com"
  {
    CorporationLabel();
  }

  // ---------------------------------------------------------------------
  // search_jobs

  /** One row of the job board's table. `company` is None when the cell is
      not a string (a missing value), on which `.lower()` raises. */
  datatype Row = Row(title: string, company: Option<string>, jobUrl: string)

  /** What the job board call gives back: a table, no table (None or empty
      frame), or an exception. */
  datatype ProviderOutcome = Table(rows: seq<Row>) | NoTable | Raises

  /** A posting dict as it travels from the scraper to the ingest loop.
      `email` and `requiredSkills` are None when the dict lacks that key. */
  datatype Posting = Posting(
    title: string,
    company: string,
    link: string,
    email: Option<string>,
    requiredExperience: string,
    requiredSkills: Option<string>)

  const DefaultSearchTerm: string := "AI Engineer"

  /** The term the job board is asked for: the first skill, else the default. */
  function SearchTerm(skills: seq<string>): string {
    if |skills| > 0 then skills[0] else DefaultSearchTerm
  }

  /** `f"{experience}+ years"`. */
  function ExperienceText(experience: Value): string {
    Show(experience) + "+ years"
  }

  /** The dict built for one row whose company is a string; it has no
      'required_skills' key. */
  function ToPosting(row: Row, experience: Value): Posting
    requires row.company.Some?
  {
    Posting(row.title, row.company.value, row.jobUrl, Some(CorporateEmail(row.company.value)),
            ExperienceText(experience), None)
  }

  /** The loop over the rows: None as soon as a row's company is not a string. */
  function Normalize(rows: seq<Row>, experience: Value): Option<seq<Posting>>
    decreases |rows|
  {
    if rows == [] then Some([])
    else match Normalize(rows[..|rows| - 1], experience)
      case None => None
      case Some(done) =>
        var row := rows[|rows| - 1];
        if row.company.None? then None else Some(done + [ToPosting(row, experience)])
  }

  /** What `search_jobs` returns for a given answer of the job board: the
      postings, or the empty list on no table, an empty table or an exception. */
  function SearchResult(outcome: ProviderOutcome, experience: Value): seq<Posting> {
    match outcome
    case Table(rows) =>
      if rows == [] then []
      else (match Normalize(rows, experience) case Some(ps) => ps case None => [])
    case NoTable => []
    case Raises => []
  }

  /** `scrape_jobs` is called but never imported, so the call raises NameError
      whatever the term; this is the job board the module ships with. */
  function ShippedProvider(term: string): ProviderOutcome {
    Raises
  }

  lemma ShippedSearchFindsNothing(skills: seq<string>, experience: Value)
    ensures SearchResult(ShippedProvider(SearchTerm(skills)), experience) == []
  {
  }

  /** Normalize succeeds exactly when every company is a string, and then maps
      row k to posting k. */
  lemma {:induction false} NormalizeCharacterized(rows: seq<Row>, experience: Value)
    ensures Normalize(rows, experience).Some? <==>
      (forall k :: 0 <= k < |rows| ==> rows[k].company.Some?)
    ensures Normalize(rows, experience).Some? ==>
      var ps := Normalize(rows, experience).value;
      |ps| == |rows| && forall k :: 0 <= k < |rows| ==> ps[k] == ToPosting(rows[k], experience)
    decreases |rows|
  {
    if rows != [] {
      var front := rows[..|rows| - 1];
      NormalizeCharacterized(front, experience);
      assert forall k :: 0 <= k < |front| ==> front[k] == rows[k];
    }
  }

  /** search_jobs returns one posting per row, in row order, carrying the row's
      title, company and URL, the derived address, "<experience>+ years" and no
      'required_skills' key; otherwise (no table, an empty table, an exception,
      a company that is not a string) it returns the empty list. */
  lemma SearchResultCharacterized(outcome: ProviderOutcome, experience: Value)
    ensures var r := SearchResult(outcome, experience);
      r != [] <==> (outcome.Table? && outcome.rows != []
                    && forall k :: 0 <= k < |outcome.rows| ==> outcome.rows[k].company.Some?)
    ensures var r := SearchResult(outcome, experience);
      r != [] ==> |r| == |outcome.rows| && forall k :: 0 <= k < |r| ==>
        && r[k].title == outcome.rows[k].title
        && Some(r[k].company) == outcome.rows[k].company
        && r[k].link == outcome.rows[k].jobUrl
        && r[k].email == Some(CorporateEmail(r[k].company))
        && r[k].requiredExperience == Show(experience) + "+ years"
        && r[k].requiredSkills == None
  {
    if outcome.Table? && outcome.rows != [] {
      NormalizeCharacterized(outcome.rows, experience);
    }
  }

  /** No posting the scraper produces carries a 'required_skills' key. */
  lemma SearchResultLacksRequiredSkills(outcome: ProviderOutcome, experience: Value)
    ensures forall p :: p in SearchResult(outcome, experience) ==> p.requiredSkills.None?
  {
    SearchResultCharacterized(outcome, experience);
  }

  /** `search_jobs`: ask the job board for the search term once, then build one
      posting per row; any exception gives the empty list. */
  method SearchJobs(skills: seq<string>, experience: Value, provider: string -> ProviderOutcome)
    returns (finalJobs: seq<Posting>)
    ensures finalJobs == SearchResult(provider(SearchTerm(skills)), experience)
  {
    var searchTerm := SearchTerm(skills);
    var jobs := provider(searchTerm);
    if !jobs.Table? || jobs.rows == [] {
      return [];
    }
    var rows := jobs.rows;
    finalJobs := [];
    for i := 0 to |rows|
      invariant Normalize(rows[..i], experience) == Some(finalJobs)
    {
      assert rows[..i + 1][..i] == rows[..i];
      var row := rows[i];
      if row.company.None? {
        NormalizeCharacterized(rows, experience);
        return [];
      }
      var email := GenerateCorporateEmail(row.company.value);
      finalJobs := finalJobs + [Posting(row.title, row.company.value, row.jobUrl, Some(email),
                                        ExperienceText(experience), None)];
    }
    assert rows[..|rows|] == rows;
  }
}
