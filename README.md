# cold-mail-generator: a Dafny model of the job pipeline backend

This project models the backend of the cold-mail generator's job agent. A
user signs up and uploads a resume, and the backend stores the extracted
skills. It then searches a job board for postings and is meant to store each
new posting as a job row. The user applies to a job by mail, and the job is
meant to be marked "applied". As shipped, neither of those two writes ever
happens (see the list below). Every proof is about this model.

- `common.dfy` (module `Common`): optional values, and the scalars the
  backend keeps in its columns (an integer, a string, or NULL). It also
  holds how an f-string renders those scalars, and a decimal round trip.
- `strings.dfy` (module `Strings`): the Python string operations the code
  uses, each on its own terms:
  - `lower` (ASCII letters),
  - `replace(w, "")`, which deletes substrings left to right without overlap,
  - the `[^a-zA-Z0-9]` filter,
  - `strip`,
  - `split` on one character,
  - `splitlines`,
  - `join`.
- `scraper.py` is modelled in `scraper.dfy` (module `Scraper`):
  - the contact-address heuristic `generate_corporate_email`;
  - `search_jobs`, which picks the search term and maps each row the job
    board returns to a posting record.
- `mailer.dfy` (module `Mailer`) models `mailer.py`:
  - the composed message: the decoded model reply, or the fixed fallback
    template;
  - `send_email`: the header check the email library makes before the
    SMTP session, then whether the SMTP exchange raised.
- `main.py` is modelled in `store.dfy` (module `Store`):
  - the users and jobs tables, held as sequences with id counters in
    `class Database`;
  - the handlers `signup`, `upload_resume`, `run_scraping_logic`,
    `search_jobs`, `get_jobs` and `apply_to_job`.
  The ingest loop and the apply request are also pure functions (`Ingest`,
  `Apply`), which the methods are proved against. The lemmas about them state
  what the code promises.

The model follows the code as written. These behaviours are proved as they
are, not corrected:
- Each listed corporate word is deleted as a raw substring, in list order.
  So "Princeton" gives `hr@preton.com`. "corp" is deleted before
  "corporation", so "Acme Corporation" gives `hr@acmeoration.com`.
- A name made only of listed words can still leave letters behind:
  "Corporation" gives `hr@oration.com`, because "corp" goes first
  (`CorporationAloneExample`). The bare `hr@.com` is certain only for a name
  without ASCII letters or digits (`NoLettersOrDigitsGivesBareDomain`).
- `scrape_jobs` is never imported in `scraper.py`, so the shipped search
  always fails and returns the empty list (`ShippedSearchFindsNothing`).
- The ingest loop reads `required_skills`, which the scraper never sets.
  Any run that meets a new posting therefore raises `KeyError` and
  rolls back. Whatever the job board answers, a run adds nothing
  (`RunNeverInserts`).
- The link check is global across users. It sees only committed rows,
  because autoflush is off. So a new link repeated within one batch would be
  added twice if its posting carried `required_skills`
  (`RepeatWithinBatchInsertedTwice`). No posting from the scraper does.
- `apply_to_job` reads `job.user_id` before checking that the job exists.
  An unknown id therefore raises `AttributeError`.
- There is no guard against applying twice (`ApplyHasNoAppliedGuard`).
- `datetime` is never imported. The clock is a parameter `now`, and `None`
  stands for the module as shipped. In that case a successful send raises
  `NameError`, and nothing is committed (`ShippedApplyNeverCommits`).
- `send_email` sets the Subject and To headers before its `try`. The
  email library refuses a header value with a line break followed by more
  text. So a custom address such as `a@b.com` + line feed + `Bcc: c@d.com`,
  or a job title holding a line break when the fallback subject is used,
  makes the call raise `ValueError` instead of returning False. Nothing is
  sent and nothing is committed
  (`ApplyHeaderBreakRaises`, `BrokenTitleRejected`).

A reader might expect the following behaviours, but the code has none of them
(so neither does the model):
- whole-word removal of the corporate words;
- a placeholder label for an empty name;
- deduplication per user;
- an already-applied guard;
- a search per skill;
- a contact address taken from the provider.

## Model

| member | source | states |
|---|---|---|
| Common.IntToStringRoundTrip | job_ai_agent/backend/scraper.py:49 | the decimal text an f-string writes for an integer experience reads back as the same integer |
| Strings.KeepAlnumSubset | job_ai_agent/backend/scraper.py:15 | the `[^a-zA-Z0-9]` substitution only deletes: every kept character was in the input |
| Strings.KeepAlnumOfAlnum | job_ai_agent/backend/scraper.py:15 | text made only of ASCII letters and digits passes the filter unchanged |
| Strings.KeepAlnumOfNonAlnum | job_ai_agent/backend/scraper.py:15 | text without ASCII letters or digits filters to the empty string |
| Strings.RemoveSubset | job_ai_agent/backend/scraper.py:12 | `replace(w, "")` never brings in a character that was not there |
| Strings.RemoveAbsent | job_ai_agent/backend/scraper.py:12 | deleting a word that does not occur leaves the text unchanged |
| Strings.RemoveSkipPrefix | job_ai_agent/backend/scraper.py:12 | a prefix that cannot start the word passes through the deletion untouched |
| Strings.RemoveLeading | job_ai_agent/backend/scraper.py:12 | an occurrence at the front is deleted whatever follows it (substring, not whole word) |
| Strings.StripStripped | job_ai_agent/backend/main.py:115 | `strip` leaves text without outer whitespace unchanged |
| Strings.StripSpaceBefore | job_ai_agent/backend/main.py:115 | `strip` removes the single space that `", "` puts before a stripped entry |
| Strings.JoinSplit | job_ai_agent/backend/main.py:115 | splitting on a character and joining back with it gives the text again |
| Strings.SplitJoin | job_ai_agent/backend/main.py:115 | joining a non-empty list of separator-free pieces and splitting again gives the pieces back |
| Strings.SplitJoinedWithSpace | job_ai_agent/backend/main.py:99-115 | splitting a `", "`-joined list on ',' gives the first entry as it was and every later one behind one space |
| Strings.SplitFirstPiece | job_ai_agent/backend/main.py:178 | the first piece of a split is the text before the first separator |
| Scraper.GenerateCorporateEmail | job_ai_agent/backend/scraper.py:5-22 | the replace loop deletes the listed words in list order; the result is `CorporateEmail` of the name |
| Scraper.StripWordsSubset | job_ai_agent/backend/scraper.py:10-12 | deleting the listed words never brings in a character |
| Scraper.CorporateEmailShape | job_ai_agent/backend/scraper.py:9-22 | the address is exactly `"hr@" + label + ".com"`; the label has only lower-case ASCII letters and digits; the only '@' is at index 2 |
| Scraper.CorporateEmailIgnoresCase | job_ai_agent/backend/scraper.py:9 | names equal up to ASCII case give the same address |
| Scraper.NoLettersOrDigitsGivesBareDomain | job_ai_agent/backend/scraper.py:15-22 | an empty name, or one without ASCII letters or digits, gives exactly `hr@.com`; no placeholder |
| Scraper.RemoveOnce | job_ai_agent/backend/scraper.py:12 | a single occurrence after a prefix that cannot start the word is deleted and the rest is kept |
| Scraper.PrincetonExample | job_ai_agent/backend/scraper.py:10-22 | "Princeton" gives `hr@preton.com`: "inc" goes from inside the word |
| Scraper.AcmeSolutionsExample | job_ai_agent/backend/scraper.py:10-22 | "Acme Solutions Pvt Ltd" gives `hr@acme.com` |
| Scraper.CorporationExample | job_ai_agent/backend/scraper.py:10-22 | "Acme Corporation" gives `hr@acmeoration.com`: "corp" is deleted before "corporation" can match |
| Scraper.CorporationAloneExample | job_ai_agent/backend/scraper.py:10-22 | "Corporation" alone gives `hr@oration.com`, not the bare domain: "corp" is deleted first and "oration" is left |
| Scraper.NormalizeCharacterized | job_ai_agent/backend/scraper.py:39-51 | the row loop succeeds exactly when every company is a string, and then maps row k to posting k |
| Scraper.SearchResultCharacterized | job_ai_agent/backend/scraper.py:24-54 | one posting per row in row order: title, company, `job_url` as link, the derived address, `"<experience>+ years"`, no `required_skills`; no table, an empty table or an exception gives `[]` |
| Scraper.SearchResultLacksRequiredSkills | job_ai_agent/backend/scraper.py:44-50 | no posting carries a `required_skills` key |
| Scraper.ShippedSearchFindsNothing | job_ai_agent/backend/scraper.py:26-54 | with `scrape_jobs` unbound, the search returns `[]` whatever the skills |
| Scraper.SearchJobs | job_ai_agent/backend/scraper.py:24-54 | asks the board once for the first skill or "AI Engineer", and returns `SearchResult` of its answer |
| Mailer.GeneratePersonalizedEmail | job_ai_agent/backend/mailer.py:11-39 | when the model call or decoding raises, "subject" holds the fallback subject and "body" the fallback body |
| Mailer.ComposerOutcomeDecides | job_ai_agent/backend/mailer.py:32-39 | a decoded object is returned unchanged, with no key check; any failure gives the fallback template: exactly the keys "subject" and "body", holding the fallback subject and body |
| Mailer.FallbackSubjectLayout | job_ai_agent/backend/mailer.py:37 | the fallback subject is exactly "Application for ", the title, " - ", the user name (fixed prefix, both values at their offsets, length 19 plus the two values) |
| Mailer.FallbackBodyOrder | job_ai_agent/backend/mailer.py:38 | the fallback body holds the title, experience, skills, link and user name at fixed offsets in that order; the name ends it |
| Mailer.FallbackIgnoresCompany | job_ai_agent/backend/mailer.py:36-39 | the fallback does not depend on the company |
| Strings.MultipleLinesCharacterized | job_ai_agent/backend/mailer.py:43-45 | `splitlines()` gives more than one line exactly when a line break is followed by more text ("\r\n" is one break; a final break adds no line) |
| Mailer.HeaderRejectedCharacterized | job_ai_agent/backend/mailer.py:43-45 | setting a header refuses a value exactly when some line break in it is followed by more text |
| Mailer.BrokenTitleRejected | job_ai_agent/backend/mailer.py:37-43 | a job title with any line break makes the fallback subject a refused header |
| Mailer.SendEmailOutcomes | job_ai_agent/backend/mailer.py:41-55 | `send_email` raises ValueError exactly when the subject or recipient has a line break followed by text; otherwise it is true exactly when the SMTP exchange raises nothing |
| Store.FindFirst | job_ai_agent/backend/main.py:70 | `.first()` returns the first matching row, and None exactly when no row matches |
| Store.SplitSkills | job_ai_agent/backend/main.py:115 | the split skills list is never empty and every entry is stripped |
| Store.SkillsRoundTrip | job_ai_agent/backend/main.py:99-115 | a non-empty list stored by `", "`-joining, with no comma or outer whitespace in any entry, reads back as the same list |
| Store.EntryWithCommaSplits | job_ai_agent/backend/main.py:99-115 | an entry holding ", " comes back as two skills |
| Store.UnstoredCharacterized | job_ai_agent/backend/main.py:118-120 | the postings that pass the link check are exactly the batch's postings whose link no stored job has |
| Store.IngestCharacterized | job_ai_agent/backend/main.py:118-132 | the loop completes exactly when every unstored posting has `required_skills`; then it adds one "found" row per unstored posting, in order, with consecutive ids |
| Store.InsertedJobs | job_ai_agent/backend/main.py:118-130 | no added row repeats a link stored before the run (any user); each has the run's user id, "found", no date, and the title/company/link/address of a batch posting |
| Store.AllStoredInsertsNothing | job_ai_agent/backend/main.py:118-120 | a batch whose links are all stored adds nothing |
| Store.RerunInsertsNothing | job_ai_agent/backend/main.py:118-132 | running the same batch again after a committed run adds nothing |
| Store.RepeatWithinBatchInsertedTwice | job_ai_agent/backend/main.py:118-131 | given twice in one batch, an unstored posting that carries `required_skills` is added twice, since autoflush is off (no scraper posting carries it) |
| Store.IngestKeepsLinksUnique | job_ai_agent/backend/main.py:118-132 | unique links stay unique after a run whose batch has distinct links |
| Store.IngestKeepsInvariants | job_ai_agent/backend/main.py:121-132 | a committed run keeps each id at its position and the status/date agreement, and keeps every stored row |
| Store.IngestAbortIsFinal | job_ai_agent/backend/main.py:118-134 | once the loop raises, the rest of the batch cannot bring the run back |
| Store.IngestRows | job_ai_agent/backend/main.py:118-131 | the loop yields the pending rows `Ingest` describes, or None when it raises |
| Store.RunNeverInserts | job_ai_agent/backend/main.py:112-136 | whatever the job board answers, a run leaves the jobs table and its counter unchanged |
| Store.UserNameIsLocalPart | job_ai_agent/backend/main.py:178 | the user name is the address's text before its first '@' |
| Store.DeliverOutcomes | job_ai_agent/backend/main.py:177-199 | the send part succeeds exactly when a message was handed over, the exchange accepted it and a clock exists; failed sends give 500; a handed-over message has headers the policy accepts, and a refused recipient raises before the send; with a failed model call the fallback subject and body are sent, or ValueError is raised; crashes are only KeyError, ValueError or NameError; the shipped module raises NameError after a delivered send |
| Store.ApplyCommitsOnlyOnSuccess | job_ai_agent/backend/main.py:187-199 | an error leaves the table unchanged; success means the exchange accepted the message, and only the requested job becomes "applied" with the time |
| Store.ApplyRecipientChoice | job_ai_agent/backend/main.py:171 | the message goes to the custom address when it holds an '@', else to the job's stored address |
| Store.ApplyMissingRecipient | job_ai_agent/backend/main.py:171-174 | 400 "Recipient email is missing" exactly when the custom address lacks '@' and the stored one is absent or empty; then nothing is sent or changed |
| Store.ApplyLookupFailures | job_ai_agent/backend/main.py:164-168 | an unknown job id raises AttributeError; a job without an owner gives 404; neither sends anything |
| Store.ApplyHeaderBreakRaises | job_ai_agent/backend/main.py:171-191 | a custom address with '@' and a line break followed by text makes the request crash (ValueError with the fallback): nothing is sent and nothing changes |
| Store.DerivedAddressAccepted | job_ai_agent/backend/mailer.py:45 | an address made by the corporate-address heuristic is never refused as the To header |
| Store.ApplyHasNoAppliedGuard | job_ai_agent/backend/main.py:162-199 | a job already applied to is mailed exactly as if it were still "found" |
| Store.SameIdsSameIndex | job_ai_agent/backend/main.py:164 | the job lookup depends only on the ids |
| Store.ShippedApplyNeverCommits | job_ai_agent/backend/main.py:193-196 | without a clock, applying never changes the table, and a send that went through ends in NameError |
| Store.ApplyKeepsInvariants | job_ai_agent/backend/main.py:193-196 | applying keeps ids at their positions and the status/date agreement, and never takes a job back from "applied" |
| Store.OwnedBy | job_ai_agent/backend/main.py:157 | a job is listed exactly when it is in the table and owned by the user |
| Store.Database.constructor | job_ai_agent/backend/main.py:28-49 | the tables start empty with ids from 1 |
| Store.Database.Signup | job_ai_agent/backend/main.py:69-78 | a registered address gives 400 and changes nothing; otherwise exactly one user is appended with the next id and no skills; emails stay unique |
| Store.Database.UploadResume | job_ai_agent/backend/main.py:91-107 | an unknown address gives 404 and changes nothing; otherwise only that user's skills (joined by ", ") and experience change |
| Store.Database.RunScrapingLogic | job_ai_agent/backend/main.py:112-136 | the jobs table and counter become `AfterRun` of the old ones (one commit, all or nothing); users untouched; no status reverts |
| Store.Database.SearchJobs | job_ai_agent/backend/main.py:139-149 | 404 for an unknown address and 400 for missing or empty skills, with no change; otherwise the run for the stored skills and experience, and "Job search started" |
| Store.Database.GetJobs | job_ai_agent/backend/main.py:152-158 | 404 exactly for an unknown address; otherwise exactly the jobs owned by that user |
| Store.Database.ApplyToJob | job_ai_agent/backend/main.py:163-199 | response, message sent and new jobs table are those of `Apply`; users and counters unchanged; invariants kept |

## Left out

- Login (`main.py:80-86`), the Streamlit frontend, the standalone
  scraping script, and the resume parser's PDF extraction. The parser's
  result is passed to `UploadResume` as a skills list and an experience
  value.
- Password hashing (SHA-256, then bcrypt): `Signup` receives the hash.
- The language model call and the prompt text. The call is a
  `ComposerOutcome`: a decoded object with string fields, or a failure.
  A decoded value that is not an object, or has non-string fields, is
  not modelled.
- The SMTP session (server, credentials, implicit TLS on port 587). It is
  a function from the message to the error it raises, if any.
- Mailer.SendEmail: of the email library, only the line-break check on
  header values is modelled. Parsing of the To address, encoding of
  non-ASCII headers and `set_content` are taken never to raise.
- `scrape_jobs` is a function from the search term to a table, no table,
  or an exception. Its site list, location, result count and age limit
  are not modelled. Titles and URLs are taken to be strings. A company
  cell that is not a string is modelled as missing, on which `.lower()`
  raises.
- SQLAlchemy and SQLite become in-memory sequences with counters. Ids are
  taken to be handed out as 1, 2, 3, … with no row deleted (the rowid
  rule with no deletions). Column types are not enforced. The unique
  index on email is enforced only through the handler's check.
- `BackgroundTasks`: the run happens inside `SearchJobs` rather than after
  the reply. Overlapping runs and concurrent applies are not modelled.
- The clock is a parameter of `ApplyToJob`, and `None` stands for the
  missing `datetime` import.
- Error printing, FastAPI request validation, and the JSON serialisation
  of replies.
- Strings.Lower: lower-cases ASCII letters only. Python's `str.lower` also
  maps non-ASCII letters, so labels derived from such names are not
  modelled faithfully.
- Store.Database.UploadResume: does not model a parser result without
  "skills" or "experience" keys. The parser always returns both.
- Store.Database.UploadResume: experience is an integer, a string or
  NULL. The parser hands over any JSON value, so a float or a boolean
  (shown as "2.5" or "True" in the fallback body and in
  `"<experience>+ years"`) is not modelled. Neither are skills that are
  not strings.
