/** The backend service of backend/main.py: the users and jobs tables held in
    memory with their id counters, and the handlers that read and change them.
    Hashing, the resume parser, the job board, the language model, the SMTP
    session and the clock are parameters. */
module Store {
  import opened Common
  import opened Strings
  import Scraper
  import Mailer

  // ---------------------------------------------------------------------
  // Rows, replies and lookups

  /** A row of the users table. `skills` and `experience` are NULL until the
      first resume upload. */
  datatype User = User(id: nat, email: string, hashedPassword: string,
                       skills: Option<string>, experience: Value)

  /** The status column: "found" when a job is stored, "applied" once mailed. */
  datatype Status = Found | Applied

  /** What `datetime.now()` would give; only its presence matters here. */
  type Timestamp = nat

  /** A row of the jobs table. */
  datatype Job = Job(id: nat, userId: nat, title: string, company: string, link: string,
                     requiredSkills: string, requiredExperience: string,
                     email: Option<string>, status: Status, dateApplied: Option<Timestamp>)

  /** The body of a successful reply. */
  datatype Reply =
    | Message(text: string)
    | ResumeParsed(message: string, skills: seq<string>, experience: Value)
    | JobList(jobs: seq<Job>)
    | Delivered(status: string, sentTo: string)

  /** How a request ends: a reply, an HTTPException, or an uncaught exception
      (a server error). */
  datatype Response = Ok(reply: Reply) | HttpError(code: nat, detail: string) | Crash(exception: string)

  /** A message handed to the SMTP exchange. */
  datatype Mail = Mail(recipient: string, subject: string, body: string)

  /** `query(...).filter(p).first()`: the position of the first row that
      satisfies the filter. */
  function FindFirst<T>(s: seq<T>, p: T -> bool): (r: Option<nat>)
    ensures r.Some? ==> r.value < |s| && p(s[r.value]) && forall j :: 0 <= j < r.value ==> !p(s[j])
    ensures r.None? ==> forall j :: 0 <= j < |s| ==> !p(s[j])
  {
    if s == [] then None
    else if p(s[0]) then Some(0)
    else match FindFirst(s[1..], p)
      case None => None
      case Some(k) => Some(k + 1)
  }

  function UserByEmail(users: seq<User>, email: string): Option<nat> {
    FindFirst(users, (u: User) => u.email == email)
  }

  function UserById(users: seq<User>, id: int): Option<nat> {
    FindFirst(users, (u: User) => u.id == id)
  }

  function JobById(jobs: seq<Job>, id: int): Option<nat> {
    FindFirst(jobs, (j: Job) => j.id == id)
  }

  predicate Registered(users: seq<User>, email: string) {
    exists i :: 0 <= i < |users| && users[i].email == email
  }

  predicate HasUserId(users: seq<User>, id: int) {
    exists k :: 0 <= k < |users| && users[k].id == id
  }

  /** Some stored job, whoever owns it, has this link. */
  predicate LinkStored(stored: seq<Job>, link: string) {
    exists i :: 0 <= i < |stored| && stored[i].link == link
  }

  // ---------------------------------------------------------------------
  // Table invariants

  predicate EmailsUnique(users: seq<User>) {
    forall i, j :: 0 <= i < j < |users| ==> users[i].email != users[j].email
  }

  /** Ids are handed out from 1 upwards and no row is ever deleted, so the
      row at position i has id i + 1. */
  predicate UserIdsArePositions(users: seq<User>) {
    forall i :: 0 <= i < |users| ==> users[i].id == i + 1
  }

  predicate JobIdsArePositions(jobs: seq<Job>) {
    forall i :: 0 <= i < |jobs| ==> jobs[i].id == i + 1
  }

  /** A job carries an application date exactly when it has been applied to. */
  predicate StatusConsistent(jobs: seq<Job>) {
    forall i :: 0 <= i < |jobs| ==> (jobs[i].status == Applied <==> jobs[i].dateApplied.Some?)
  }

  /** Every job stored before is still there under its id, and none that was
      applied to is back to "found". */
  predicate NeverReverts(before: seq<Job>, after: seq<Job>) {
    && |before| <= |after|
    && (forall i :: 0 <= i < |before| ==> after[i].id == before[i].id)
    && (forall i :: 0 <= i < |before| && before[i].status == Applied ==> after[i].status == Applied)
  }

  predicate LinksUnique(jobs: seq<Job>) {
    forall i, j :: 0 <= i < j < |jobs| ==> jobs[i].link != jobs[j].link
  }

  // ---------------------------------------------------------------------
  // Skills: stored joined by ", ", read back split on "," and stripped

  /** `[s.strip() for s in skills_str.split(",")]`. */
  function SplitSkills(skillsStr: string): (r: seq<string>)
    ensures |r| >= 1 && forall i :: 0 <= i < |r| ==> Stripped(r[i])
  {
    var pieces := Split(skillsStr, ',');
    seq(|pieces|, i requires 0 <= i < |pieces| => Strip(pieces[i]))
  }

  /** What an upload stores is read back by a search as the same list, when
      the list is non-empty and no entry holds a comma or outer whitespace. */
  lemma SkillsRoundTrip(skills: seq<string>)
    requires |skills| >= 1
    requires forall i :: 0 <= i < |skills| ==> ',' !in skills[i] && Stripped(skills[i])
    ensures SplitSkills(Join(skills, ", ")) == skills
  {
    SplitJoinedWithSpace(skills);
    var r := SplitSkills(Join(skills, ", "));
    forall i | 0 <= i < |skills| ensures r[i] == skills[i] {
      if i == 0 {
        StripStripped(skills[0]);
      } else {
        StripSpaceBefore(skills[i]);
      }
    }
  }

  /** An entry that holds ", " comes back as two skills. */
  lemma EntryWithCommaSplits(a: string, b: string, c: string)
    requires ',' !in a && ',' !in b && ',' !in c
    requires Stripped(a) && Stripped(b) && Stripped(c)
    ensures SplitSkills(Join([a, b + ", " + c], ", ")) == [a, b, c]
  {
    assert Join([a, b + ", " + c], ", ") == Join([a, b, c], ", ") by {
      assert [a, b, c][1..] == [b, c];
      assert [b, c][1..] == [c];
      assert [a, b + ", " + c][1..] == [b + ", " + c];
      assert Join([b, c], ", ") == b + ", " + c;
      assert Join([a, b, c], ", ") == a + ", " + (b + ", " + c);
      assert Join([a, b + ", " + c], ", ") == a + ", " + (b + ", " + c);
    }
    SkillsRoundTrip([a, b, c]);
  }

  // ---------------------------------------------------------------------
  // The ingest loop of run_scraping_logic

  /** The row added for a posting that passed the link check. */
  function NewJob(id: nat, userId: nat, p: Scraper.Posting): Job
    requires p.requiredSkills.Some?
  {
    Job(id, userId, p.title, p.company, p.link, p.requiredSkills.value, p.requiredExperience,
        p.email, Found, None)
  }

  /** The rows pending when the loop over `batch` ends, with ids handed out
      from `firstId`; None when the loop raises. The link check only sees
      `stored`: pending rows are not flushed, so a link repeated within the
      batch is added again. Reading 'required_skills' from a posting that
      lacks it raises KeyError. */
  function Ingest(stored: seq<Job>, batch: seq<Scraper.Posting>, userId: nat, firstId: nat)
    : Option<seq<Job>>
    decreases |batch|
  {
    if batch == [] then Some([])
    else match Ingest(stored, batch[..|batch| - 1], userId, firstId)
      case None => None
      case Some(pending) =>
        var p := batch[|batch| - 1];
        if LinkStored(stored, p.link) then Some(pending)
        else if p.requiredSkills.None? then None
        else Some(pending + [NewJob(firstId + |pending|, userId, p)])
  }

  /** The postings of a batch whose link is not stored yet, in batch order. */
  function Unstored(stored: seq<Job>, batch: seq<Scraper.Posting>): seq<Scraper.Posting>
    decreases |batch|
  {
    if batch == [] then []
    else
      var front := Unstored(stored, batch[..|batch| - 1]);
      var p := batch[|batch| - 1];
      if LinkStored(stored, p.link) then front else front + [p]
  }

  lemma {:induction false} UnstoredCharacterized(stored: seq<Job>, batch: seq<Scraper.Posting>)
    ensures forall p :: p in Unstored(stored, batch) <==> p in batch && !LinkStored(stored, p.link)
    decreases |batch|
  {
    if batch != [] {
      var front := batch[..|batch| - 1];
      UnstoredCharacterized(stored, front);
      assert batch == front + [batch[|batch| - 1]];
    }
  }

  /** The loop succeeds exactly when every unstored posting has
      'required_skills', and then adds one "found" row per unstored posting,
      in order, with consecutive ids. */
  lemma {:induction false} IngestCharacterized(stored: seq<Job>, batch: seq<Scraper.Posting>,
                                               userId: nat, firstId: nat)
    ensures Ingest(stored, batch, userId, firstId).Some?
      <==> forall k :: 0 <= k < |Unstored(stored, batch)| ==>
             Unstored(stored, batch)[k].requiredSkills.Some?
    ensures var u := Unstored(stored, batch);
      var r := Ingest(stored, batch, userId, firstId);
      r.Some? ==> |r.value| == |u| && forall k :: 0 <= k < |u| ==>
        u[k].requiredSkills.Some? && r.value[k] == NewJob(firstId + k, userId, u[k])
    decreases |batch|
  {
    if batch != [] {
      var front := batch[..|batch| - 1];
      IngestCharacterized(stored, front, userId, firstId);
      var uf := Unstored(stored, front);
      var u := Unstored(stored, batch);
      var p := batch[|batch| - 1];
      var rf := Ingest(stored, front, userId, firstId);
      var r := Ingest(stored, batch, userId, firstId);
      if LinkStored(stored, p.link) {
        assert u == uf;
        assert r == rf;
      } else {
        assert u == uf + [p];
        assert u[|uf|] == p;
        assert forall k :: 0 <= k < |uf| ==> u[k] == uf[k];
        if rf.None? {
          assert r.None?;
          var k :| 0 <= k < |uf| && uf[k].requiredSkills.None?;
          assert u[k].requiredSkills.None?;
        } else if p.requiredSkills.None? {
          assert r.None?;
          assert u[|uf|].requiredSkills.None?;
        } else {
          assert r == Some(rf.value + [NewJob(firstId + |rf.value|, userId, p)]);
          forall k | 0 <= k < |u| ensures u[k].requiredSkills.Some? {
            if k < |uf| {
              assert u[k] == uf[k];
            }
          }
        }
      }
    }
  }

  /** No inserted row repeats the link of a row stored before the run, of any
      user; each carries the run's user id, status "found", no date, and the
      title, company, link and address of a posting of the batch. */
  lemma InsertedJobs(stored: seq<Job>, batch: seq<Scraper.Posting>, userId: nat, firstId: nat)
    ensures var r := Ingest(stored, batch, userId, firstId);
      r.Some? ==> forall k :: 0 <= k < |r.value| ==>
        var j := r.value[k];
        && !LinkStored(stored, j.link)
        && j.id == firstId + k && j.userId == userId && j.status == Found && j.dateApplied == None
        && exists p :: p in batch && p.title == j.title && p.company == j.company
                       && p.link == j.link && p.email == j.email
  {
    IngestCharacterized(stored, batch, userId, firstId);
    UnstoredCharacterized(stored, batch);
    var u := Unstored(stored, batch);
    var r := Ingest(stored, batch, userId, firstId);
    if r.Some? {
      forall k | 0 <= k < |r.value|
        ensures !LinkStored(stored, r.value[k].link)
        ensures exists p :: p in batch && p.title == r.value[k].title
                  && p.company == r.value[k].company && p.link == r.value[k].link
                  && p.email == r.value[k].email
      {
        assert u[k] in u;
      }
    }
  }

  /** Running the same batch again right after a successful run adds nothing. */
  lemma RerunInsertsNothing(stored: seq<Job>, batch: seq<Scraper.Posting>, userId: nat,
                            firstId: nat, laterId: nat)
    requires Ingest(stored, batch, userId, firstId).Some?
    ensures var ns := Ingest(stored, batch, userId, firstId).value;
      Ingest(stored + ns, batch, userId, laterId) == Some([])
  {
    var ns := Ingest(stored, batch, userId, firstId).value;
    var u := Unstored(stored, batch);
    IngestCharacterized(stored, batch, userId, firstId);
    UnstoredCharacterized(stored, batch);
    UnstoredCharacterized(stored + ns, batch);
    forall p | p in batch ensures LinkStored(stored + ns, p.link) {
      if LinkStored(stored, p.link) {
        var i :| 0 <= i < |stored| && stored[i].link == p.link;
        assert (stored + ns)[i] == stored[i];
      } else {
        assert p in u;
        var k :| 0 <= k < |u| && u[k] == p;
        assert (stored + ns)[|stored| + k] == ns[k];
      }
    }
    AllStoredInsertsNothing(stored + ns, batch, userId, laterId);
  }

  /** A batch whose links are all stored adds nothing. */
  lemma AllStoredInsertsNothing(stored: seq<Job>, batch: seq<Scraper.Posting>, userId: nat,
                                firstId: nat)
    requires forall p :: p in batch ==> LinkStored(stored, p.link)
    ensures Ingest(stored, batch, userId, firstId) == Some([])
  {
    UnstoredCharacterized(stored, batch);
    IngestCharacterized(stored, batch, userId, firstId);
  }

  /** The same new posting twice in one batch is added twice. */
  lemma RepeatWithinBatchInsertedTwice(stored: seq<Job>, p: Scraper.Posting, userId: nat,
                                       firstId: nat)
    requires !LinkStored(stored, p.link) && p.requiredSkills.Some?
    ensures Ingest(stored, [p, p], userId, firstId)
            == Some([NewJob(firstId, userId, p), NewJob(firstId + 1, userId, p)])
  {
    var j0 := NewJob(firstId, userId, p);
    var j1 := NewJob(firstId + 1, userId, p);
    var one := [p];
    assert one[..|one| - 1] == [];
    assert [] + [j0] == [j0];
    assert Ingest(stored, one, userId, firstId) == Some([j0]);
    var two := [p, p];
    assert two[..|two| - 1] == one;
    assert [j0] + [j1] == [j0, j1];
  }

  /** Links stay unique across runs when each batch has distinct new links. */
  lemma {:induction false} IngestKeepsLinksUnique(stored: seq<Job>, batch: seq<Scraper.Posting>,
                                                  userId: nat, firstId: nat)
    requires LinksUnique(stored)
    requires forall i, j :: 0 <= i < j < |batch| ==> batch[i].link != batch[j].link
    ensures var r := Ingest(stored, batch, userId, firstId);
      r.Some? ==> (&& LinksUnique(stored + r.value)
                   && forall k :: 0 <= k < |r.value| ==>
                        exists i :: 0 <= i < |batch| && batch[i].link == r.value[k].link)
    decreases |batch|
  {
    if batch != [] {
      var front := batch[..|batch| - 1];
      IngestKeepsLinksUnique(stored, front, userId, firstId);
      var r := Ingest(stored, batch, userId, firstId);
      var rf := Ingest(stored, front, userId, firstId);
      var p := batch[|batch| - 1];
      if r.Some? && !LinkStored(stored, p.link) {
        var pending := rf.value;
        var all := stored + pending + [NewJob(firstId + |pending|, userId, p)];
        assert stored + r.value == all;
        forall k | 0 <= k < |pending| ensures pending[k].link != p.link {
          var i :| 0 <= i < |front| && front[i].link == pending[k].link;
        }
        forall i, j | 0 <= i < j < |all| ensures all[i].link != all[j].link {
          if j == |all| - 1 && i >= |stored| {
            assert all[i] == pending[i - |stored|];
          }
        }
        forall k | 0 <= k < |r.value|
          ensures exists i :: 0 <= i < |batch| && batch[i].link == r.value[k].link
        {
          if k < |pending| {
            var i :| 0 <= i < |front| && front[i].link == pending[k].link;
            assert batch[i] == front[i];
          } else {
            assert batch[|batch| - 1].link == r.value[k].link;
          }
        }
      } else if r.Some? {
        forall k | 0 <= k < |r.value|
          ensures exists i :: 0 <= i < |batch| && batch[i].link == r.value[k].link
        {
          var i :| 0 <= i < |front| && front[i].link == r.value[k].link;
          assert batch[i] == front[i];
        }
      }
    }
  }

  /** A completed loop keeps each id at its position, adds only
      "found" rows without a date, and keeps every stored row. */
  lemma IngestKeepsInvariants(stored: seq<Job>, batch: seq<Scraper.Posting>, userId: nat,
                              firstId: nat)
    requires JobIdsArePositions(stored) && firstId == |stored| + 1 && StatusConsistent(stored)
    ensures var r := Ingest(stored, batch, userId, firstId);
      r.Some? ==> (&& JobIdsArePositions(stored + r.value)
                   && StatusConsistent(stored + r.value)
                   && NeverReverts(stored, stored + r.value))
  {
    IngestCharacterized(stored, batch, userId, firstId);
    var r := Ingest(stored, batch, userId, firstId);
    if r.Some? {
      var ns := r.value;
      var all := stored + ns;
      assert forall k :: 0 <= k < |ns| ==> ns[k].id == firstId + k && ns[k].status == Found
                                           && ns[k].dateApplied == None;
      assert forall k :: 0 <= k < |stored| ==> all[k] == stored[k];
      assert forall k :: |stored| <= k < |all| ==> all[k] == ns[k - |stored|];
    }
  }

  /** What one run does to the jobs table and its counter: the search for the
      first skill, then the ingest loop, committed only when it completes. */
  function AfterRun(stored: seq<Job>, nextId: nat, userId: nat, skillsStr: string,
                    experience: Value, provider: string -> Scraper.ProviderOutcome)
    : (seq<Job>, nat)
  {
    var batch := Scraper.SearchResult(provider(Scraper.SearchTerm(SplitSkills(skillsStr))),
                                      experience);
    match Ingest(stored, batch, userId, nextId)
    case None => (stored, nextId)
    case Some(ns) => (stored + ns, nextId + |ns|)
  }

  /** The scraper never sets 'required_skills', so every run either adds
      nothing or raises KeyError at the first new posting and rolls back:
      whatever the job board answers, a run leaves the table as it was. */
  lemma RunNeverInserts(stored: seq<Job>, nextId: nat, userId: nat, skillsStr: string,
                        experience: Value, provider: string -> Scraper.ProviderOutcome)
    ensures AfterRun(stored, nextId, userId, skillsStr, experience, provider) == (stored, nextId)
  {
    var batch := Scraper.SearchResult(provider(Scraper.SearchTerm(SplitSkills(skillsStr))),
                                      experience);
    Scraper.SearchResultLacksRequiredSkills(provider(Scraper.SearchTerm(SplitSkills(skillsStr))),
                                            experience);
    IngestCharacterized(stored, batch, userId, nextId);
    UnstoredCharacterized(stored, batch);
    var u := Unstored(stored, batch);
    if u != [] {
      assert u[0] in u;
      assert Ingest(stored, batch, userId, nextId).None?;
    } else {
      var ns := Ingest(stored, batch, userId, nextId).value;
      assert ns == [];
      assert stored + ns == stored;
    }
  }

  // ---------------------------------------------------------------------
  // apply_to_job

  /** `custom_email if custom_email and "@" in custom_email else job.email`. */
  function Recipient(customEmail: Option<string>, jobEmail: Option<string>): Option<string> {
    if customEmail.Some? && customEmail.value != "" && '@' in customEmail.value then customEmail
    else jobEmail
  }

  /** `user.email.split('@')[0]`. */
  function UserName(email: string): string {
    Split(email, '@')[0]
  }

  /** The user name is the text of the address before its first '@'. */
  lemma UserNameIsLocalPart(email: string)
    ensures var n := UserName(email);
      |n| <= |email| && email[..|n|] == n && '@' !in n && (|n| < |email| ==> email[|n|] == '@')
  {
    SplitFirstPiece(email, '@');
  }

  /** How the sending part of a request ends: the response, and the message
      handed to the SMTP exchange if it got that far. */
  datatype Sending = Sending(response: Response, attempted: Option<Mail>)

  /** Compose and send, once the job's texts, its owner and the recipient are
      known. A decoded model reply lacking "subject" or "body" raises
      KeyError; a subject or recipient the mail headers refuse raises
      ValueError before anything is handed over. `now` is the clock; None stands for the module as shipped,
      where `datetime` is never imported, so the call raises NameError after
      the mail went out. */
  function Deliver(user: User, recipient: string, title: string, company: string, link: string,
                   composer: Mailer.ComposerOutcome,
                   exchange: (string, string, string) -> Option<string>,
                   now: Option<Timestamp>): Sending
  {
    var data := Mailer.GeneratePersonalizedEmail(composer, UserName(user.email), user.skills,
                                                 user.experience, title, company, link);
    if Mailer.SubjectKey !in data || Mailer.BodyKey !in data then Sending(Crash("KeyError"), None)
    else
      var mail := Mail(recipient, data[Mailer.SubjectKey], data[Mailer.BodyKey]);
      match Mailer.SendEmail(exchange, mail.recipient, mail.subject, mail.body)
      case Raised(e) => Sending(Crash(e), None)
      case Returned(sent) =>
        if !sent then Sending(HttpError(500, "SMTP failed to send"), Some(mail))
        else if now.None? then Sending(Crash("NameError"), Some(mail))
        else Sending(Ok(Delivered("success", recipient)), Some(mail))
  }

  /** Sending succeeds exactly when the model reply has both fields, the
      exchange accepts the message and the clock is there. A message handed
      over goes to the recipient given, with headers the policy accepts; a
      refused recipient raises before anything is handed over; with a failed
      model call the fallback subject and body are what is handed over,
      unless a header is refused. The shipped module raises NameError after
      a send that went through. */
  lemma DeliverOutcomes(user: User, recipient: string, title: string, company: string,
                        link: string, composer: Mailer.ComposerOutcome,
                        exchange: (string, string, string) -> Option<string>,
                        now: Option<Timestamp>)
    ensures var d := Deliver(user, recipient, title, company, link, composer, exchange, now);
      && (d.attempted.Some? ==>
            && d.attempted.value.recipient == recipient
            && !Mailer.HeaderRejected(recipient)
            && !Mailer.HeaderRejected(d.attempted.value.subject))
      && (d.response.Ok? <==>
            (d.attempted.Some? && now.Some?
             && exchange(recipient, d.attempted.value.subject, d.attempted.value.body).None?))
      && (d.response.Ok? ==> d.response.reply == Delivered("success", recipient))
      && ((d.attempted.Some? && now.None?
           && exchange(recipient, d.attempted.value.subject, d.attempted.value.body).None?)
          ==> d.response == Crash("NameError"))
      && (d.response.HttpError? ==> d.response == HttpError(500, "SMTP failed to send"))
      && (d.response.Crash? ==> d.response.exception in {"KeyError", "ValueError", "NameError"})
      && (Mailer.HeaderRejected(recipient) ==> d.attempted.None? && d.response.Crash?)
      && (composer.Failed? ==>
            var subject := Mailer.FallbackSubject(UserName(user.email), title);
            && (d.attempted.Some? <==>
                  !Mailer.HeaderRejected(recipient) && !Mailer.HeaderRejected(subject))
            && (d.attempted.Some? ==>
                  && d.attempted.value.subject == subject
                  && d.attempted.value.body
                     == Mailer.FallbackBody(UserName(user.email), user.skills, user.experience,
                                            title, link))
            && (!d.attempted.Some? ==> d.response == Crash("ValueError")))
  {
    Mailer.ComposerOutcomeDecides(composer, UserName(user.email), user.skills, user.experience,
                                  title, company, link);
  }

  /** The outcome of one request: the response, the message handed to the
      SMTP exchange if it got that far, and the jobs table afterwards. */
  datatype ApplyOutcome = ApplyOutcome(response: Response, attempted: Option<Mail>, jobs: seq<Job>)

  /** `apply_to_job`. The job is dereferenced before the None check, so an
      unknown id raises AttributeError; a job whose owner is gone gives 404;
      no usable address gives 400. Only a successful send with a clock marks
      the job applied and commits. */
  function Apply(users: seq<User>, jobs: seq<Job>, jobId: int, customEmail: Option<string>,
                 composer: Mailer.ComposerOutcome,
                 exchange: (string, string, string) -> Option<string>,
                 now: Option<Timestamp>): ApplyOutcome
  {
    match JobById(jobs, jobId)
    case None => ApplyOutcome(Crash("AttributeError"), None, jobs)
    case Some(i) =>
      var job := jobs[i];
      match UserById(users, job.userId)
      case None => ApplyOutcome(HttpError(404, "Data not found"), None, jobs)
      case Some(k) =>
        var recipient := Recipient(customEmail, job.email);
        if recipient.None? || recipient.value == "" then
          ApplyOutcome(HttpError(400, "Recipient email is missing"), None, jobs)
        else
          var d := Deliver(users[k], recipient.value, job.title, job.company, job.link, composer,
                           exchange, now);
          ApplyOutcome(d.response, d.attempted,
                       if d.response.Ok? then jobs[i := job.(status := Applied, dateApplied := now)]
                       else jobs)
  }

  /** Only a successful reply changes the table, and then only the requested
      job: it becomes "applied" with the clock's time, after the exchange
      accepted the message. Every error leaves the table as it was. */
  lemma ApplyCommitsOnlyOnSuccess(users: seq<User>, jobs: seq<Job>, jobId: int,
                                  customEmail: Option<string>, composer: Mailer.ComposerOutcome,
                                  exchange: (string, string, string) -> Option<string>,
                                  now: Option<Timestamp>)
    ensures var o := Apply(users, jobs, jobId, customEmail, composer, exchange, now);
      !o.response.Ok? ==> o.jobs == jobs
    ensures var o := Apply(users, jobs, jobId, customEmail, composer, exchange, now);
      o.response.Ok? ==>
        && JobById(jobs, jobId).Some? && now.Some? && o.attempted.Some?
        && o.response.reply == Delivered("success", o.attempted.value.recipient)
        && exchange(o.attempted.value.recipient, o.attempted.value.subject,
                    o.attempted.value.body).None?
        && var i := JobById(jobs, jobId).value;
           o.jobs == jobs[i := jobs[i].(status := Applied, dateApplied := now)]
  {
    match JobById(jobs, jobId)
    case None =>
    case Some(i) =>
      var job := jobs[i];
      match UserById(users, job.userId)
      case None =>
      case Some(k) =>
        var recipient := Recipient(customEmail, job.email);
        if recipient.Some? && recipient.value != "" {
          DeliverOutcomes(users[k], recipient.value, job.title, job.company, job.link, composer,
                          exchange, now);
        }
  }

  /** The message goes to the custom address when it holds an '@', and to
      the job's stored address otherwise. */
  lemma ApplyRecipientChoice(users: seq<User>, jobs: seq<Job>, jobId: int,
                             customEmail: Option<string>, composer: Mailer.ComposerOutcome,
                             exchange: (string, string, string) -> Option<string>,
                             now: Option<Timestamp>)
    requires JobById(jobs, jobId).Some?
    ensures var job := jobs[JobById(jobs, jobId).value];
      var o := Apply(users, jobs, jobId, customEmail, composer, exchange, now);
      && ((customEmail.Some? && '@' in customEmail.value && o.attempted.Some?)
          ==> o.attempted.value.recipient == customEmail.value)
      && ((!(customEmail.Some? && '@' in customEmail.value) && o.attempted.Some?)
          ==> job.email == Some(o.attempted.value.recipient))
  {
    var job := jobs[JobById(jobs, jobId).value];
    var recipient := Recipient(customEmail, job.email);
    if UserById(users, job.userId).Some? && recipient.Some? && recipient.value != "" {
      var k := UserById(users, job.userId).value;
      DeliverOutcomes(users[k], recipient.value, job.title, job.company, job.link, composer,
                      exchange, now);
    }
  }

  /** With the job and its owner found, the request fails with 400 exactly
      when the custom address has no '@' and the job has no stored address
      (or an empty one); nothing is sent and nothing changes then. */
  lemma ApplyMissingRecipient(users: seq<User>, jobs: seq<Job>, jobId: int,
                              customEmail: Option<string>, composer: Mailer.ComposerOutcome,
                              exchange: (string, string, string) -> Option<string>,
                              now: Option<Timestamp>)
    requires JobById(jobs, jobId).Some?
    requires UserById(users, jobs[JobById(jobs, jobId).value].userId).Some?
    ensures var job := jobs[JobById(jobs, jobId).value];
      var o := Apply(users, jobs, jobId, customEmail, composer, exchange, now);
      && ((o.response == HttpError(400, "Recipient email is missing"))
          <==> (!(customEmail.Some? && '@' in customEmail.value)
                && (job.email.None? || job.email == Some(""))))
      && (o.response == HttpError(400, "Recipient email is missing")
          ==> o.attempted.None? && o.jobs == jobs)
  {
    var job := jobs[JobById(jobs, jobId).value];
    var k := UserById(users, job.userId).value;
    var recipient := Recipient(customEmail, job.email);
    if customEmail.Some? && '@' in customEmail.value {
      assert customEmail.value != "";
    }
    if recipient.Some? && recipient.value != "" {
      DeliverOutcomes(users[k], recipient.value, job.title, job.company, job.link, composer,
                      exchange, now);
    }
  }

  /** An unknown job id raises before anything is sent; a job whose owner is
      gone gives 404. */
  lemma ApplyLookupFailures(users: seq<User>, jobs: seq<Job>, jobId: int,
                            customEmail: Option<string>, composer: Mailer.ComposerOutcome,
                            exchange: (string, string, string) -> Option<string>,
                            now: Option<Timestamp>)
    ensures var o := Apply(users, jobs, jobId, customEmail, composer, exchange, now);
      (forall i :: 0 <= i < |jobs| ==> jobs[i].id != jobId)
        ==> o.response == Crash("AttributeError") && o.attempted.None?
    ensures var o := Apply(users, jobs, jobId, customEmail, composer, exchange, now);
      (exists i :: 0 <= i < |jobs| && jobs[i].id == jobId
         && forall j :: 0 <= j < |jobs| && jobs[j].id == jobId ==> !HasUserId(users, jobs[j].userId))
        ==> o.response == HttpError(404, "Data not found") && o.attempted.None?
  {
  }

  /** A custom address holding '@' and a line break followed by more text
      (a header injection such as "a@b.com\nBcc: c@d.com") makes the request
      raise ValueError: nothing is handed to the SMTP exchange and nothing
      changes. */
  lemma ApplyHeaderBreakRaises(users: seq<User>, jobs: seq<Job>, jobId: int,
                               customEmail: Option<string>, composer: Mailer.ComposerOutcome,
                               exchange: (string, string, string) -> Option<string>,
                               now: Option<Timestamp>)
    requires JobById(jobs, jobId).Some?
    requires UserById(users, jobs[JobById(jobs, jobId).value].userId).Some?
    requires customEmail.Some? && '@' in customEmail.value && BreakBeforeText(customEmail.value)
    ensures var o := Apply(users, jobs, jobId, customEmail, composer, exchange, now);
      o.response.Crash? && o.attempted.None? && o.jobs == jobs
    ensures composer.Failed? ==>
      Apply(users, jobs, jobId, customEmail, composer, exchange, now).response
      == Crash("ValueError")
  {
    var job := jobs[JobById(jobs, jobId).value];
    var k := UserById(users, job.userId).value;
    assert customEmail.value != "";
    Mailer.HeaderRejectedCharacterized(customEmail.value);
    DeliverOutcomes(users[k], customEmail.value, job.title, job.company, job.link, composer,
                    exchange, now);
  }

  /** An address made by the corporate-address heuristic never trips the
      header check, so a job's stored address is always accepted. */
  lemma DerivedAddressAccepted(companyName: string)
    ensures !Mailer.HeaderRejected(Scraper.CorporateEmail(companyName))
  {
    var r := Scraper.CorporateEmail(companyName);
    Scraper.CorporateEmailShape(companyName);
    forall i | 0 <= i < |r| ensures !IsLineBoundary(r[i]) {
      if i < 3 {
        assert r[i] == "hr@"[i];
      } else if i >= |r| - 4 {
        assert r[i] == ".com"[i - (|r| - 4)];
      } else {
        assert IsLowerAlnum(r[i]);
      }
    }
    Mailer.HeaderRejectedCharacterized(r);
  }

  /** Nothing stops a second application: a job already applied to is mailed
      exactly as if it were still "found". */
  lemma ApplyHasNoAppliedGuard(users: seq<User>, jobs: seq<Job>, jobId: int, i: nat,
                               customEmail: Option<string>, composer: Mailer.ComposerOutcome,
                               exchange: (string, string, string) -> Option<string>,
                               now: Option<Timestamp>)
    requires i < |jobs| && jobs[i].status == Applied
    ensures var reset := jobs[i := jobs[i].(status := Found, dateApplied := None)];
      var o := Apply(users, jobs, jobId, customEmail, composer, exchange, now);
      var f := Apply(users, reset, jobId, customEmail, composer, exchange, now);
      o.response == f.response && o.attempted == f.attempted
  {
    var reset := jobs[i := jobs[i].(status := Found, dateApplied := None)];
    SameIdsSameIndex(jobs, reset, jobId);
  }

  lemma {:induction false} SameIdsSameIndex(a: seq<Job>, b: seq<Job>, id: int)
    requires |a| == |b| && forall k :: 0 <= k < |a| ==> a[k].id == b[k].id
    ensures JobById(a, id) == JobById(b, id)
  {
    if a != [] {
      SameIdsSameIndex(a[1..], b[1..], id);
    }
  }

  /** As shipped (no clock), applying never changes the table, even when the
      message was sent. */
  lemma ShippedApplyNeverCommits(users: seq<User>, jobs: seq<Job>, jobId: int,
                                 customEmail: Option<string>, composer: Mailer.ComposerOutcome,
                                 exchange: (string, string, string) -> Option<string>)
    ensures var o := Apply(users, jobs, jobId, customEmail, composer, exchange, None);
      && o.jobs == jobs
      && ((o.attempted.Some? && exchange(o.attempted.value.recipient, o.attempted.value.subject,
                                         o.attempted.value.body).None?)
          ==> o.response == Crash("NameError"))
  {
    ApplyCommitsOnlyOnSuccess(users, jobs, jobId, customEmail, composer, exchange, None);
    match JobById(jobs, jobId)
    case None =>
    case Some(i) =>
      var job := jobs[i];
      match UserById(users, job.userId)
      case None =>
      case Some(k) =>
        var recipient := Recipient(customEmail, job.email);
        if recipient.Some? && recipient.value != "" {
          DeliverOutcomes(users[k], recipient.value, job.title, job.company, job.link, composer,
                          exchange, None);
        }
  }

  /** Applying keeps ids and the status/date agreement, and never takes a job
      back from "applied". */
  lemma ApplyKeepsInvariants(users: seq<User>, jobs: seq<Job>, jobId: int,
                             customEmail: Option<string>, composer: Mailer.ComposerOutcome,
                             exchange: (string, string, string) -> Option<string>,
                             now: Option<Timestamp>)
    requires JobIdsArePositions(jobs) && StatusConsistent(jobs)
    ensures var o := Apply(users, jobs, jobId, customEmail, composer, exchange, now);
      JobIdsArePositions(o.jobs) && StatusConsistent(o.jobs) && NeverReverts(jobs, o.jobs)
        && |o.jobs| == |jobs|
  {
    ApplyCommitsOnlyOnSuccess(users, jobs, jobId, customEmail, composer, exchange, now);
    var o := Apply(users, jobs, jobId, customEmail, composer, exchange, now);
    if o.response.Ok? {
      var i := JobById(jobs, jobId).value;
      assert forall k :: 0 <= k < |jobs| && k != i ==> o.jobs[k] == jobs[k];
      assert o.jobs[i].id == jobs[i].id && o.jobs[i].status == Applied;
      assert o.jobs[i].dateApplied.Some?;
    }
  }

  /** `get_jobs`: the rows owned by one user, in table order. */
  function OwnedBy(jobs: seq<Job>, userId: nat): (r: seq<Job>)
    ensures forall j :: j in r <==> j in jobs && j.userId == userId
    decreases |jobs|
  {
    if jobs == [] then []
    else
      var front := OwnedBy(jobs[..|jobs| - 1], userId);
      var last := jobs[|jobs| - 1];
      assert jobs == jobs[..|jobs| - 1] + [last];
      if last.userId == userId then front + [last] else front
  }

  // ---------------------------------------------------------------------
  // The service state

  class Database {
    var users: seq<User>
    var jobs: seq<Job>
    var nextUserId: nat
    var nextJobId: nat

    ghost predicate Valid()
      reads this
    {
      && nextUserId == |users| + 1 && nextJobId == |jobs| + 1
      && EmailsUnique(users)
      && UserIdsArePositions(users)
      && JobIdsArePositions(jobs)
      && StatusConsistent(jobs)
    }

    /** Empty tables; SQLite hands out ids from 1. */
    constructor ()
      ensures Valid()
      ensures users == [] && jobs == [] && nextUserId == 1 && nextJobId == 1
    {
      users := [];
      jobs := [];
      nextUserId := 1;
      nextJobId := 1;
    }

    /** `signup`, given the password hash. A second account for an address is
      refused; otherwise exactly one user row is added. */
    method Signup(email: string, hashedPassword: string) returns (resp: Response)
      requires Valid()
      modifies this
      ensures Valid()
      ensures Registered(old(users), email) ==>
        resp == HttpError(400, "Email already registered") && unchanged(this)
      ensures !Registered(old(users), email) ==>
        && resp == Ok(Message("User created successfully"))
        && users == old(users) + [User(old(nextUserId), email, hashedPassword, None, Null)]
        && nextUserId == old(nextUserId) + 1
        && jobs == old(jobs) && nextJobId == old(nextJobId)
    {
      var dbUser := UserByEmail(users, email);
      if dbUser.Some? {
        return HttpError(400, "Email already registered");
      }
      users := users + [User(nextUserId, email, hashedPassword, None, Null)];
      nextUserId := nextUserId + 1;
      resp := Ok(Message("User created successfully"));
    }

    /** `upload_resume`, given what the parser extracted: the skills are
      stored joined by ", " and the experience as it came. */
    method UploadResume(email: string, parsedSkills: seq<string>, parsedExperience: Value)
      returns (resp: Response)
      requires Valid()
      modifies this
      ensures Valid()
      ensures !Registered(old(users), email) ==>
        resp == HttpError(404, "User not found") && unchanged(this)
      ensures Registered(old(users), email) ==>
        && UserByEmail(old(users), email).Some?
        && resp == Ok(ResumeParsed("Resume parsed", parsedSkills, parsedExperience))
        && jobs == old(jobs) && nextUserId == old(nextUserId) && nextJobId == old(nextJobId)
        && (var i := UserByEmail(old(users), email).value;
            users == old(users)[i := old(users)[i].(skills := Some(Join(parsedSkills, ", ")),
                                                   experience := parsedExperience)])
    {
      var found := UserByEmail(users, email);
      if found.None? {
        return HttpError(404, "User not found");
      }
      var i := found.value;
      users := users[i := users[i].(skills := Some(Join(parsedSkills, ", ")),
                                    experience := parsedExperience)];
      resp := Ok(ResumeParsed("Resume parsed", parsedSkills, parsedExperience));
    }

    /** `run_scraping_logic`: search, then add each posting whose link no
      stored job has, and commit once at the end; an exception in the loop
      discards everything the run added. */
    method RunScrapingLogic(userId: nat, skillsStr: string, experience: Value,
                            provider: string -> Scraper.ProviderOutcome)
      requires Valid()
      modifies this
      ensures Valid()
      ensures users == old(users) && nextUserId == old(nextUserId)
      ensures (jobs, nextJobId)
              == AfterRun(old(jobs), old(nextJobId), userId, skillsStr, experience, provider)
      ensures NeverReverts(old(jobs), jobs)
    {
      var skillsList := SplitSkills(skillsStr);
      var foundJobs := Scraper.SearchJobs(skillsList, experience, provider);
      var pending := IngestRows(jobs, foundJobs, userId, nextJobId);
      if pending.Some? {
        IngestKeepsInvariants(jobs, foundJobs, userId, nextJobId);
        jobs := jobs + pending.value;
        nextJobId := nextJobId + |pending.value|;
      }
    }

    /** `search_jobs`: the run happens here and now rather than after the
      reply, which is what the background task amounts to for one request. */
    method SearchJobs(email: string, provider: string -> Scraper.ProviderOutcome)
      returns (resp: Response)
      requires Valid()
      modifies this
      ensures Valid()
      ensures !Registered(old(users), email) ==>
        resp == HttpError(404, "User not found") && unchanged(this)
      ensures Registered(old(users), email) ==>
        && UserByEmail(old(users), email).Some?
        && var u := old(users)[UserByEmail(old(users), email).value];
           if u.skills.None? || u.skills == Some("") then
             resp == HttpError(400, "Please upload resume first") && unchanged(this)
           else
             && resp == Ok(Message("Job search started"))
             && users == old(users) && nextUserId == old(nextUserId)
             && (jobs, nextJobId)
                == AfterRun(old(jobs), old(nextJobId), u.id, u.skills.value, u.experience, provider)
      ensures NeverReverts(old(jobs), jobs)
    {
      var found := UserByEmail(users, email);
      if found.None? {
        return HttpError(404, "User not found");
      }
      var user := users[found.value];
      if user.skills.None? || user.skills.value == "" {
        return HttpError(400, "Please upload resume first");
      }
      RunScrapingLogic(user.id, user.skills.value, user.experience, provider);
      resp := Ok(Message("Job search started"));
    }

    /** `get_jobs`: the jobs of the user with this address. */
    function GetJobs(email: string): (r: Response)
      reads this
      ensures UserByEmail(users, email).None? <==> r == HttpError(404, "User not found")
      ensures UserByEmail(users, email).Some? ==>
        var owner := users[UserByEmail(users, email).value];
        r.Ok? && r.reply.JobList?
        && forall j :: j in r.reply.jobs <==> j in jobs && j.userId == owner.id
    {
      match UserByEmail(users, email)
      case None => HttpError(404, "User not found")
      case Some(i) => Ok(JobList(OwnedBy(jobs, users[i].id)))
    }

    /** `apply_to_job`, given the model's reply, the SMTP exchange and the
      clock; returns the response and the message handed to the exchange. */
    method ApplyToJob(jobId: int, customEmail: Option<string>, composer: Mailer.ComposerOutcome,
                      exchange: (string, string, string) -> Option<string>,
                      now: Option<Timestamp>)
      returns (resp: Response, attempted: Option<Mail>)
      requires Valid()
      modifies this
      ensures Valid()
      ensures var o := Apply(old(users), old(jobs), jobId, customEmail, composer, exchange, now);
        resp == o.response && attempted == o.attempted && jobs == o.jobs
      ensures users == old(users) && nextUserId == old(nextUserId) && nextJobId == old(nextJobId)
      ensures NeverReverts(old(jobs), jobs)
    {
      ApplyKeepsInvariants(users, jobs, jobId, customEmail, composer, exchange, now);
      var foundJob := JobById(jobs, jobId);
      if foundJob.None? {
        return Crash("AttributeError"), None;
      }
      var i := foundJob.value;
      var job := jobs[i];
      var foundUser := UserById(users, job.userId);
      if foundUser.None? {
        return HttpError(404, "Data not found"), None;
      }
      var user := users[foundUser.value];
      var finalRecipient := Recipient(customEmail, job.email);
      if finalRecipient.None? || finalRecipient.value == "" {
        return HttpError(400, "Recipient email is missing"), None;
      }
      ghost var d := Deliver(user, finalRecipient.value, job.title, job.company, job.link,
                             composer, exchange, now);
      assert Apply(users, jobs, jobId, customEmail, composer, exchange, now)
          == ApplyOutcome(d.response, d.attempted,
                          if d.response.Ok? then jobs[i := job.(status := Applied, dateApplied := now)]
                          else jobs);
      var emailData := Mailer.GeneratePersonalizedEmail(composer, UserName(user.email), user.skills,
                                                        user.experience, job.title, job.company,
                                                        job.link);
      if Mailer.SubjectKey !in emailData || Mailer.BodyKey !in emailData {
        return Crash("KeyError"), None;
      }
      var mail := Mail(finalRecipient.value, emailData[Mailer.SubjectKey],
                       emailData[Mailer.BodyKey]);
      var sendOutcome := Mailer.SendEmail(exchange, mail.recipient, mail.subject, mail.body);
      if sendOutcome.Raised? {
        return Crash(sendOutcome.exception), None;
      }
      if !sendOutcome.sent {
        return HttpError(500, "SMTP failed to send"), Some(mail);
      }
      if now.None? {
        return Crash("NameError"), Some(mail);
      }
      jobs := jobs[i := job.(status := Applied, dateApplied := now)];
      resp := Ok(Delivered("success", finalRecipient.value));
      attempted := Some(mail);
    }
  }

  /** The loop of `run_scraping_logic` up to the commit: the rows added to
      the session, or None when the loop raises. */
  method IngestRows(stored: seq<Job>, batch: seq<Scraper.Posting>, userId: nat, firstId: nat)
    returns (pending: Option<seq<Job>>)
    ensures pending == Ingest(stored, batch, userId, firstId)
  {
    var added: seq<Job> := [];
    for n := 0 to |batch|
      invariant Ingest(stored, batch[..n], userId, firstId) == Some(added)
    {
      assert batch[..n + 1][..n] == batch[..n];
      var j := batch[n];
      if !LinkStored(stored, j.link) {
        if j.requiredSkills.None? {
          IngestAbortIsFinal(stored, batch, n + 1, userId, firstId);
          return None;
        }
        added := added + [NewJob(firstId + |added|, userId, j)];
      }
    }
    assert batch[..|batch|] == batch;
    return Some(added);
  }

  /** Once the loop raises, the rest of the batch does not matter. */
  lemma {:induction false} IngestAbortIsFinal(stored: seq<Job>, batch: seq<Scraper.Posting>,
                                              n: nat, userId: nat, firstId: nat)
    requires n <= |batch| && Ingest(stored, batch[..n], userId, firstId).None?
    ensures Ingest(stored, batch, userId, firstId).None?
    decreases |batch| - n
  {
    if n < |batch| {
      assert batch[..n + 1][..n] == batch[..n];
      IngestAbortIsFinal(stored, batch, n + 1, userId, firstId);
    } else {
      assert batch[..n] == batch;
    }
  }
}
