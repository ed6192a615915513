/** The mail service of backend/mailer.py: the message a language model is asked
    to write, with its fixed fallback, and the SMTP send reduced to its outcome. */
module Mailer {
  import opened Common
  import opened Strings

  /** What the language-model call and `json.loads` produced: a decoded JSON
      object (its string fields), or an exception from either step. */
  datatype ComposerOutcome = Parsed(fields: map<string, string>) | Failed

  const SubjectKey: string := "subject"
  const BodyKey: string := "body"

  /** The fallback subject: `f"Application for {job_title} - {user_name}"`. */
  function FallbackSubject(userName: string, jobTitle: string): string {
    "Application for " + jobTitle + " - " + userName
  }

  /** The fallback body, with the skills and experience rendered as an
      f-string renders them (None shows as "None"). */
  function FallbackBody(userName: string, userSkills: Option<string>, userExp: Value,
                        jobTitle: string, jobLink: string): string
  {
    "Hi,\n\nI am applying for the " + jobTitle + " role. I have " + Show(userExp)
    + " years of experience and skills in " + ShowText(userSkills) + ".\n\nJob Link: "
    + jobLink + "\n\nBest, " + userName
  }

  /** The dict returned when the model call or the JSON decoding raises. */
  function FallbackEmail(userName: string, userSkills: Option<string>, userExp: Value,
                         jobTitle: string, jobLink: string): map<string, string>
  {
    map[SubjectKey := FallbackSubject(userName, jobTitle),
        BodyKey := FallbackBody(userName, userSkills, userExp, jobTitle, jobLink)]
  }

  /** `generate_personalized_email`: the decoded object as it is, or the
      fallback. The company only reaches the prompt. */
  function GeneratePersonalizedEmail(composer: ComposerOutcome, userName: string,
                                     userSkills: Option<string>, userExp: Value,
                                     jobTitle: string, company: string, jobLink: string)
    : (r: map<string, string>)
    ensures composer.Failed? ==>
      && SubjectKey in r && r[SubjectKey] == FallbackSubject(userName, jobTitle)
      && BodyKey in r && r[BodyKey] == FallbackBody(userName, userSkills, userExp, jobTitle, jobLink)
  {
    match composer
    case Parsed(fields) => fields
    case Failed => FallbackEmail(userName, userSkills, userExp, jobTitle, jobLink)
  }

  /** A decoded object is handed back untouched, even one lacking "subject" or
      "body"; any failure of the model call or of the decoding gives the
      fallback template: exactly the two keys, holding the fallback subject
      and body. */
  lemma ComposerOutcomeDecides(composer: ComposerOutcome, userName: string,
                               userSkills: Option<string>, userExp: Value,
                               jobTitle: string, company: string, jobLink: string)
    ensures var r := GeneratePersonalizedEmail(composer, userName, userSkills, userExp,
                                               jobTitle, company, jobLink);
      (composer.Parsed? ==> r == composer.fields)
      && (composer.Failed? ==>
            && r.Keys == {SubjectKey, BodyKey}
            && r[SubjectKey] == FallbackSubject(userName, jobTitle)
            && r[BodyKey] == FallbackBody(userName, userSkills, userExp, jobTitle, jobLink))
  {
  }

  /** The fallback subject is exactly "Application for ", the title, " - "
      and the user name: the title starts at offset 16, the user name ends the
      line, and nothing else is in it. */
  lemma FallbackSubjectLayout(userName: string, jobTitle: string)
    ensures var s := FallbackSubject(userName, jobTitle);
      && s[..16] == "Application for "
      && OccursAt(s, jobTitle, 16)
      && OccursAt(s, " - ", 16 + |jobTitle|)
      && s[|s| - |userName|..] == userName
      && |s| == 19 + |jobTitle| + |userName|
  {
    var s := FallbackSubject(userName, jobTitle);
    assert s == "Application for " + (jobTitle + (" - " + userName));
  }

  /** Five values set between five pieces of fixed text each occur right
      after their piece. */
  lemma {:induction false} Slots(p1: string, x1: string, p2: string, x2: string, p3: string,
                                 x3: string, p4: string, x4: string, p5: string, x5: string)
    ensures var b := p1 + x1 + p2 + x2 + p3 + x3 + p4 + x4 + p5 + x5;
      var i1 := |p1|;
      var i2 := i1 + |x1| + |p2|;
      var i3 := i2 + |x2| + |p3|;
      var i4 := i3 + |x3| + |p4|;
      var i5 := i4 + |x4| + |p5|;
      && OccursAt(b, x1, i1) && OccursAt(b, x2, i2) && OccursAt(b, x3, i3)
      && OccursAt(b, x4, i4) && OccursAt(b, x5, i5) && i5 + |x5| == |b|
  {
    var u1 := p1 + x1;
    var u2 := u1 + p2;
    var u3 := u2 + x2;
    var u4 := u3 + p3;
    var u5 := u4 + x3;
    var u6 := u5 + p4;
    var u7 := u6 + x4;
    var u8 := u7 + p5;
    OccursAtEnd(p1, x1);
    OccursExtend(u1, x1, |p1|, p2);
    OccursExtend(u2, x1, |p1|, x2);
    OccursExtend(u3, x1, |p1|, p3);
    OccursExtend(u4, x1, |p1|, x3);
    OccursExtend(u5, x1, |p1|, p4);
    OccursExtend(u6, x1, |p1|, x4);
    OccursExtend(u7, x1, |p1|, p5);
    OccursExtend(u8, x1, |p1|, x5);
    OccursAtEnd(u2, x2);
    OccursExtend(u3, x2, |u2|, p3);
    OccursExtend(u4, x2, |u2|, x3);
    OccursExtend(u5, x2, |u2|, p4);
    OccursExtend(u6, x2, |u2|, x4);
    OccursExtend(u7, x2, |u2|, p5);
    OccursExtend(u8, x2, |u2|, x5);
    OccursAtEnd(u4, x3);
    OccursExtend(u5, x3, |u4|, p4);
    OccursExtend(u6, x3, |u4|, x4);
    OccursExtend(u7, x3, |u4|, p5);
    OccursExtend(u8, x3, |u4|, x5);
    OccursAtEnd(u6, x4);
    OccursExtend(u7, x4, |u6|, p5);
    OccursExtend(u8, x4, |u6|, x5);
    OccursAtEnd(u8, x5);
  }

  lemma TemplateLengths()
    ensures |"Hi,\n\nI am applying for the "| == 27
    ensures |" role. I have "| == 14
    ensures |" years of experience and skills in "| == 35
    ensures |".\n\nJob Link: "| == 13
    ensures |"\n\nBest, "| == 8
  {
  }

  /** The fallback body mentions the title, the experience, the skills, the
      link and the user name, in that order and without overlap, and ends
      with the user name. */
  lemma FallbackBodyOrder(userName: string, userSkills: Option<string>, userExp: Value,
                          jobTitle: string, jobLink: string)
    ensures var b := FallbackBody(userName, userSkills, userExp, jobTitle, jobLink);
      var iTitle := 27;
      var iExp := iTitle + |jobTitle| + 14;
      var iSkills := iExp + |Show(userExp)| + 35;
      var iLink := iSkills + |ShowText(userSkills)| + 13;
      var iName := iLink + |jobLink| + 8;
      && OccursAt(b, jobTitle, iTitle)
      && OccursAt(b, Show(userExp), iExp)
      && OccursAt(b, ShowText(userSkills), iSkills)
      && OccursAt(b, jobLink, iLink)
      && OccursAt(b, userName, iName)
      && iName + |userName| == |b|
  {
    TemplateLengths();
    Slots("Hi,\n\nI am applying for the ", jobTitle, " role. I have ", Show(userExp),
          " years of experience and skills in ", ShowText(userSkills), ".\n\nJob Link: ",
          jobLink, "\n\nBest, ", userName);
  }

  /** The fallback does not depend on the company. */
  lemma FallbackIgnoresCompany(userName: string, userSkills: Option<string>, userExp: Value,
                               jobTitle: string, companyA: string, companyB: string,
                               jobLink: string)
    ensures GeneratePersonalizedEmail(Failed, userName, userSkills, userExp, jobTitle,
                                      companyA, jobLink)
         == GeneratePersonalizedEmail(Failed, userName, userSkills, userExp, jobTitle,
                                      companyB, jobLink)
  {
  }

  /** The check the email library's default policy makes when a header is
      set: a value that `splitlines()` breaks into more than one line is
      refused with ValueError. */
  predicate HeaderRejected(value: string) {
    |SplitLines(value)| > 1
  }

  /** A header value is refused exactly when some line break in it is
      followed by more text; one break at the very end is let through. */
  lemma HeaderRejectedCharacterized(value: string)
    ensures HeaderRejected(value) <==> BreakBeforeText(value)
  {
    MultipleLinesCharacterized(value);
  }

  /** A line break anywhere in the job title makes the fallback subject
      unacceptable as a header, since the user name follows it. */
  lemma BrokenTitleRejected(userName: string, jobTitle: string, i: nat)
    requires i < |jobTitle| && IsLineBoundary(jobTitle[i])
    ensures HeaderRejected(FallbackSubject(userName, jobTitle))
  {
    var s := FallbackSubject(userName, jobTitle);
    FallbackSubjectLayout(userName, jobTitle);
    assert s[16 + i] == jobTitle[i];
    assert BreakEnd(s, 16 + i) < |s|;
    HeaderRejectedCharacterized(s);
  }

  /** How `send_email` ends: it returns whether the mail went out, or it
      raises before the SMTP session. */
  datatype SendOutcome = Returned(sent: bool) | Raised(exception: string)

  /** `send_email`. The message headers are set before the `try`, so a
      subject or recipient the policy refuses raises ValueError out of the
      call; otherwise it returns true exactly when the SMTP exchange (login
      and send) raises nothing. The exchange is given as the error it
      raises, if any. */
  function SendEmail(exchange: (string, string, string) -> Option<string>,
                     recipient: string, subject: string, body: string): SendOutcome
  {
    if HeaderRejected(subject) || HeaderRejected(recipient) then Raised("ValueError")
    else Returned(exchange(recipient, subject, body).None?)
  }

  /** `send_email` raises ValueError exactly when the subject or the
      recipient has a line break followed by more text; otherwise it reports
      true exactly when the exchange accepted the message. */
  lemma SendEmailOutcomes(exchange: (string, string, string) -> Option<string>,
                          recipient: string, subject: string, body: string)
    ensures var o := SendEmail(exchange, recipient, subject, body);
      && (o.Raised? <==> BreakBeforeText(subject) || BreakBeforeText(recipient))
      && (o.Raised? ==> o.exception == "ValueError")
      && (o == Returned(true) <==>
            !BreakBeforeText(subject) && !BreakBeforeText(recipient)
            && exchange(recipient, subject, body).None?)
  {
    HeaderRejectedCharacterized(subject);
    HeaderRejectedCharacterized(recipient);
  }
}
