/** `ResumeChatbot.generate_answer` (rupanjal_chatbot/app.py:110-248): a guard
    for a résumé that failed to load, then a first-match-wins chain of
    question categories, each answered from a template filled in from the
    résumé record. */
module Answers {
  import opened Wrappers
  import opened Text
  import opened Sections
  import opened Resume

  /** The branches of the chain, in the order they are tried. */
  datatype Category =
    | Identity
    | ContactInfo
    | WorkExperience
    | TechnicalSkills
    | EducationInfo
    | CertificationList
    | ProjectList
    | ProfessionalSummary
    | TopicsHelp

  /** A reply template together with the values filled into it. Templates
      without placeholders carry nothing. */
  datatype Answer =
    | Unavailable
    | Greeting(name: string, title: string, location: string)
    | ContactCard(name: string, email: string, phone: string, location: string)
    | ExperienceDetail(years: string, excerpt: string)
    | ExperienceBrief
    | SkillsOverview
    | EducationDetail(education: string)
    | CertificationsOverview
    | ProjectsOverview
    | SummaryOf(name: string, years: string)
    | Help

  /** The `KeyError` raised when a template reads `resume_data` before
      `parse_resume_data` has filled it. */
  datatype MissingKey = MissingKey(key: string)

  const IdentityWords := ["name", "who are you", "who is", "yourself"]
  const ContactWords := ["contact", "email", "phone", "reach"]
  const ExperienceWords := ["experience", "work", "career", "worked"]
  const SkillWords := ["skill", "technology", "programming", "language"]
  const EducationWords := ["education", "degree", "university", "school"]
  const CertificationWords := ["certification", "certificate", "certified"]
  const ProjectWords := ["project", "built", "developed", "worked"]
  const SummaryWords := ["summary", "about", "overview", "objective"]

  /** The longest part of the experience section an answer quotes. */
  const ExcerptLimit: nat := 1500

  /** Position of a category in the chain. */
  function ChainPosition(c: Category): nat {
    match c
    case Identity => 0
    case ContactInfo => 1
    case WorkExperience => 2
    case TechnicalSkills => 3
    case EducationInfo => 4
    case CertificationList => 5
    case ProjectList => 6
    case ProfessionalSummary => 7
    case TopicsHelp => 8
  }

  /** The category a section leads to when no earlier branch fires. The
      projects and summary branches ignore the section. */
  function SectionCategory(s: Section): Category {
    match s
    case Contact => ContactInfo
    case Experience => WorkExperience
    case Skills => TechnicalSkills
    case Education => EducationInfo
    case Certifications => CertificationList
    case Projects => ProjectList
    case Summary => ProfessionalSummary
  }

  /** The branch conditions of lines 119-226, tried in order on the
      lower-cased question `q` and the section `topic` picked for it. */
  function Dispatch(q: string, topic: Topic): Category {
    if ContainsAny(q, IdentityWords) then Identity
    else if topic == About(Contact) || ContainsAny(q, ContactWords) then ContactInfo
    else if topic == About(Experience) || ContainsAny(q, ExperienceWords) then WorkExperience
    else if topic == About(Skills) || ContainsAny(q, SkillWords) then TechnicalSkills
    else if topic == About(Education) || ContainsAny(q, EducationWords) then EducationInfo
    else if topic == About(Certifications) || ContainsAny(q, CertificationWords) then CertificationList
    else if ContainsAny(q, ProjectWords) then ProjectList
    else if ContainsAny(q, SummaryWords) then ProfessionalSummary
    else TopicsHelp
  }

  /** The identity branch fires exactly on the identity words, whatever the
      section. */
  lemma DispatchIdentity(q: string, topic: Topic)
    ensures Dispatch(q, topic) == Identity <==> ContainsAny(q, IdentityWords)
  {
  }

  /** A consulted section never lands later than its own branch. */
  lemma DispatchNoLater(q: string, s: Section)
    requires s !in {Projects, Summary}
    ensures ChainPosition(Dispatch(q, About(s))) <= ChainPosition(SectionCategory(s))
  {
  }

  /** Only the unconsulted sections can fall through to the help text. */
  lemma DispatchHelp(q: string, topic: Topic)
    requires Dispatch(q, topic) == TopicsHelp
    ensures topic in {General, About(Projects), About(Summary)}
  {
    match topic
    case General =>
    case About(s) =>
      assert ChainPosition(Dispatch(q, topic)) == 8;
      if s !in {Projects, Summary} {
        DispatchNoLater(q, s);
      }
  }

  /** Lines 115-116 and the chain: the category of a question. Identity
      questions, and only they, get the identity branch. */
  function Route(question: string): (c: Category)
    ensures c == Identity <==> ContainsAny(Lower(question), IdentityWords)
  {
    var topic := FindRelevantSection(question);
    DispatchIdentity(Lower(question), topic);
    Dispatch(Lower(question), topic)
  }

  /** A section the chain consults is never passed over for a later branch:
      the question lands on that section's branch or an earlier one. */
  lemma SectionRoutesNoLater(question: string, s: Section)
    requires FindRelevantSection(question) == About(s) && s !in {Projects, Summary}
    ensures ChainPosition(Route(question)) <= ChainPosition(SectionCategory(s))
  {
    DispatchNoLater(Lower(question), s);
  }

  /** The help text goes only to questions whose section is `General`,
      projects or summary: the three the chain does not consult on their own. */
  lemma HelpOnlyForUnconsultedSections(question: string)
    requires Route(question) == TopicsHelp
    ensures FindRelevantSection(question) in {General, About(Projects), About(Summary)}
  {
    DispatchHelp(Lower(question), FindRelevantSection(question));
  }

  /** "worked" is also a word of the experience branch, which is tried first:
      the "worked" of the projects branch never selects it. */
  lemma DispatchProjects(q: string, topic: Topic)
    requires Dispatch(q, topic) == ProjectList
    ensures ContainsAny(q, ["project", "built", "developed"])
  {
    assert "worked" in ExperienceWords;
    var w :| w in ProjectWords && Contains(q, w);
    assert w in ["project", "built", "developed"];
  }

  /** A question routed to the projects branch says "project", "built" or
      "developed". */
  lemma WorkedNeverSelectsProjects(question: string)
    requires Route(question) == ProjectList
    ensures ContainsAny(Lower(question), ["project", "built", "developed"])
  {
    DispatchProjects(Lower(question), FindRelevantSection(question));
  }

  /** The branch whose template an answer is; the unavailable message belongs
      to the guard, not to a branch. */
  function Template(a: Answer): Option<Category> {
    match a
    case Unavailable => None
    case Greeting(_, _, _) => Some(Identity)
    case ContactCard(_, _, _, _) => Some(ContactInfo)
    case ExperienceDetail(_, _) => Some(WorkExperience)
    case ExperienceBrief => Some(WorkExperience)
    case SkillsOverview => Some(TechnicalSkills)
    case EducationDetail(_) => Some(EducationInfo)
    case CertificationsOverview => Some(CertificationList)
    case ProjectsOverview => Some(ProjectList)
    case SummaryOf(_, _) => Some(ProfessionalSummary)
    case Help => Some(TopicsHelp)
  }

  /** The first `resume_data` key a branch's template reads, if any: the
      f-strings are evaluated left to right, so this is the key named by the
      `KeyError` while the record is empty. */
  function FirstKeyRead(c: Category): Option<string> {
    match c
    case Identity => Some("name")
    case ContactInfo => Some("name")
    case WorkExperience => Some("experience_years")
    case EducationInfo => Some("education")
    case ProfessionalSummary => Some("name")
    case _ => None
  }

  /** Every value an answer carries is the field of the record its template
      reads. */
  predicate DrawnFrom(a: Answer, d: ResumeRecord) {
    match a
    case Greeting(name, title, location) =>
      name == d.name && title == d.title && location == d.location
    case ContactCard(name, email, phone, location) =>
      name == d.name && email == d.email && phone == d.phone && location == d.location
    case ExperienceDetail(years, _) => years == d.experienceYears
    case EducationDetail(education) => education == d.education
    case SummaryOf(name, years) => name == d.name && years == d.experienceYears
    case _ => true
  }

  /** The template of a category filled in from the chatbot's state. The
      answer is always that category's template, with every value taken from
      the record. A template fails exactly when it reads a key while the
      record is empty, and the error names the first key it reads; the
      experience template reads the record only when the extracted section is
      non-empty, and otherwise gives the brief answer. Its excerpt is a
      non-empty prefix of at most 1500 characters of the section. */
  function Fill(b: Chatbot, c: Category): (r: Result<Answer, MissingKey>)
    ensures r.Success? ==> Template(r.value) == Some(c)
    ensures r.Success? && b.resumeData.Some? ==> DrawnFrom(r.value, b.resumeData.value)
    ensures r.Failure? <==> b.resumeData.None? && FirstKeyRead(c).Some? && (c == WorkExperience ==> ExtractSection(b) != [])
    ensures r.Failure? ==> FirstKeyRead(c) == Some(r.error.key)
    ensures c == WorkExperience ==> (r == Success(ExperienceBrief) <==> ExtractSection(b) == [])
    ensures r.Success? && r.value.ExperienceDetail? ==>
              && 0 < |r.value.excerpt| <= ExcerptLimit
              && |r.value.excerpt| <= |ExtractSection(b)|
              && r.value.excerpt == ExtractSection(b)[..|r.value.excerpt|]
              && (|r.value.excerpt| == ExcerptLimit || r.value.excerpt == ExtractSection(b))
  {
    match c
    case Identity =>
      if b.resumeData.None? then Failure(MissingKey("name"))
      else
        var d := b.resumeData.value;
        Success(Greeting(d.name, d.title, d.location))
    case ContactInfo =>
      if b.resumeData.None? then Failure(MissingKey("name"))
      else
        var d := b.resumeData.value;
        Success(ContactCard(d.name, d.email, d.phone, d.location))
    case WorkExperience =>
      var section := ExtractSection(b);
      if section == [] then Success(ExperienceBrief)
      else if b.resumeData.None? then Failure(MissingKey("experience_years"))
      else Success(ExperienceDetail(b.resumeData.value.experienceYears, Take(section, ExcerptLimit)))
    case TechnicalSkills =>
      Success(SkillsOverview)
    case EducationInfo =>
      if b.resumeData.None? then Failure(MissingKey("education"))
      else Success(EducationDetail(b.resumeData.value.education))
    case CertificationList =>
      Success(CertificationsOverview)
    case ProjectList =>
      Success(ProjectsOverview)
    case ProfessionalSummary =>
      if b.resumeData.None? then Failure(MissingKey("name"))
      else
        var d := b.resumeData.value;
        Success(SummaryOf(d.name, d.experienceYears))
    case TopicsHelp =>
      Success(Help)
  }

  /** The guard of line 112 as written: the text is empty or mentions
      "Error" or "not found". */
  predicate IsUnavailableAsWritten(text: string) {
    text == [] || Contains(text, "Error") || Contains(text, "not found")
  }

  /** The guard as evidently intended: it also recognises the sentinel
      `load_resume` stores when the PDF has no text. */
  predicate IsUnavailable(text: string) {
    IsUnavailableAsWritten(text) || Contains(text, "Could not extract")
  }

  /** `generate_answer` exactly as written. */
  function GenerateAnswerAsWritten(b: Chatbot, question: string): (r: Result<Answer, MissingKey>)
    ensures IsUnavailableAsWritten(b.resumeText) ==> r == Success(Unavailable)
    ensures r == Success(Unavailable) ==> IsUnavailableAsWritten(b.resumeText)
    ensures r.Failure? ==> b.resumeData.None?
    ensures !IsUnavailableAsWritten(b.resumeText) && r.Success? ==> Template(r.value) == Some(Route(question))
    ensures !IsUnavailableAsWritten(b.resumeText) && r.Failure? ==> FirstKeyRead(Route(question)) == Some(r.error.key)
    ensures !IsUnavailableAsWritten(b.resumeText) && r.Success? && b.resumeData.Some? ==> DrawnFrom(r.value, b.resumeData.value)
    ensures !IsUnavailableAsWritten(b.resumeText) ==>
              (r.Failure? <==> b.resumeData.None? && FirstKeyRead(Route(question)).Some?
                               && (Route(question) == WorkExperience ==> ExtractSection(b) != []))
    ensures !IsUnavailableAsWritten(b.resumeText) && Route(question) == WorkExperience ==>
              (r == Success(ExperienceBrief) <==> ExtractSection(b) == [])
  {
    if IsUnavailableAsWritten(b.resumeText) then Success(Unavailable)
    else Fill(b, Route(question))
  }

  /** `generate_answer` with the corrected guard: the unavailable answer comes
      back exactly when the guard fires, whatever the question; otherwise the
      routed template, which cannot fail once the record is filled. */
  function GenerateAnswer(b: Chatbot, question: string): (r: Result<Answer, MissingKey>)
    ensures IsUnavailable(b.resumeText) ==> r == Success(Unavailable)
    ensures r == Success(Unavailable) ==> IsUnavailable(b.resumeText)
    ensures b.resumeData.Some? ==> r.Success?
    ensures !IsUnavailable(b.resumeText) ==> r == GenerateAnswerAsWritten(b, question)
  {
    if IsUnavailable(b.resumeText) then Success(Unavailable)
    else Fill(b, Route(question))
  }

  /** Past the guard as written, with a filled record, an identity question
      gets the greeting built from the record's name, title and location,
      even when it also asks for contact details or anything else; so does
      it with the corrected guard, whenever that guard lets it through. */
  lemma IdentityWinsOverEveryBranch(b: Chatbot, question: string)
    requires !IsUnavailableAsWritten(b.resumeText) && b.resumeData.Some?
    requires ContainsAny(Lower(question), IdentityWords)
    ensures GenerateAnswerAsWritten(b, question) ==
              Success(Greeting(b.resumeData.value.name, b.resumeData.value.title, b.resumeData.value.location))
    ensures !IsUnavailable(b.resumeText) ==>
              GenerateAnswer(b, question) == GenerateAnswerAsWritten(b, question)
  {
  }

  /** A filled résumé whose own text happens to say "Could not extract" is
      answered as written, but silenced by the corrected guard: the price of
      recognising the no-text sentinel by a phrase. */
  lemma CouldNotExtractSilencesCorrected(b: Chatbot, question: string)
    requires !IsUnavailableAsWritten(b.resumeText) && b.resumeData.Some?
    requires Contains(b.resumeText, "Could not extract")
    ensures GenerateAnswerAsWritten(b, question).Success?
    ensures GenerateAnswerAsWritten(b, question) != Success(Unavailable)
    ensures GenerateAnswer(b, question) == Success(Unavailable)
  {
  }

  /** "What is your name and email?" gets the greeting, not the contact card. */
  lemma NameAndEmailGetsGreeting(b: Chatbot)
    requires !IsUnavailableAsWritten(b.resumeText) && b.resumeData.Some?
    ensures GenerateAnswerAsWritten(b, "what is your name and email?").value.Greeting?
    ensures !IsUnavailable(b.resumeText) ==> GenerateAnswer(b, "what is your name and email?").value.Greeting?
  {
    NameAndEmailAsksForName();
    IdentityWinsOverEveryBranch(b, "what is your name and email?");
  }

  /** "what is your name and email?" is an identity question. */
  lemma NameAndEmailAsksForName()
    ensures ContainsAny(Lower("what is your name and email?"), IdentityWords)
  {
    var question := "what is your name and email?";
    assert OccursAt(question, "name", 13);
    LowerKeepsOccurrence(question, "name", 13);
    AsksForName(question);
  }

  /** A question that says "name", in any case, is an identity question. */
  lemma AsksForName(question: string)
    requires exists i :: OccursAt(Lower(question), "name", i)
    ensures ContainsAny(Lower(question), IdentityWords)
  {
    assert "name" in IdentityWords;
  }

  /** Past the guard as written, with a filled record, a question that
      reaches the contact branch, because its section is contact or because
      it says "contact", "email", "phone" or "reach", is answered with the
      record's email and phone; the corrected guard, when it lets the
      question through, gives the same answer. */
  lemma ContactAnswerCarriesEmailAndPhone(b: Chatbot, question: string)
    requires !IsUnavailableAsWritten(b.resumeText) && b.resumeData.Some?
    requires !ContainsAny(Lower(question), IdentityWords)
    requires FindRelevantSection(question) == About(Contact) || ContainsAny(Lower(question), ContactWords)
    ensures GenerateAnswerAsWritten(b, question).Success?
    ensures GenerateAnswerAsWritten(b, question).value.ContactCard?
    ensures GenerateAnswerAsWritten(b, question).value.email == b.resumeData.value.email
    ensures GenerateAnswerAsWritten(b, question).value.phone == b.resumeData.value.phone
    ensures !IsUnavailable(b.resumeText) ==> GenerateAnswer(b, question) == GenerateAnswerAsWritten(b, question)
  {
  }

  /** Routing ignores case: a question and its lower-cased form get the same
      answer, from `generate_answer` as written and with the corrected
      guard. */
  lemma {:induction false} AnswerIgnoresCase(b: Chatbot, question: string)
    ensures GenerateAnswerAsWritten(b, Lower(question)) == GenerateAnswerAsWritten(b, question)
    ensures GenerateAnswer(b, Lower(question)) == GenerateAnswer(b, question)
  {
    LowerIdempotent(question);
    SameLowerSameAnswer(b, Lower(question), question);
  }

  /** Two questions that lower-case alike get the same section and the same
      answer, as written and with the corrected guard. */
  lemma SameLowerSameAnswer(b: Chatbot, q1: string, q2: string)
    requires Lower(q1) == Lower(q2)
    ensures FindRelevantSection(q1) == FindRelevantSection(q2)
    ensures GenerateAnswerAsWritten(b, q1) == GenerateAnswerAsWritten(b, q2)
    ensures GenerateAnswer(b, q1) == GenerateAnswer(b, q2)
  {
    assert Route(q1) == Route(q2);
  }

  /** A loaded résumé that happens to mention "Error" (say, "Error handling")
      is treated as a failed load: every question gets the unavailable
      answer, as written and with the corrected guard. */
  lemma ErrorWordSilencesResume(b: Chatbot, question: string)
    requires Contains(b.resumeText, "Error")
    ensures GenerateAnswerAsWritten(b, question) == Success(Unavailable)
    ensures GenerateAnswer(b, question) == Success(Unavailable)
  {
  }

  /** The missing-file sentinel says "not found", so the guard fires. */
  lemma FileNotFoundIsUnavailable()
    ensures IsUnavailableAsWritten(FileNotFoundText)
  {
    assert FileNotFoundText[12..21] == "Resume file not found."[12..21];
    assert OccursAt(FileNotFoundText, "not found", 12);
  }

  /** A load-error sentinel starts with "Error", so the guard fires. */
  lemma LoadErrorIsUnavailable(message: string)
    ensures IsUnavailableAsWritten(LoadErrorPrefix + message)
  {
    assert OccursAt(LoadErrorPrefix + message, "Error", 0);
  }

  /** The no-text sentinel says neither "Error" nor "not found": only the
      corrected guard fires on it. */
  lemma NoTextOnlyCaughtByCorrectedGuard()
    ensures !IsUnavailableAsWritten(NoTextText)
    ensures IsUnavailable(NoTextText)
  {
    NoTextLacksError();
    NoTextLacksNotFound();
    NoTextSaysCouldNotExtract();
  }

  /** Pages that are all whitespace, no pages at all included, leave the
      no-text sentinel, an empty record and no extracted section. */
  lemma BlankPagesLeaveNoText(pages: seq<string>, fields: FieldMatches, capture: Option<string>)
    requires forall p :: 0 <= p < |pages| ==> AllSpace(pages[p])
    ensures LoadResume(PagesRead(pages, fields, capture)) == Chatbot(NoTextText, None, None)
  {
  }

  /** As written, the guard misses the no-text sentinel: a PDF whose pages
      are blank leaves `resume_data` empty, and an identity question such as
      "what is your name?" raises `KeyError('name')` instead of getting the
      unavailable answer. */
  lemma BlankPdfSlipsPastGuard(pages: seq<string>, fields: FieldMatches, capture: Option<string>, question: string)
    requires forall p :: 0 <= p < |pages| ==> AllSpace(pages[p])
    requires ContainsAny(Lower(question), IdentityWords)
    ensures var b := LoadResume(PagesRead(pages, fields, capture));
            && !IsUnavailableAsWritten(b.resumeText)
            && GenerateAnswerAsWritten(b, question) == Failure(MissingKey("name"))
  {
    BlankPagesLeaveNoText(pages, fields, capture);
    NoTextOnlyCaughtByCorrectedGuard();
  }

  /** "what is your name?" is such a question. */
  lemma WhatIsYourNameAsksForName()
    ensures ContainsAny(Lower("what is your name?"), IdentityWords)
  {
    var question := "what is your name?";
    assert OccursAt(question, "name", 13);
    LowerKeepsOccurrence(question, "name", 13);
    AsksForName(question);
  }

  /** Every state `load_resume` can leave behind either trips the corrected
      guard or has its record filled. */
  lemma LoadedStateGuardedOrFilled(o: LoadOutcome)
    ensures IsUnavailable(LoadResume(o).resumeText) || LoadResume(o).resumeData.Some?
  {
    match o
    case FileMissing =>
      FileNotFoundIsUnavailable();
    case ReadFailed(message) =>
      LoadErrorIsUnavailable(message);
    case PagesRead(_, _, _) =>
      NoTextOnlyCaughtByCorrectedGuard();
  }

  /** With the corrected guard, every state `load_resume` can leave behind
      answers every question without raising. */
  lemma LoadedStateAlwaysAnswers(o: LoadOutcome, question: string)
    ensures GenerateAnswer(LoadResume(o), question).Success?
  {
    LoadedStateGuardedOrFilled(o);
  }
}
