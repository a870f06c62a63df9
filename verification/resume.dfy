/** The chatbot's state: the résumé text and the record of fields extracted
    from it (`ResumeChatbot.__init__`, `load_resume`, `parse_resume_data` and
    `extract_section`, rupanjal_chatbot/app.py:6-79). Reading the PDF and the
    regular expressions themselves are not modelled: what they produce enters
    as inputs. */
module Resume {
  import opened Wrappers
  import opened Text

  const OwnerName := "Rupanjal Dasgupta"
  const OwnerTitle := "Software Engineer | 7+ Years in IT"
  const OwnerLocation := "Iselin, NJ"
  const DefaultEmail := "rupimon@gmail.com"
  const DefaultPhone := "732.589.6436"
  const DefaultExperienceYears := "7+"
  const DefaultEducation := "Bachelor of Art in Information Technology"

  /** The `resume_data` dictionary once `parse_resume_data` has filled it. */
  datatype ResumeRecord = ResumeRecord(
    name: string,
    title: string,
    location: string,
    email: string,
    phone: string,
    experienceYears: string,
    education: string,
    skillsText: string)

  /** What each `re.search` of `parse_resume_data` found in the résumé text,
      `None` for no match: the whole match for email, phone and education,
      the first group for the experience years and the skills section. */
  datatype FieldMatches = FieldMatches(
    email: Option<string>,
    phone: Option<string>,
    experienceYears: Option<string>,
    education: Option<string>,
    skills: Option<string>)

  /** `parse_resume_data`: every extracted field is its match when there is
      one and its fixed fallback otherwise; name, title and location are
      constants that ignore the text; the skills text is the captured section
      with the whitespace at both ends removed. */
  function ParseResumeData(m: FieldMatches): (r: ResumeRecord)
    ensures r.name == OwnerName && r.title == OwnerTitle && r.location == OwnerLocation
    ensures m.email.None? ==> r.email == DefaultEmail
    ensures m.email.Some? ==> r.email == m.email.value
    ensures m.phone.None? ==> r.phone == DefaultPhone
    ensures m.phone.Some? ==> r.phone == m.phone.value
    ensures m.experienceYears.None? ==> r.experienceYears == DefaultExperienceYears
    ensures m.experienceYears.Some? ==> r.experienceYears == m.experienceYears.value
    ensures m.education.None? ==> r.education == DefaultEducation
    ensures m.education.Some? ==> r.education == m.education.value
    ensures m.skills.Some? ==> IsStripOf(r.skillsText, m.skills.value)
    ensures r.skillsText == [] <==> m.skills.None? || AllSpace(m.skills.value)
  {
    ResumeRecord(
      name := OwnerName,
      title := OwnerTitle,
      location := OwnerLocation,
      email := m.email.GetOr(DefaultEmail),
      phone := m.phone.GetOr(DefaultPhone),
      experienceYears := m.experienceYears.GetOr(DefaultExperienceYears),
      education := m.education.GetOr(DefaultEducation),
      skillsText := Strip(m.skills.GetOr("")))
  }

  /** Each extracted field depends on its own match and on nothing else. */
  lemma FieldsAreIndependent(m1: FieldMatches, m2: FieldMatches)
    ensures m1.email == m2.email ==> ParseResumeData(m1).email == ParseResumeData(m2).email
    ensures m1.phone == m2.phone ==> ParseResumeData(m1).phone == ParseResumeData(m2).phone
    ensures m1.experienceYears == m2.experienceYears ==>
              ParseResumeData(m1).experienceYears == ParseResumeData(m2).experienceYears
    ensures m1.education == m2.education ==> ParseResumeData(m1).education == ParseResumeData(m2).education
    ensures m1.skills == m2.skills ==> ParseResumeData(m1).skillsText == ParseResumeData(m2).skillsText
  {
  }

  /** The sentinel `load_resume` stores when the PDF file is missing (two
      sentences). */
  const FileNotFoundText := "Resume file not found." + " Please ensure the resume PDF is uploaded to the space."
  /** The sentinel it stores when the pages yield no text. */
  const NoTextText := "Could not extract text from the PDF file."
  /** The no-text sentinel has no upper-case 'E' and no 'u' past its "Could". */
  lemma NoTextLetters()
    ensures forall k :: 0 <= k < |NoTextText| ==> NoTextText[k] != 'E'
    ensures forall k :: 6 <= k < |NoTextText| ==> NoTextText[k] != 'u'
  {
  }

  /** The no-text sentinel does not mention "Error". */
  lemma NoTextLacksError()
    ensures !Contains(NoTextText, "Error")
  {
    NoTextLetters();
    AbsentCharExcludes(NoTextText, "Error", 0);
  }

  /** The no-text sentinel does not mention "not found". */
  lemma NoTextLacksNotFound()
    ensures !Contains(NoTextText, "not found")
  {
    NoTextLetters();
    AbsentCharExcludes(NoTextText, "not found", 6);
  }

  /** The no-text sentinel starts with "Could not extract". */
  lemma NoTextSaysCouldNotExtract()
    ensures Contains(NoTextText, "Could not extract")
  {
    assert OccursAt(NoTextText, "Could not extract", 0);
  }

  /** The prefix of the sentinel it stores when reading raises. */
  const LoadErrorPrefix := "Error loading resume: "

  /** The chatbot object after construction: `resume_text`, `resume_data`
      (`None` while the dictionary is still empty), and what the regular
      expression of `extract_section('Software Engineer')` captures in the
      text (`None` for no match). */
  datatype Chatbot = Chatbot(
    resumeText: string,
    resumeData: Option<ResumeRecord>,
    engineerCapture: Option<string>)

  /** What reading the PDF produced. For pages that were read, the results of
      the regular expressions on the text come with them. */
  datatype LoadOutcome =
    | FileMissing
    | ReadFailed(message: string)
    | PagesRead(pages: seq<string>, fields: FieldMatches, engineerCapture: Option<string>)

  /** `text += page.extract_text() + "\n"` over all pages: each page followed
      by a newline, so the text ends in a newline when there is a page, and
      it is all whitespace exactly when every page is. */
  function JoinPages(pages: seq<string>): (text: string)
    ensures |pages| > 0 ==> |text| > 0 && text[|text| - 1] == '\n'
    ensures AllSpace(text) <==> forall p :: 0 <= p < |pages| ==> AllSpace(pages[p])
  {
    if pages == [] then ""
    else
      var init, last := pages[..|pages| - 1], pages[|pages| - 1];
      var text := JoinPages(init);
      AllSpaceConcat(text + last, "\n");
      AllSpaceConcat(text, last);
      assert forall p :: 0 <= p < |init| ==> init[p] == pages[p];
      text + last + "\n"
  }

  /** A single page contributes its text followed by a newline. */
  lemma JoinPagesOne(p: string)
    ensures JoinPages([p]) == p + "\n"
  {
    assert [p][..0] == [];
  }

  /** Joining keeps the pages in order: the text of `a + b` is the text of
      `a` followed by the text of `b`. */
  lemma {:induction false} JoinPagesAppend(a: seq<string>, b: seq<string>)
    ensures JoinPages(a + b) == JoinPages(a) + JoinPages(b)
  {
    if b == [] {
      assert a + b == a;
    } else {
      var init, last := b[..|b| - 1], b[|b| - 1];
      var ab := a + b;
      assert ab[..|ab| - 1] == a + init;
      assert ab[|ab| - 1] == last;
      assert JoinPages(ab) == JoinPages(a + init) + last + "\n";
      assert JoinPages(b) == JoinPages(init) + last + "\n";
      JoinPagesAppend(a, init);
      var x, y := JoinPages(a), JoinPages(init);
      assert (x + y) + last + "\n" == x + (y + last + "\n");
    }
  }

  /** `load_resume` followed by `parse_resume_data`: the record is filled
      exactly when some page has non-blank text, and then the text is the
      joined pages stripped; otherwise the text is the sentinel for what went
      wrong. The text is never left empty. */
  function LoadResume(o: LoadOutcome): (b: Chatbot)
    ensures b.resumeText != []
    ensures b.resumeData.Some? <==> o.PagesRead? && exists p :: 0 <= p < |o.pages| && !AllSpace(o.pages[p])
    ensures b.resumeData.Some? ==> b.resumeData.value == ParseResumeData(o.fields)
    ensures b.resumeData.Some? ==> IsStripOf(b.resumeText, JoinPages(o.pages))
    ensures b.resumeData.Some? ==> b.engineerCapture == o.engineerCapture
    ensures o.PagesRead? && b.resumeData.None? ==> b.resumeText == NoTextText && b.engineerCapture.None?
    ensures o.FileMissing? ==> b.resumeText == FileNotFoundText
    ensures o.ReadFailed? ==> b.resumeText == LoadErrorPrefix + o.message
  {
    match o
    case FileMissing =>
      Chatbot(FileNotFoundText, None, None)
    case ReadFailed(message) =>
      Chatbot(LoadErrorPrefix + message, None, None)
    case PagesRead(pages, fields, capture) =>
      var text := Strip(JoinPages(pages));
      if text != [] then Chatbot(text, Some(ParseResumeData(fields)), capture)
      else Chatbot(NoTextText, None, None)
  }

  /** `extract_section('Software Engineer')`: the captured text with the
      whitespace at both ends removed, or empty when nothing was captured. */
  function ExtractSection(b: Chatbot): (section: string)
    ensures b.engineerCapture.Some? ==> IsStripOf(section, b.engineerCapture.value)
    ensures section == [] <==> b.engineerCapture.None? || AllSpace(b.engineerCapture.value)
  {
    match b.engineerCapture
    case Some(g) => Strip(g)
    case None => ""
  }
}
