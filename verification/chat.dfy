/** The chat handler `respond` (rupanjal_chatbot/app.py:256-266): blank
    messages are turned away before the chatbot sees them, and a raised
    error becomes an apology naming it. */
module Chat {
  import opened Wrappers
  import opened Text
  import opened Resume
  import opened Answers

  /** What the chat window shows: the request for a question, an answer, or
      the apology for a raised `KeyError` with its key. */
  datatype Reply =
    | AskForQuestion
    | Answered(answer: Answer)
    | Apology(key: string)

  /** The `try`/`except` around `generate_answer`: an answer is shown, a
      raised error becomes the apology naming its key. */
  function Outcome(result: Result<Answer, MissingKey>): (r: Reply)
    ensures r != AskForQuestion
    ensures r.Answered? <==> result.Success?
    ensures r.Answered? ==> result == Success(r.answer)
    ensures r.Apology? ==> result == Failure(MissingKey(r.key))
  {
    match result
    case Success(a) => Answered(a)
    case Failure(e) => Apology(e.key)
  }

  /** `respond(message, history)` as written, calling `generate_answer` as
      written. The history is not read. A message that is all whitespace,
      the empty one included, gets the request for a question; any other
      gets the chatbot's answer, or the apology when the answer raises. */
  function RespondAsWritten(b: Chatbot, message: string): (r: Reply)
    ensures r == AskForQuestion <==> AllSpace(message)
    ensures r.Answered? ==> GenerateAnswerAsWritten(b, message) == Success(r.answer)
    ensures r.Apology? ==> GenerateAnswerAsWritten(b, message) == Failure(MissingKey(r.key))
  {
    if Strip(message) == [] then AskForQuestion else Outcome(GenerateAnswerAsWritten(b, message))
  }

  /** `respond` calling `generate_answer` with the corrected guard. */
  function RespondCorrected(b: Chatbot, message: string): (r: Reply)
    ensures r == AskForQuestion <==> AllSpace(message)
    ensures r.Answered? ==> GenerateAnswer(b, message) == Success(r.answer)
    ensures r.Apology? ==> GenerateAnswer(b, message) == Failure(MissingKey(r.key))
  {
    if Strip(message) == [] then AskForQuestion else Outcome(GenerateAnswer(b, message))
  }

  /** While the résumé text trips the guard as written, every question that
      is not blank gets the unavailable message, from either version. */
  lemma UnavailableResumeAnswersEveryQuestion(b: Chatbot, message: string)
    requires IsUnavailableAsWritten(b.resumeText)
    requires !AllSpace(message)
    ensures RespondAsWritten(b, message) == Answered(Unavailable)
    ensures RespondCorrected(b, message) == Answered(Unavailable)
  {
  }

  /** Lower-casing keeps whitespace whitespace, so two messages that
      lower-case alike are either both blank or both not. */
  lemma {:induction false} BlankIgnoresCase(m1: string, m2: string)
    requires Lower(m1) == Lower(m2)
    ensures AllSpace(m1) <==> AllSpace(m2)
  {
    assert |m1| == |m2|;
    forall i | 0 <= i < |m1|
      ensures IsSpace(m1[i]) <==> IsSpace(m2[i])
    {
      assert Lower(m1)[i] == LowerChar(m1[i]);
      assert Lower(m2)[i] == LowerChar(m2[i]);
    }
  }

  /** Two messages that lower-case alike get the same reply, as written and
      with the corrected guard. */
  lemma RespondIgnoresCase(b: Chatbot, m1: string, m2: string)
    requires Lower(m1) == Lower(m2)
    ensures RespondAsWritten(b, m1) == RespondAsWritten(b, m2)
    ensures RespondCorrected(b, m1) == RespondCorrected(b, m2)
  {
    BlankIgnoresCase(m1, m2);
    SameLowerSameAnswer(b, m1, m2);
  }

  /** With the corrected guard, whatever `load_resume` left behind, the
      chatbot never apologises. */
  lemma LoadedBotNeverApologises(o: LoadOutcome, message: string)
    ensures !RespondCorrected(LoadResume(o), message).Apology?
  {
    LoadedStateAlwaysAnswers(o, message);
  }

  /** As written, the chatbot apologises only after reading a PDF whose
      pages are all blank, so that the no-text sentinel is the text. */
  lemma ApologyOnlyAfterBlankPdf(o: LoadOutcome, message: string)
    requires RespondAsWritten(LoadResume(o), message).Apology?
    ensures o.PagesRead? && forall p :: 0 <= p < |o.pages| ==> AllSpace(o.pages[p])
    ensures LoadResume(o).resumeText == NoTextText
  {
    match o
    case FileMissing =>
      FileNotFoundIsUnavailable();
    case ReadFailed(m) =>
      LoadErrorIsUnavailable(m);
    case PagesRead(_, _, _) =>
  }

  /** As written, after a blank PDF every identity question ends in the
      apology for the missing key 'name'; with the corrected guard it gets
      the unavailable answer. */
  lemma BlankPdfIdentityQuestion(pages: seq<string>, fields: FieldMatches, capture: Option<string>, question: string)
    requires forall p :: 0 <= p < |pages| ==> AllSpace(pages[p])
    requires ContainsAny(Lower(question), IdentityWords) && !AllSpace(question)
    ensures var b := LoadResume(PagesRead(pages, fields, capture));
            && RespondAsWritten(b, question) == Apology("name")
            && RespondCorrected(b, question) == Answered(Unavailable)
  {
    BlankPdfSlipsPastGuard(pages, fields, capture, question);
    NoTextOnlyCaughtByCorrectedGuard();
  }

  /** "what is your name?" is such a question: as written, a blank PDF makes
      it end in the apology for 'name'. */
  lemma BlankPdfNameQuestion(pages: seq<string>, fields: FieldMatches, capture: Option<string>)
    requires forall p :: 0 <= p < |pages| ==> AllSpace(pages[p])
    ensures var b := LoadResume(PagesRead(pages, fields, capture));
            && RespondAsWritten(b, "what is your name?") == Apology("name")
            && RespondCorrected(b, "what is your name?") == Answered(Unavailable)
  {
    WhatIsYourNameAsksForName();
    assert !IsSpace("what is your name?"[0]);
    BlankPdfIdentityQuestion(pages, fields, capture, "what is your name?");
  }
}
