# Ask Rupanjal: the résumé chatbot's answering core, in Dafny

The chatbot in `rupanjal_chatbot/app.py` loads a résumé PDF once and then
answers questions typed into a chat window. This project models how it
decides what to say:

- **Loading.** `load_resume` and `parse_resume_data` run when the chatbot is
  built. `load_resume` leaves either the stripped text of the PDF's pages or
  one of three sentinel sentences. `parse_resume_data` fills a record with
  fixed name, title and location. Its email, phone, experience years and
  education come from the text, with a fixed fallback for each.
- **Section picking.** `find_relevant_section` scores seven sections by how
  many of their keywords occur in the lower-cased question. It then
  stable-sorts the sections that scored, highest first, and takes the first.
- **Answering.** `generate_answer` first checks a guard for a résumé that
  failed to load. After that, a chain of first-match-wins branches chooses
  the reply template and fills it in from the record.
- **Chat.** `respond` turns blank messages away. It turns a raised error into
  an apology.

The modules follow that order:

- `Text`: Python's `lower`, `strip`, `in` and `s[:n]` on strings.
- `Sections`: the keyword table, scoring, the stable sort and the pick.
- `Resume`: the record, the fallbacks and the state `load_resume` leaves.
- `Answers`: the guard and the branch chain.
- `Chat`: `respond`.
- `Wrappers`: `Option` for a regex match that may be missing, and `Result`
  for a `KeyError` that may be raised.

Regex matches and PDF pages enter as inputs. The model does not compute them.

## Model

| member | source | states |
|---|---|---|
| Text.LowerChar | rupanjal_chatbot/app.py:83 | One character lowered: each of A-Z becomes the letter 32 code points later, the Kelvin sign U+212A becomes `k`, and every other character stays. The result is never upper-case, and whitespace stays whitespace. |
| Text.Lower | rupanjal_chatbot/app.py:83 | `question.lower()` maps A-Z to a-z and the Kelvin sign U+212A to `k`, character by character, and leaves no upper-case letter. Every other character stays, and whitespace stays whitespace. |
| Text.LowerIdempotent | rupanjal_chatbot/app.py:115 | Lower-casing an already lower-cased question changes nothing. |
| Text.LowerKeepsOccurrence | rupanjal_chatbot/app.py:119 | Lower-casing keeps an occurrence of a word that has no upper-case letter, such as "name", at the same place. |
| Text.Contains | rupanjal_chatbot/app.py:99 | `keyword in question_lower` holds exactly when the keyword occurs at some index. The empty keyword occurs everywhere. |
| Text.AbsentCharExcludes | rupanjal_chatbot/app.py:112 | A word cannot occur in a text that lacks one of its characters at the needed positions. This is how the sentinels are checked against the guard words. |
| Text.Strip | rupanjal_chatbot/app.py:30 | `strip()` is empty exactly on all-whitespace input. Otherwise it starts and ends with a non-space, occurs in the input, and only whitespace is cut off around it. |
| Text.StripIsUnique | rupanjal_chatbot/app.py:30 | Only one string is the input with the whitespace at both ends cut off, so that description fixes what `strip()` returns. |
| Text.Take | rupanjal_chatbot/app.py:134 | `exp_section[:1500]` is a prefix of at most 1500 characters. It is all of the section when the section is shorter. |
| Sections.Score | rupanjal_chatbot/app.py:99 | A score is the number of keyword positions whose keyword occurs in the question. So it is between 0 and the keyword count, and 0 exactly when no keyword occurs. |
| Sections.PositiveMembers | rupanjal_chatbot/app.py:97-101 | The match list holds exactly the sections with a positive score. It is empty exactly when no section scored. |
| Sections.PositiveKeepsOrder | rupanjal_chatbot/app.py:97-101 | The match list keeps table order: the matches of two consecutive stretches of rows are the first stretch's matches followed by the second's. |
| Sections.Insert | rupanjal_chatbot/app.py:104 | One insertion step of the sort adds the entry to the multiset and keeps the descending order. |
| Sections.InsertPlacesAheadOfEquals | rupanjal_chatbot/app.py:104 | The inserted entry lands after every entry that outscores it and directly ahead of the first that does not, so ahead of all entries of equal score. |
| Sections.SortByScore | rupanjal_chatbot/app.py:104 | `sort(key=score, reverse=True)` is a permutation of the matches into descending score order. Because the sort is stable, its head is the first of the highest-scoring entries, so ties go to the entry listed earlier. |
| Sections.FirstMaxExists | rupanjal_chatbot/app.py:104-107 | Every non-empty match list has a first best entry. |
| Sections.SortStepHead | rupanjal_chatbot/app.py:104 | One insertion step keeps the first best entry at the front. An entry inserted ahead of an equal one stays ahead. |
| Sections.PositiveKeepsFirstMax | rupanjal_chatbot/app.py:97-101 | Dropping the zero scores keeps a positive first best entry first best. |
| Sections.Pick | rupanjal_chatbot/app.py:96-108 | For any keyword table, the result is `'general'` exactly when every row scored 0. Otherwise it is the section of a row with the highest score and nothing equal before it. |
| Sections.PickIsFirstBest | rupanjal_chatbot/app.py:96-108 | Whichever row has the highest positive score with nothing equal before it, its section is the one picked. |
| Sections.SectionScoreBounds | rupanjal_chatbot/app.py:86-99 | Each section's score lies between 0 and its keyword count. |
| Sections.TopSectionIsFirstBest | rupanjal_chatbot/app.py:86-107 | A section with the highest positive score and no equal before it in the dictionary is the first best row. |
| Sections.FirstBestIsTopSection | rupanjal_chatbot/app.py:86-107 | The first best row is such a top section. This is the converse. |
| Sections.FindRelevantSection | rupanjal_chatbot/app.py:81-108 | The result is `'general'` exactly when no keyword of the table occurs in the lower-cased question. Otherwise the picked section scores highest, and every section declared before it scores strictly less. |
| Sections.TopSectionIsPicked | rupanjal_chatbot/app.py:81-108 | A section that scores highest with every earlier section scoring less is the one picked, so the pick is the only such section. |
| Resume.ParseResumeData | rupanjal_chatbot/app.py:43-71 | Name, title and location are the fixed constants. Email, phone, experience years and education are the match when there is one. Otherwise they are "rupimon@gmail.com", "732.589.6436", "7+" and the Bachelor string. The skills text is the capture with the whitespace at both ends cut off. It is empty exactly when nothing was captured or the capture is all whitespace. |
| Resume.FieldsAreIndependent | rupanjal_chatbot/app.py:62-71 | Each field depends only on its own match. |
| Resume.JoinPages | rupanjal_chatbot/app.py:25-28 | The page text ends with a newline once a page was read. It is all whitespace exactly when every page is. |
| Resume.JoinPagesOne | rupanjal_chatbot/app.py:27-28 | One page contributes its extracted text followed by a newline. |
| Resume.JoinPagesAppend | rupanjal_chatbot/app.py:26-28 | The pages are joined in order: the text of two runs of pages is the text of the first run followed by the text of the second. With the one-page rule, this fixes the whole text. |
| Resume.LoadResume | rupanjal_chatbot/app.py:13-41 | The text is never left empty. The record is filled exactly when some page has non-blank text. Then the text is the joined pages with the whitespace at both ends cut off, and the record is `parse_resume_data`'s. Blank pages leave the no-text sentinel and no section. A missing file and a read error leave their own sentinels. |
| Resume.NoTextLacksError | rupanjal_chatbot/app.py:37 | The no-text sentinel does not contain "Error". |
| Resume.NoTextLacksNotFound | rupanjal_chatbot/app.py:37 | The no-text sentinel does not contain "not found". |
| Resume.NoTextSaysCouldNotExtract | rupanjal_chatbot/app.py:37 | The no-text sentinel contains "Could not extract". |
| Resume.ExtractSection | rupanjal_chatbot/app.py:75-79 | The section is the capture with the whitespace at both ends cut off. It is empty exactly when nothing was captured or the capture is all whitespace. |
| Answers.Dispatch | rupanjal_chatbot/app.py:119-228 | The branch conditions in order: identity words first, then each consulted section or its own words, then the projects and summary words, then the help text. Its contracts are the three `Dispatch` lemmas below. |
| Answers.DispatchIdentity | rupanjal_chatbot/app.py:119 | The identity branch fires exactly on "name", "who are you", "who is" or "yourself", whatever the section. |
| Answers.DispatchNoLater | rupanjal_chatbot/app.py:119-181 | When the section is one the chain consults, the question lands on that section's branch or an earlier one. |
| Answers.DispatchHelp | rupanjal_chatbot/app.py:119-228 | The help text is reached only for `'general'`, projects or summary. |
| Answers.Route | rupanjal_chatbot/app.py:115-226 | A question gets the identity branch exactly when its lower-cased form has an identity word. |
| Answers.SectionRoutesNoLater | rupanjal_chatbot/app.py:116-181 | A consulted section found by `find_relevant_section` is never passed over for a later branch. |
| Answers.HelpOnlyForUnconsultedSections | rupanjal_chatbot/app.py:116-228 | The help text goes only to questions whose section is `'general'`, projects or summary. |
| Answers.DispatchProjects | rupanjal_chatbot/app.py:129-183 | Whatever the section, the projects branch fires only on "project", "built" or "developed". |
| Answers.WorkedNeverSelectsProjects | rupanjal_chatbot/app.py:129-183 | The projects branch is reached only through "project", "built" or "developed". Its "worked" is already taken by the experience branch. |
| Answers.Fill | rupanjal_chatbot/app.py:119-228 | The answer is always the chosen branch's template, and every value in it is the record field the template reads. A template raises exactly when it reads `resume_data` while the record is empty. The `KeyError` names the first key read: `name` for identity, contact and summary, `education` for education, `experience_years` for experience. The experience branch gives the short answer exactly when the extracted section is empty. Otherwise its excerpt is a non-empty prefix of at most 1500 characters. |
| Answers.IsUnavailableAsWritten | rupanjal_chatbot/app.py:112 | The guard as written: the text is empty, or it contains "Error" or "not found". |
| Answers.GenerateAnswerAsWritten | rupanjal_chatbot/app.py:110-116 | With the guard as written, the unavailable message comes back exactly when the text is empty or contains "Error" or "not found". Past the guard, the answer is the template of the branch the question is routed to, and every value it carries is the record's field of that name. It raises exactly when the record is empty and the template reads a key, except that the experience branch raises only when the extracted section is non-empty. The raise names the first key the template reads. On the experience branch, the brief answer comes exactly when the section is empty. |
| Answers.GenerateAnswer | rupanjal_chatbot/app.py:110-116 | With the corrected guard, the unavailable message comes back exactly when the guard fires, for every question. A filled record never raises. Past the guard, the answer is the one the code as written gives. |
| Answers.IdentityWinsOverEveryBranch | rupanjal_chatbot/app.py:119-120 | Past the guard as written, with a filled record, an identity question gets the greeting built from the record's name, title and location, whatever else it asks. The corrected guard, when it lets the question through, gives the same answer. |
| Answers.CouldNotExtractSilencesCorrected | rupanjal_chatbot/app.py:112-113 | A filled résumé whose own text says "Could not extract" is answered as written but gets the unavailable message from the corrected guard. |
| Answers.NameAndEmailGetsGreeting | rupanjal_chatbot/app.py:119-127 | Past the guard as written, with a filled record, "what is your name and email?" gets the greeting, not the contact card. The corrected guard, when it lets the question through, gives the same. |
| Answers.NameAndEmailAsksForName | rupanjal_chatbot/app.py:119 | "what is your name and email?" is an identity question. |
| Answers.AsksForName | rupanjal_chatbot/app.py:119 | A question whose lower-cased form contains "name" is an identity question. |
| Answers.ContactAnswerCarriesEmailAndPhone | rupanjal_chatbot/app.py:122-127 | Past the guard as written, with a filled record, a question that reaches the contact branch is answered with the record's email and phone. The corrected guard, when it lets the question through, gives the same answer. |
| Answers.AnswerIgnoresCase | rupanjal_chatbot/app.py:115-116 | A question and its lower-cased form get the same answer, as written and with the corrected guard. |
| Answers.SameLowerSameAnswer | rupanjal_chatbot/app.py:115-116 | Two questions that lower-case alike get the same section and the same answer, as written and with the corrected guard. |
| Answers.ErrorWordSilencesResume | rupanjal_chatbot/app.py:112-113 | A résumé text containing "Error" gets the unavailable message for every question, as written and with the corrected guard. |
| Answers.FileNotFoundIsUnavailable | rupanjal_chatbot/app.py:112 | The missing-file sentinel trips the guard as written. |
| Answers.LoadErrorIsUnavailable | rupanjal_chatbot/app.py:112 | Every load-error sentinel trips the guard as written. |
| Answers.NoTextOnlyCaughtByCorrectedGuard | rupanjal_chatbot/app.py:112 | The no-text sentinel slips past the guard as written. The corrected guard catches it. |
| Answers.BlankPagesLeaveNoText | rupanjal_chatbot/app.py:25-37 | Pages that are all whitespace, no pages at all included, leave the no-text sentinel, an empty record and no section. |
| Answers.BlankPdfSlipsPastGuard | rupanjal_chatbot/app.py:110-120 | As written, an identity question asked after such pages passes the guard and raises `KeyError('name')`. |
| Answers.WhatIsYourNameAsksForName | rupanjal_chatbot/app.py:119 | "what is your name?" is an identity question. |
| Answers.LoadedStateGuardedOrFilled | rupanjal_chatbot/app.py:13-41 | Every state `load_resume` can leave either trips the corrected guard or has a filled record. |
| Answers.LoadedStateAlwaysAnswers | rupanjal_chatbot/app.py:110-120 | With the corrected guard, every state `load_resume` can leave answers every question without raising. |
| Chat.Outcome | rupanjal_chatbot/app.py:261-266 | An answer is shown as it is. A raised `KeyError` becomes the apology naming its key. Neither is the request for a question. |
| Chat.RespondAsWritten | rupanjal_chatbot/app.py:256-266 | `respond` as written, over `generate_answer` as written. A message gets the request for a question exactly when it is all whitespace, the empty one included. Any other message gets the chatbot's answer, or the apology naming the key that was missing. |
| Chat.RespondCorrected | rupanjal_chatbot/app.py:256-266 | With the corrected guard, the same: the request for a question exactly for all-whitespace messages, otherwise the corrected answer or the apology for its missing key. |
| Chat.UnavailableResumeAnswersEveryQuestion | rupanjal_chatbot/app.py:256-266 | While the text trips the guard as written, every message that is not blank gets the unavailable message, as written and with the corrected guard. |
| Chat.BlankIgnoresCase | rupanjal_chatbot/app.py:258 | Two messages that lower-case alike are either both blank or both not. |
| Chat.RespondIgnoresCase | rupanjal_chatbot/app.py:256-266 | Two messages that lower-case alike get the same reply, as written and with the corrected guard. |
| Chat.ApologyOnlyAfterBlankPdf | rupanjal_chatbot/app.py:256-266 | As written, a chatbot built by `load_resume` apologises only after a PDF whose pages are all blank, with the no-text sentinel as its text. |
| Chat.LoadedBotNeverApologises | rupanjal_chatbot/app.py:256-266 | With the corrected guard, a chatbot built by `load_resume` never answers with the apology. |
| Chat.BlankPdfIdentityQuestion | rupanjal_chatbot/app.py:256-266 | After all-blank pages, every identity question that is not blank gets the apology naming 'name' as written. With the corrected guard it gets the unavailable message. |
| Chat.BlankPdfNameQuestion | rupanjal_chatbot/app.py:256-266 | After all-blank pages, "what is your name?" gets the apology naming 'name' as written. With the corrected guard it gets the unavailable message. |

## Left out

- Reading the PDF (`os.path.exists`, `open` and PyPDF2): its result enters as a `LoadOutcome`, which is a missing file, a read error with its message, or the text of each page.
- The regular expressions of `parse_resume_data` and `extract_section`: what each one matches enters as an `Option`. The model does not decide what they match.
- The `try`/`except` in `parse_resume_data` (lines 72-73): nothing inside it raises once its matches are given, so it is not modelled.
- Text.Lower, Text.LowerChar: Python lowers U+0130 (capital I with dot above) to two characters, `i` followed by U+0307. The model keeps U+0130 as it is, so for that character it does not keep Python's length. No match changes: a match that used the new `i` would need a keyword ending in `i` or containing U+0307, and no keyword or guard word does. Every other character Python changes becomes a non-ASCII letter, and the keywords are ASCII, so leaving those characters alone changes no match either.
- The template text of each reply, with its emoji and fixed paragraphs: an `Answer` keeps which template was chosen and the values filled into it.
- The Gradio interface and its example questions (lines 268-355), and the `print` calls (lines 18, 34, 36, 40, 73 and 265): these are presentation and I/O.
- The wording of the help reply (lines 228-248) is left out with the other template text: the model keeps only that `Help` was chosen.
- Answers.GenerateAnswer: the corrected guard recognises the no-text sentinel by the phrase "Could not extract", so it also silences a filled résumé whose own text contains that phrase. `Answers.CouldNotExtractSilencesCorrected` states this. The same cost already applies as written to "Error" and "not found".
- The `history` parameter of `respond`: the body never reads it.
- Chat.RespondAsWritten: the apology carries only the missing key, not the formatted message "Sorry, I encountered an error: …". The same holds for `Chat.RespondCorrected` and `Chat.Outcome`.
- Sections.SortByScore: its contract states a permutation into descending order whose head is the first best entry. It does not state full stability for every position, because the code reads only the head.

## Findings

| source | as written | input that shows it | evidently intended | confidence | as-written member | corrected member |
|---|---|---|---|---|---|---|
| rupanjal_chatbot/app.py:112 | The guard checks only for an empty text, "Error" or "not found". The no-text sentinel "Could not extract text from the PDF file." has none of these, so the guard lets it through while `resume_data` is still `{}`. | A PDF whose pages give only whitespace, then the question "what is your name?": the identity template reads `resume_data['name']` and raises `KeyError('name')`. `respond` then apologises. | Every sentinel `load_resume` can store gets the unavailable message. | medium (not executed) | Answers.GenerateAnswerAsWritten, Answers.BlankPdfSlipsPastGuard, Chat.RespondAsWritten, Chat.BlankPdfIdentityQuestion | Answers.GenerateAnswer, Answers.LoadedStateGuardedOrFilled, Chat.RespondCorrected, Chat.LoadedBotNeverApologises |
