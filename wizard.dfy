/**
 * The wizard (App.tsx): a five-screen state machine that takes an uploaded
 * announcement PDF, asks the active questions one at a time in a chat, and
 * finally asks the generation service for a planning guide.
 */
module Wizard {
  import opened Outcomes
  import opened Text
  import opened Types
  import GuideService
  import Chat
  import QuestionEditing

  const PdfMimeType: string := "application/pdf"
  const PdfOnlyMessage: string := "PDF 파일만 업로드할 수 있습니다."
  const PdfProcessingMessage: string := "PDF 파일을 처리하는 중 오류가 발생했습니다."
  const FileReadMessage: string := "파일을 읽는 중 오류가 발생했습니다."
  const MissingContentMessage: string := "File content is not available."

  /** What extracting one page yields: its text items, or a failure. */
  datatype PageOutcome = PageItems(items: seq<string>) | PageFailed

  /**
   * What the PDF library makes of the bytes: nothing at all (no buffer, or
   * the library is not loaded), a document it could not open, or the pages
   * of the opened document in order 1..numPages.
   */
  datatype DocumentOutcome = LibraryUnavailable | OpenFailed | Opened(pages: seq<PageOutcome>)

  /** What reading the file's bytes yields. */
  datatype ReadOutcome = ReadFailed | Loaded(document: DocumentOutcome)

  /** An uploaded file: its declared type, and what reading and parsing it would give. */
  datatype UploadedFile = UploadedFile(mimeType: string, read: ReadOutcome)

  // ---------------------------------------------------------------------------
  // Active questions

  /**
   * The questions actually asked: the stored ones that are not blank (their
   * trimmed form is not empty), in their stored order.
   */
  function ActiveQuestions(questions: seq<string>): (active: seq<string>)
    ensures |active| <= |questions|
  {
    if questions == [] then []
    else if !IsBlank(questions[0]) then [questions[0]] + ActiveQuestions(questions[1..])
    else ActiveQuestions(questions[1..])
  }

  /**
   * A question is active exactly when it is stored and not blank, and every
   * active question has a non-empty trimmed form.
   */
  lemma {:induction false} ActiveQuestionsMembers(questions: seq<string>)
    ensures forall q :: q in ActiveQuestions(questions) <==> q in questions && !IsBlank(q)
    ensures forall i :: 0 <= i < |ActiveQuestions(questions)| ==> Trim(ActiveQuestions(questions)[i]) != ""
  {
    if questions != [] {
      ActiveQuestionsMembers(questions[1..]);
      assert questions == [questions[0]] + questions[1..];
    }
  }

  /** Filtering distributes over concatenation, so the stored order is kept. */
  lemma {:induction false} ActiveQuestionsConcat(a: seq<string>, b: seq<string>)
    ensures ActiveQuestions(a + b) == ActiveQuestions(a) + ActiveQuestions(b)
  {
    if a == [] {
      assert a + b == b;
    } else {
      assert (a + b)[1..] == a[1..] + b;
      ActiveQuestionsConcat(a[1..], b);
    }
  }

  /** A single question is kept exactly when it is not blank. */
  lemma ActiveQuestionsSingle(q: string)
    ensures ActiveQuestions([q]) == if IsBlank(q) then [] else [q]
  {
    assert [q][1..] == [];
  }

  /**
   * How JavaScript renders the question read past the end of the active
   * questions (an `undefined` element) once it is put into the prompt.
   */
  const UndefinedText: string := "undefined"

  /**
   * The question recorded with an answer: the active question at `index`, or
   * the rendering of `undefined` when there is none (no active question at
   * all, while the chat is still empty).
   */
  function QuestionAt(active: seq<string>, index: nat): (q: string)
    ensures index < |active| ==> q == active[index]
    ensures index >= |active| ==> q == UndefinedText
  {
    if index < |active| then active[index] else UndefinedText
  }

  /** The "last question" flag: the current index is the final active position. */
  function IsLastQuestion(index: nat, active: seq<string>): (last: bool)
  {
    index as int == |active| - 1
  }

  // ---------------------------------------------------------------------------
  // Chat bookkeeping

  /** The transcript of answered questions: each question, then its answer. */
  function Dialogue(answers: seq<Answer>): (d: seq<Message>)
  {
    if answers == [] then []
    else
      var last := answers[|answers| - 1];
      Dialogue(answers[..|answers| - 1]) + [ModelSays(last.question), UserSays(last.answer)]
  }

  /** The dialogue has two messages per answer: the question at 2i, the answer at 2i + 1. */
  lemma {:induction false} DialogueShape(answers: seq<Answer>)
    ensures |Dialogue(answers)| == 2 * |answers|
    ensures forall i :: 0 <= i < |answers| ==>
      && Dialogue(answers)[2 * i] == ModelSays(answers[i].question)
      && Dialogue(answers)[2 * i + 1] == UserSays(answers[i].answer)
  {
    if answers != [] {
      var init := answers[..|answers| - 1];
      DialogueShape(init);
      forall i | 0 <= i < |answers|
        ensures Dialogue(answers)[2 * i] == ModelSays(answers[i].question)
        ensures Dialogue(answers)[2 * i + 1] == UserSays(answers[i].answer)
      {
        if i < |init| { assert answers[i] == init[i]; }
      }
    }
  }

  /**
   * The first |answers| active questions are answered, in order: answer i is
   * recorded against active question i, and the transcript shows that
   * question at 2i and the answer's text at 2i + 1.
   */
  ghost predicate AnsweredInOrder(active: seq<string>, answers: seq<Answer>, history: seq<Message>) {
    && |answers| <= |active|
    && 2 * |answers| <= |history|
    && forall i :: 0 <= i < |answers| ==>
         && answers[i].question == active[i]
         && history[2 * i] == ModelSays(active[i])
         && history[2 * i + 1] == UserSays(answers[i].answer)
  }

  /**
   * Waiting for the answer to active question `index`: index answers are
   * recorded, and the transcript holds 2 * index + 1 messages, the questions
   * and answers so far and then the current question.
   */
  ghost predicate AwaitingAnswer(active: seq<string>, answers: seq<Answer>, index: nat, history: seq<Message>) {
    && index < |active|
    && |answers| == index
    && |history| == 2 * index + 1
    && AnsweredInOrder(active, answers, history)
    && history[2 * index] == ModelSays(active[index])
  }

  /**
   * With no active question there is nothing to ask: one submission is
   * recorded against the rendering of `undefined`, and the transcript holds
   * that answer alone.
   */
  ghost predicate AnsweredUnasked(active: seq<string>, answers: seq<Answer>, index: nat, history: seq<Message>) {
    && |active| == 0
    && index == 0
    && |answers| == 1
    && answers[0].question == UndefinedText
    && history == [UserSays(answers[0].answer)]
  }

  /** Every active question is answered, the transcript ending with the last answer. */
  ghost predicate AllAnswered(active: seq<string>, answers: seq<Answer>, index: nat, history: seq<Message>) {
    && index + 1 == |active|
    && |answers| == |active|
    && |history| == 2 * |answers|
    && AnsweredInOrder(active, answers, history)
  }

  /** While waiting, the transcript is exactly the dialogue so far followed by the current question. */
  lemma AwaitingTranscript(active: seq<string>, answers: seq<Answer>, index: nat, history: seq<Message>)
    requires AwaitingAnswer(active, answers, index, history)
    ensures history == Dialogue(answers) + [ModelSays(active[index])]
  {
    DialogueShape(answers);
    var expected := Dialogue(answers) + [ModelSays(active[index])];
    forall k | 0 <= k < |history| ensures history[k] == expected[k] {
      if k < 2 * index {
        var i := k / 2;
        assert k == 2 * i || k == 2 * i + 1;
        assert answers[i].question == active[i];
      }
    }
  }

  /** Once all questions are answered, the transcript is exactly the dialogue of the answers. */
  lemma AllAnsweredTranscript(active: seq<string>, answers: seq<Answer>, index: nat, history: seq<Message>)
    requires AllAnswered(active, answers, index, history)
    ensures history == Dialogue(answers)
  {
    DialogueShape(answers);
    forall k | 0 <= k < |history| ensures history[k] == Dialogue(answers)[k] {
      var i := k / 2;
      assert k == 2 * i || k == 2 * i + 1;
      assert answers[i].question == active[i];
    }
  }

  /** Seeding the chat with the first active question starts the wait for its answer. */
  lemma SeedStartsChat(active: seq<string>)
    requires |active| > 0
    ensures AwaitingAnswer(active, [], 0, [ModelSays(active[0])])
  {
  }

  /** Answering a question that is not the last moves the wait on to the next question. */
  lemma AnswerAdvances(active: seq<string>, answers: seq<Answer>, index: nat,
                       history: seq<Message>, answer: string)
    requires AwaitingAnswer(active, answers, index, history)
    requires index + 1 < |active|
    ensures AwaitingAnswer(active, answers + [Answer(active[index], answer)], index + 1,
                           history + [UserSays(answer), ModelSays(active[index + 1])])
  {
    var answers' := answers + [Answer(active[index], answer)];
    var history' := history + [UserSays(answer), ModelSays(active[index + 1])];
    forall i | 0 <= i < |answers'|
      ensures answers'[i].question == active[i]
      ensures history'[2 * i] == ModelSays(active[i])
      ensures history'[2 * i + 1] == UserSays(answers'[i].answer)
    {
      if i < index { assert answers'[i] == answers[i]; }
    }
  }

  /** Answering the last question completes the answers, the transcript ending with that answer. */
  lemma AnswerCompletes(active: seq<string>, answers: seq<Answer>, index: nat,
                        history: seq<Message>, answer: string)
    requires AwaitingAnswer(active, answers, index, history)
    requires index + 1 == |active|
    ensures AllAnswered(active, answers + [Answer(active[index], answer)], index,
                        history + [UserSays(answer)])
  {
    var answers' := answers + [Answer(active[index], answer)];
    var history' := history + [UserSays(answer)];
    forall i | 0 <= i < |answers'|
      ensures answers'[i].question == active[i]
      ensures history'[2 * i] == ModelSays(active[i])
      ensures history'[2 * i + 1] == UserSays(answers'[i].answer)
    {
      if i < index { assert answers'[i] == answers[i]; }
    }
  }

  /**
   * While waiting for an answer, the "last question" flag (and with it the
   * submit button's label) says exactly whether this answer starts generation.
   */
  lemma LastQuestionFlag(active: seq<string>, answers: seq<Answer>, index: nat, history: seq<Message>)
    requires AwaitingAnswer(active, answers, index, history)
    ensures IsLastQuestion(index, active) <==> !(index + 1 < |active|)
    ensures Chat.SubmitControlFor(IsLastQuestion(index, active)).Label? <==> index + 1 == |active|
  {
  }

  // ---------------------------------------------------------------------------
  // Text extraction

  /** The extracted text of one page: its items joined by single spaces, then a newline. */
  function PageText(items: seq<string>): (text: string)
  {
    Join(items, " ") + "\n"
  }

  /** The text of the pages in order, or None when any page fails. */
  function PagesText(pages: seq<PageOutcome>): (text: Option<string>)
  {
    if pages == [] then Some("")
    else
      match PagesText(pages[..|pages| - 1])
      case None => None
      case Some(text) =>
        match pages[|pages| - 1]
        case PageFailed => None
        case PageItems(items) => Some(text + PageText(items))
  }

  /** Extraction succeeds exactly when no page fails. */
  lemma {:induction false} PagesTextSucceeds(pages: seq<PageOutcome>)
    ensures PagesText(pages).Some? <==> forall i :: 0 <= i < |pages| ==> pages[i].PageItems?
  {
    if pages != [] {
      var init := pages[..|pages| - 1];
      PagesTextSucceeds(init);
      assert forall i :: 0 <= i < |init| ==> init[i] == pages[i];
    }
  }

  /** The text of consecutive runs of pages is the texts of the runs, one after the other. */
  lemma {:induction false} PagesTextConcat(a: seq<PageOutcome>, b: seq<PageOutcome>)
    requires PagesText(a).Some? && PagesText(b).Some?
    ensures PagesText(a + b) == Some(PagesText(a).value + PagesText(b).value)
  {
    if b == [] {
      assert a + b == a;
      assert PagesText(b) == Some("");
      assert PagesText(a).value + "" == PagesText(a).value;
    } else {
      var ab := a + b;
      var init := b[..|b| - 1];
      assert ab[..|ab| - 1] == a + init;
      assert ab[|ab| - 1] == b[|b| - 1];
      assert PagesText(init).Some? && b[|b| - 1].PageItems?;
      PagesTextConcat(a, init);
      var items := b[|b| - 1].items;
      assert PagesText(b).value == PagesText(init).value + PageText(items);
      assert PagesText(ab) == Some(PagesText(a + init).value + PageText(items));
      assert PagesText(a).value + PagesText(init).value + PageText(items)
          == PagesText(a).value + (PagesText(init).value + PageText(items));
    }
  }

  /**
   * The page loop of handleFileAccepted: page after page, the page's items
   * joined by spaces and a newline are appended; a failing page abandons the
   * whole text.
   */
  method ExtractText(pages: seq<PageOutcome>) returns (text: Option<string>)
    ensures text == PagesText(pages)
  {
    var textContent := "";
    var i := 1;
    while i <= |pages|
      invariant 1 <= i <= |pages| + 1
      invariant PagesText(pages[..i - 1]) == Some(textContent)
    {
      assert pages[..i][..i - 1] == pages[..i - 1];
      match pages[i - 1]
      case PageFailed =>
        PagesTextFailsAfter(pages, i);
        return None;
      case PageItems(items) =>
        textContent := textContent + PageText(items);
      i := i + 1;
    }
    assert pages[..|pages|] == pages;
    text := Some(textContent);
  }

  /** Once page `i` fails, the text of all pages is None. */
  lemma PagesTextFailsAfter(pages: seq<PageOutcome>, i: nat)
    requires 1 <= i <= |pages| && pages[i - 1].PageFailed?
    ensures PagesText(pages) == None
  {
    PagesTextSucceeds(pages);
  }

  /** The text a successfully read file yields, or None when the library or any page fails. */
  function DocumentText(document: DocumentOutcome): (text: Option<string>)
  {
    match document
    case LibraryUnavailable => None
    case OpenFailed => None
    case Opened(pages) => PagesText(pages)
  }

  /**
   * The body of the generation step: without announcement text (absent, or
   * the empty string, which JavaScript treats as false) it fails with the
   * missing-content message, otherwise it is the guide generator's outcome.
   */
  function Generation(fileContent: Option<string>, answers: seq<Answer>,
                      service: string -> GuideService.ServiceOutcome): (r: Result<string>)
    ensures fileContent.None? || fileContent.value == "" ==> r == Err(MissingContentMessage)
    ensures r.Ok? <==>
      && fileContent.Some? && fileContent.value != ""
      && service(GuideService.Prompt(fileContent.value, GuideService.Transcript(answers))).Responded?
    ensures r.Ok? ==>
      r.value == service(GuideService.Prompt(fileContent.value, GuideService.Transcript(answers))).text
    ensures r.Err? ==> r.message in {MissingContentMessage, GuideService.GuideFailureMessage}
  {
    if fileContent.None? || fileContent.value == "" then Err(MissingContentMessage)
    else GuideService.GenerateProposalGuide(fileContent.value, answers, service)
  }

  // ---------------------------------------------------------------------------
  // The state machine, on values

  /** The wizard's eight pieces of state. */
  datatype WizardState = WizardState(
    phase: Phase,
    questions: seq<string>,
    fileContent: Option<string>,
    chatHistory: seq<Message>,
    answers: seq<Answer>,
    currentQuestionIndex: nat,
    finalResult: string,
    error: Option<string>)

  /** Everything but the stored questions has its starting value. */
  predicate IsReset(s: WizardState) {
    && s.phase == INITIAL
    && s.fileContent == None
    && s.chatHistory == []
    && s.answers == []
    && s.currentQuestionIndex == 0
    && s.finalResult == ""
    && s.error == None
  }

  /**
   * The chat is over: every active question is answered in order, or there
   * was none and the one submission was recorded against `undefined`.
   */
  ghost predicate Concluded(s: WizardState) {
    var active := ActiveQuestions(s.questions);
    || AllAnswered(active, s.answers, s.currentQuestionIndex, s.chatHistory)
    || AnsweredUnasked(active, s.answers, s.currentQuestionIndex, s.chatHistory)
  }

  /**
   * The per-screen invariant: the start screen shows a reset state; the chat
   * holds the announcement text and either has not been seeded yet or waits
   * for the answer to the current active question; once generation starts
   * the chat is concluded; an error screen has a message.
   */
  ghost predicate ValidState(s: WizardState) {
    match s.phase
    case INITIAL => IsReset(s)
    case CHATTING =>
      && s.fileContent.Some?
      && ((s.chatHistory == [] && s.answers == [] && s.currentQuestionIndex == 0)
          || AwaitingAnswer(ActiveQuestions(s.questions), s.answers, s.currentQuestionIndex, s.chatHistory))
    case GENERATING =>
      Concluded(s)
    case RESULT =>
      && Concluded(s)
      && s.fileContent.Some? && s.fileContent.value != ""
    case ERROR => s.error.Some?
  }

  /** The state the wizard starts in. */
  function Initial(questions: seq<string>): (s: WizardState)
    ensures IsReset(s) && ValidState(s) && s.questions == questions
  {
    WizardState(INITIAL, questions, None, [], [], 0, "", None)
  }

  /**
   * resetState: everything but the stored questions goes back to its
   * starting value, and a state that is already reset stays as it is.
   */
  function Reset(s: WizardState): (t: WizardState)
    ensures IsReset(t) && ValidState(t)
    ensures t.questions == s.questions
    ensures IsReset(s) ==> t == s
  {
    Initial(s.questions)
  }

  /** Resetting twice is resetting once. */
  lemma {:induction false} ResetIdempotent(s: WizardState)
    ensures Reset(Reset(s)) == Reset(s)
  {
    assert IsReset(Reset(s));
  }

  /** The editor's save callback: the stored questions are replaced and nothing else changes. */
  function StoreQuestions(s: WizardState, questions: seq<string>): (t: WizardState)
    ensures t.questions == questions
    ensures t.(questions := s.questions) == s
    ensures ValidState(s) && s.phase == INITIAL ==> ValidState(t)
  {
    s.(questions := questions)
  }

  /** The failure state: the error screen with `message`, nothing else touched. */
  function Fail(s: WizardState, message: string): (t: WizardState)
  {
    s.(phase := ERROR, error := Some(message))
  }

  /**
   * handleFileAccepted: a file that is not a PDF fails at once with the
   * PDF-only message; otherwise the bytes are read and the pages' text
   * extracted, success storing the text and opening the chat, and any failure
   * reporting the read or the processing error.
   */
  function AcceptFile(s: WizardState, file: UploadedFile): (t: WizardState)
  {
    if file.mimeType != PdfMimeType then Fail(s, PdfOnlyMessage)
    else
      match file.read
      case ReadFailed => Fail(s, FileReadMessage)
      case Loaded(document) =>
        match DocumentText(document)
        case None => Fail(s, PdfProcessingMessage)
        case Some(text) => s.(phase := CHATTING, fileContent := Some(text))
  }

  /**
   * The outcomes of accepting a file: the chat opens exactly when a PDF is
   * read and every page yields its text, with that text stored; otherwise the
   * error screen shows the message of the first check that failed and the
   * stored text is untouched. Only the phase, the text and the error change.
   */
  lemma AcceptFileOutcome(s: WizardState, file: UploadedFile)
    ensures var t := AcceptFile(s, file);
      && t.(phase := s.phase, fileContent := s.fileContent, error := s.error) == s
      && (t.phase == CHATTING <==>
            file.mimeType == PdfMimeType && file.read.Loaded? && DocumentText(file.read.document).Some?)
      && (t.phase == CHATTING ==> t.fileContent == DocumentText(file.read.document) && t.error == s.error)
      && (t.phase != CHATTING ==> t.phase == ERROR && t.fileContent == s.fileContent)
      && (file.mimeType != PdfMimeType ==> t.error == Some(PdfOnlyMessage))
      && (file.mimeType == PdfMimeType && file.read.ReadFailed? ==> t.error == Some(FileReadMessage))
      && (file.mimeType == PdfMimeType && file.read.Loaded? && DocumentText(file.read.document).None? ==>
            t.error == Some(PdfProcessingMessage))
  {
  }

  /** Accepting a file from the start screen keeps the invariant. */
  lemma AcceptFileValid(s: WizardState, file: UploadedFile)
    requires ValidState(s) && s.phase == INITIAL
    ensures ValidState(AcceptFile(s, file))
  {
  }

  /**
   * The effect that seeds the chat: on the chat screen with an empty
   * transcript and at least one active question, the transcript becomes the
   * first question; otherwise, with no active question in particular,
   * nothing happens.
   */
  function SeedFirst(s: WizardState): (t: WizardState)
  {
    var active := ActiveQuestions(s.questions);
    if s.phase == CHATTING && s.chatHistory == [] && |active| > 0 then
      s.(chatHistory := [ModelSays(active[0])])
    else s
  }

  /** Only the transcript changes, and only by seeding the first active question. */
  lemma SeedFirstOutcome(s: WizardState)
    ensures var t := SeedFirst(s); var active := ActiveQuestions(s.questions);
      && t.(chatHistory := s.chatHistory) == s
      && (s.phase == CHATTING && s.chatHistory == [] && |active| > 0 ==> t.chatHistory == [ModelSays(active[0])])
      && (!(s.phase == CHATTING && s.chatHistory == [] && |active| > 0) ==> t == s)
  {
  }

  /** Seeding keeps the invariant, and a seeded chat waits for the first answer. */
  lemma SeedFirstValid(s: WizardState)
    requires ValidState(s)
    ensures ValidState(SeedFirst(s))
    ensures s.phase == CHATTING && s.chatHistory == [] && |ActiveQuestions(s.questions)| > 0 ==>
      AwaitingAnswer(ActiveQuestions(s.questions), [], 0, SeedFirst(s).chatHistory)
  {
    var active := ActiveQuestions(s.questions);
    if s.phase == CHATTING && s.chatHistory == [] && |active| > 0 {
      SeedStartsChat(active);
    }
  }

  /**
   * The generation step that follows the last answer: the guide text on
   * success, the failure's message otherwise.
   */
  function Generate(s: WizardState, service: string -> GuideService.ServiceOutcome): (t: WizardState)
  {
    match Generation(s.fileContent, s.answers, service)
    case Ok(guide) => s.(phase := RESULT, finalResult := guide)
    case Err(message) => Fail(s, message)
  }

  /**
   * handleSubmitAnswer: the answer is recorded against the current active
   * question and shown as a user message; then either the next question is
   * asked, or, after the last one, generation runs to a result or an error.
   */
  function SubmitAnswer(s: WizardState, answer: string,
                        service: string -> GuideService.ServiceOutcome): (t: WizardState)
  {
    var active := ActiveQuestions(s.questions);
    var answers := s.answers + [Answer(QuestionAt(active, s.currentQuestionIndex), answer)];
    var history := s.chatHistory + [UserSays(answer)];
    var next := s.currentQuestionIndex + 1;
    if next < |active| then
      s.(answers := answers, currentQuestionIndex := next,
         chatHistory := history + [ModelSays(active[next])])
    else
      Generate(s.(phase := GENERATING, answers := answers, chatHistory := history), service)
  }

  /**
   * The outcome of one submission: exactly one answer is appended, paired
   * with the current active question, and the stored questions and text are
   * kept. With another question left, the index moves on, the answer and the
   * next question are shown and the phase stays. After the last question the
   * transcript ends with the answer, and the wizard shows the guide verbatim
   * or the failure's message, answers and transcript kept either way.
   */
  lemma SubmitAnswerOutcome(s: WizardState, answer: string, service: string -> GuideService.ServiceOutcome)
    ensures var t := SubmitAnswer(s, answer, service);
      var active := ActiveQuestions(s.questions);
      var next := s.currentQuestionIndex + 1;
      && t.answers == s.answers + [Answer(QuestionAt(active, s.currentQuestionIndex), answer)]
      && t.questions == s.questions && t.fileContent == s.fileContent
      && (next < |active| ==>
            && t.currentQuestionIndex == next
            && t.chatHistory == s.chatHistory + [UserSays(answer), ModelSays(active[next])]
            && t.phase == s.phase && t.finalResult == s.finalResult && t.error == s.error)
      && (next >= |active| ==>
            && t.currentQuestionIndex == s.currentQuestionIndex
            && t.chatHistory == s.chatHistory + [UserSays(answer)]
            && match Generation(s.fileContent, t.answers, service)
               case Ok(guide) => t.phase == RESULT && t.finalResult == guide && t.error == s.error
               case Err(message) => t.phase == ERROR && t.error == Some(message) && t.finalResult == s.finalResult)
  {
  }

  /**
   * With no active question, a submission on the unseeded chat goes straight
   * to generation with the answer recorded against `undefined`, and the
   * transcript shows the answer alone.
   */
  lemma SubmitUnasked(s: WizardState, answer: string, service: string -> GuideService.ServiceOutcome)
    requires ValidState(s) && s.phase == CHATTING && |ActiveQuestions(s.questions)| == 0
    ensures var t := SubmitAnswer(s, answer, service);
      && t.answers == [Answer(UndefinedText, answer)]
      && t.chatHistory == [UserSays(answer)]
      && (t.phase == RESULT || t.phase == ERROR)
  {
    assert s.chatHistory == [] && s.answers == [];
  }

  /**
   * A submission on the chat screen, once the seeding effect has run, keeps
   * the invariant: the wait moves on to the next question, or the chat is
   * concluded, every active question answered in order or, with none, the
   * one answer recorded against `undefined`.
   */
  lemma SubmitAnswerValid(s: WizardState, answer: string, service: string -> GuideService.ServiceOutcome)
    requires ValidState(s) && s.phase == CHATTING && SeedFirst(s) == s
    ensures ValidState(SubmitAnswer(s, answer, service))
  {
    var active := ActiveQuestions(s.questions);
    var i := s.currentQuestionIndex;
    var history := s.chatHistory + [UserSays(answer)];
    if |active| == 0 {
      SubmitUnasked(s, answer, service);
      var g := s.(phase := GENERATING, answers := [Answer(UndefinedText, answer)], chatHistory := history);
      assert AnsweredUnasked(active, g.answers, g.currentQuestionIndex, g.chatHistory);
      assert ValidState(g);
    } else {
      assert s.chatHistory != [];
      var answers := s.answers + [Answer(active[i], answer)];
      if i + 1 < |active| {
        AnswerAdvances(active, s.answers, i, s.chatHistory, answer);
      } else {
        AnswerCompletes(active, s.answers, i, s.chatHistory, answer);
        var g := s.(phase := GENERATING, answers := answers, chatHistory := history);
        assert ValidState(g);
      }
    }
  }

  // ---------------------------------------------------------------------------
  // The state machine, in place

  class App {
    var phase: Phase
    var questions: seq<string>
    var fileContent: Option<string>
    var chatHistory: seq<Message>
    var answers: seq<Answer>
    var currentQuestionIndex: nat
    var finalResult: string
    var error: Option<string>

    /** The fields as one value. */
    function State(): WizardState
      reads this
    {
      WizardState(phase, questions, fileContent, chatHistory, answers,
                  currentQuestionIndex, finalResult, error)
    }

    ghost predicate Valid()
      reads this
    {
      ValidState(State())
    }

    constructor (initialQuestions: seq<string>)
      ensures State() == Initial(initialQuestions)
      ensures Valid()
    {
      phase := INITIAL;
      questions := initialQuestions;
      fileContent := None;
      chatHistory := [];
      answers := [];
      currentQuestionIndex := 0;
      finalResult := "";
      error := None;
    }

    /** resetState. */
    method ResetState()
      modifies this
      ensures State() == Reset(old(State()))
      ensures Valid()
    {
      phase := INITIAL;
      fileContent := None;
      chatHistory := [];
      answers := [];
      currentQuestionIndex := 0;
      finalResult := "";
      error := None;
    }

    /** The editor's save callback replaces the stored questions. */
    method SaveQuestions(newQuestions: seq<string>)
      modifies this`questions
      ensures State() == StoreQuestions(old(State()), newQuestions)
      ensures old(Valid()) && phase == INITIAL ==> Valid()
    {
      questions := newQuestions;
    }

    /** handleFileAccepted, with the page loop run by `ExtractText`. */
    method HandleFileAccepted(file: UploadedFile)
      modifies this`fileContent, this`phase, this`error
      ensures State() == AcceptFile(old(State()), file)
      ensures old(Valid()) && old(phase) == INITIAL ==> Valid()
    {
      ghost var before := State();
      if file.mimeType != PdfMimeType {
        error := Some(PdfOnlyMessage);
        phase := ERROR;
      } else {
        match file.read
        case ReadFailed =>
          error := Some(FileReadMessage);
          phase := ERROR;
        case Loaded(document) =>
          var text: Option<string> := None;
          if document.Opened? {
            text := ExtractText(document.pages);
          }
          match text
          case Some(t) =>
            fileContent := Some(t);
            phase := CHATTING;
          case None =>
            error := Some(PdfProcessingMessage);
            phase := ERROR;
      }
      if before.phase == INITIAL && ValidState(before) {
        AcceptFileValid(before, file);
      }
    }

    /** The effect that seeds the chat with the first active question. */
    method SeedFirstQuestion()
      modifies this`chatHistory
      ensures State() == SeedFirst(old(State()))
      ensures old(Valid()) ==> Valid()
    {
      ghost var before := State();
      var active := ActiveQuestions(questions);
      if phase == CHATTING && chatHistory == [] && |active| > 0 {
        chatHistory := [ModelSays(active[0])];
      }
      if ValidState(before) {
        SeedFirstValid(before);
      }
    }

    /**
     * handleSubmitAnswer, with the generation step run in place; it keeps the
     * invariant by `SubmitAnswerValid`.
     */
    method HandleSubmitAnswer(answer: string, service: string -> GuideService.ServiceOutcome)
      modifies this`answers, this`chatHistory, this`currentQuestionIndex,
               this`phase, this`finalResult, this`error
      ensures State() == SubmitAnswer(old(State()), answer, service)
    {
      var active := ActiveQuestions(questions);
      var newAnswer := Answer(QuestionAt(active, currentQuestionIndex), answer);
      answers := answers + [newAnswer];
      var newHistory := chatHistory + [UserSays(answer)];
      var nextQuestionIndex := currentQuestionIndex + 1;
      if nextQuestionIndex < |active| {
        currentQuestionIndex := nextQuestionIndex;
        chatHistory := newHistory + [ModelSays(active[nextQuestionIndex])];
      } else {
        phase := GENERATING;
        chatHistory := newHistory;
        match Generation(fileContent, answers, service)
        case Ok(guide) =>
          finalResult := guide;
          phase := RESULT;
        case Err(message) =>
          error := Some(message);
          phase := ERROR;
      }
    }
  }

  /**
   * The chat screen wired to the wizard: a blank field changes nothing
   * anywhere; otherwise the trimmed answer, never blank, is what the wizard
   * records.
   */
  method SubmitFromChat(app: App, chat: Chat.ChatInterface,
                        service: string -> GuideService.ServiceOutcome)
    requires app.Valid() && app.phase == CHATTING && SeedFirst(app.State()) == app.State()
    modifies app, chat
    ensures app.Valid()
    ensures IsBlank(old(chat.input)) ==> unchanged(app) && chat.input == old(chat.input)
    ensures !IsBlank(old(chat.input)) ==>
      && chat.input == ""
      && app.State() == SubmitAnswer(old(app.State()), Trim(old(chat.input)), service)
      && app.answers[|app.answers| - 1].answer == Trim(old(chat.input)) != ""
  {
    var submitted := chat.HandleSubmit();
    if submitted.Some? {
      ghost var before := app.State();
      app.HandleSubmitAnswer(submitted.value, service);
      SubmitAnswerOutcome(before, submitted.value, service);
      SubmitAnswerValid(before, submitted.value, service);
    }
  }

  /** The editor's save button wired to the wizard's stored questions. */
  method SaveEditedQuestions(app: App, editor: QuestionEditing.QuestionEditor)
    requires app.Valid() && app.phase == INITIAL
    modifies app`questions, editor`isEditing
    ensures app.Valid()
    ensures app.State() == old(app.State()).(questions := QuestionEditing.Texts(editor.rows))
    ensures editor.rows == old(editor.rows) && editor.idCounter == old(editor.idCounter)
    ensures !editor.isEditing
  {
    var saved := editor.HandleSave();
    app.SaveQuestions(saved);
  }
}
