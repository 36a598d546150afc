/**
 * The planning-guide generator (services/geminiService.ts): it renders the
 * answers as a question/answer transcript, embeds the announcement text and
 * the transcript in a fixed prompt, hands the prompt to the text-generation
 * service and maps every failure to one fixed message.
 */
module GuideService {
  import opened Outcomes
  import opened Text
  import opened Types

  /** What the text-generation service does with one prompt. */
  datatype ServiceOutcome = Responded(text: string) | ServiceFailed

  /** The one message every generation failure is reported with. */
  const GuideFailureMessage: string := "기획 가이드 생성 중 오류가 발생했습니다. 잠시 후 다시 시도해 주세요."

  const QuestionLabel: string := "질문: "
  const AnswerLabel: string := "\n답변: "
  const BlockSeparator: string := "\n\n"

  /** The prompt up to and including the announcement marker line. */
  const DocumentHeader: string :=
    "\n      당신은 공공기관 출판물 입찰 제안서 작성을 돕는 전문 컨설턴트입니다."
    + "\n      아래 제공되는 '공고문' 내용과 사용자와의 '질의응답' 내용을 종합적으로 분석하여,"
    + "\n      성공적인 입찰을 위한 체계적이고 전문적인 '기획 가이드'를 작성해 주세요."
    + "\n"
    + "\n      결과물은 명확한 제목과 부제목을 사용하고, 핵심 내용은 글머리 기호를 활용하여 가독성 높게 구성해야 합니다."
    + "\n      분석 내용을 바탕으로 제안서에 포함되어야 할 핵심 전략과 실행 방안을 구체적으로 제시해 주세요."
    + "\n      출력 언어는 한국어입니다."
    + "\n"
    + "\n      ---"
    + "\n      [공고문 내용]"
    + "\n      "

  /** The lines between the announcement text and the transcript. */
  const TranscriptHeader: string := "\n      ---\n      [질의응답 내용]\n      "

  /** The lines after the transcript. */
  const GuideTrailer: string := "\n      ---\n\n      [기획 가이드]\n    "

  /** One answer rendered as a question line and an answer line. */
  function QaBlock(a: Answer): (b: string)
    ensures |b| == |QuestionLabel| + |a.question| + |AnswerLabel| + |a.answer|
    ensures b[..|QuestionLabel|] == QuestionLabel
    ensures b[|QuestionLabel|..|QuestionLabel| + |a.question|] == a.question
    ensures b[|QuestionLabel| + |a.question|..|b| - |a.answer|] == AnswerLabel
    ensures b[|b| - |a.answer|..] == a.answer
  {
    QuestionLabel + a.question + AnswerLabel + a.answer
  }

  /** The blocks of all answers, in the order of the answers. */
  function QaBlocks(answers: seq<Answer>): (blocks: seq<string>)
  {
    seq(|answers|, i requires 0 <= i < |answers| => QaBlock(answers[i]))
  }

  /** The transcript: the blocks joined with one blank line between neighbours. */
  function Transcript(answers: seq<Answer>): (t: string)
  {
    Join(QaBlocks(answers), BlockSeparator)
  }

  /** No answers give the empty transcript and one answer gives exactly its block. */
  lemma TranscriptOfFew(a: Answer)
    ensures Transcript([]) == ""
    ensures Transcript([a]) == QaBlock(a)
  {
  }

  /** Appending an answer appends one separator and that answer's block. */
  lemma TranscriptSnoc(answers: seq<Answer>, a: Answer)
    requires |answers| > 0
    ensures Transcript(answers + [a]) == Transcript(answers) + BlockSeparator + QaBlock(a)
  {
    assert QaBlocks(answers + [a]) == QaBlocks(answers) + QaBlocks([a]);
    JoinConcat(QaBlocks(answers), QaBlocks([a]), BlockSeparator);
  }

  /** The transcript of n answers is their n blocks plus n - 1 separators of two characters. */
  lemma TranscriptLength(answers: seq<Answer>)
    requires |answers| > 0
    ensures |Transcript(answers)| == TotalLength(QaBlocks(answers)) + 2 * (|answers| - 1)
  {
    JoinLength(QaBlocks(answers), BlockSeparator);
  }

  /** The full prompt sent to the generation service. */
  function Prompt(fileContent: string, transcript: string): (p: string)
  {
    DocumentHeader + fileContent + TranscriptHeader + transcript + GuideTrailer
  }

  /**
   * The announcement text sits verbatim right after the announcement marker,
   * the transcript verbatim right after the question/answer marker, and the
   * guide marker closes the prompt.
   */
  lemma PromptLayout(fileContent: string, transcript: string)
    ensures var p := Prompt(fileContent, transcript);
      var d := |DocumentHeader|;
      var t := d + |fileContent| + |TranscriptHeader|;
      && |p| == t + |transcript| + |GuideTrailer|
      && p[..d] == DocumentHeader
      && p[d..d + |fileContent|] == fileContent
      && p[d + |fileContent|..t] == TranscriptHeader
      && p[t..t + |transcript|] == transcript
      && p[t + |transcript|..] == GuideTrailer
  {
  }

  /** Given the announcement text, the prompt determines the transcript, so no answer is lost. */
  lemma {:induction false} PromptDeterminesTranscript(fileContent: string, t1: string, t2: string)
    requires Prompt(fileContent, t1) == Prompt(fileContent, t2)
    ensures t1 == t2
  {
    PromptLayout(fileContent, t1);
    PromptLayout(fileContent, t2);
  }

  /**
   * generateProposalGuide: one request with the prompt built from the
   * announcement text and the answers; the service's text is returned
   * unchanged, and any failure becomes the one fixed message.
   */
  function GenerateProposalGuide(fileContent: string, answers: seq<Answer>,
                                 service: string -> ServiceOutcome): (r: Result<string>)
    ensures r.Ok? <==> service(Prompt(fileContent, Transcript(answers))).Responded?
    ensures r.Ok? ==> r.value == service(Prompt(fileContent, Transcript(answers))).text
    ensures r.Err? ==> r.message == GuideFailureMessage
  {
    match service(Prompt(fileContent, Transcript(answers)))
    case Responded(text) => Ok(text)
    case ServiceFailed => Err(GuideFailureMessage)
  }
}
