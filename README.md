# Proposal planning guide wizard — a verified model

The application is a React wizard that helps draft a bid proposal.

1. The user uploads a tender announcement as a PDF, and the text of its pages is extracted.
2. The user answers a list of editable questions, one at a time, in a chat.
3. The announcement text and the question/answer transcript go into a fixed prompt for a text-generation service.
4. The service's answer is shown as the planning guide. Any failure goes to an error screen.

The project models the four pieces of sequential logic behind that flow:

- **`Wizard`** (`wizard.dfy`, App.tsx) is the five-phase state machine: INITIAL, CHATTING, GENERATING, RESULT, ERROR.
  - Its eight pieces of state form the value `WizardState`.
  - Each handler is specified by a transition function on that value: `Reset`, `StoreQuestions`, `AcceptFile`, `SeedFirst` and `SubmitAnswer`, with `Generate` as the generation step.
  - The class `App` keeps the eight fields and updates them in place. Each method promises that the new `State()` is its transition function applied to the old one. The page loop runs as the method `ExtractText`.
  - The "active questions" filter and the "last question" flag are functions.
  - `ValidState` is the per-screen invariant:
    - while chatting, `|answers| == index` and `|history| == 2 * index + 1`
    - answer i belongs to active question i
    - the transcript alternates question and answer
    - once generation starts, every active question is answered in order; with no active question, the one submission is recorded against `undefined`
  - Lemmas show that each transition keeps `ValidState` when taken from the screen that offers it, after the seeding effect has run.
- **`QuestionEditing`** (`question_editor.dfy`, components/QuestionEditor.tsx) is the question-list editor.
  - It is a class over a sequence of `{id, text}` rows and an id counter.
  - Its invariant is that ids are unique and below the counter.
  - Drag and drop is specified by `Move`: a permutation that places the dragged row at the drop position and keeps the others in order.
- **`GuideService`** (`guide_service.dfy`, services/geminiService.ts) holds the transcript and prompt builder and the mapping of every failure to one fixed message.
- **`Chat`** (`chat_interface.dfy`, components/ChatInterface.tsx) is the submit guard. It trims the input, rejects blank input and clears the field, and it chooses the submit button's label.

Shared pieces:

- `Text` (`text.dfy`) models JavaScript's `trim`, using the exact ECMAScript whitespace set, and `Array.prototype.join`.
- `Types` (`types.dfy`) holds the records of types.ts.
- `Outcomes` (`outcomes.dfy`) holds `Option` and `Result`.

External effects become inputs:

- The PDF library and the file reader give an `UploadedFile`. It holds the declared MIME type and what reading and opening would give: a read failure, an unavailable library, a document that does not open, or the outcome of each page.
- The text-generation service is a function parameter `service: string -> ServiceOutcome`, applied to the prompt.

Behaviour of the code that the model keeps, even where it looks unintended:

- **No active questions.** With no active questions, nothing is seeded and nothing moves on to generation by itself (App.tsx:76).
  - The chat screen is rendered for every CHATTING state (App.tsx:127-133), so it still accepts a submission.
  - `handleSubmitAnswer` then reads past the end of the active questions (App.tsx:82), and the template renders that missing question as the text `undefined`. Generation follows at once.
  - `Wizard.QuestionAt` models this, so `HandleSubmitAnswer` has no precondition. `Wizard.SubmitUnasked` states the outcome, and `ValidState` admits it as a concluded chat.
- **Empty extracted text.** For example, a PDF with no pages. `""` is falsy in JavaScript, so generation fails with "File content is not available." That is `Wizard.Generation`.
- **The unknown-error fallback.** The message "알 수 없는 오류가 발생했습니다." in App.tsx:107 is unreachable. Both errors that can reach it are `Error` objects carrying their own message.
- **Accepting a file.** Accepting a file leaves the transcript and the answers untouched (App.tsx:60-61). The INITIAL-phase invariant guarantees that they are empty.

## Model

| member | source | states |
|---|---|---|
| Text.Trim | components/ChatInterface.tsx:24-25 | The result of `trim` neither starts nor ends with whitespace, and it is empty exactly when the input is blank. |
| Text.TrimMiddle | components/ChatInterface.tsx:24-25 | The result of `trim` is the middle of the input, and what it cuts away on either side is whitespace only. |
| Text.TrimIdempotent | components/ChatInterface.tsx:24-25 | Trimming a trimmed string changes nothing. |
| Text.JoinLength | services/geminiService.ts:16-18 | Joining n parts keeps every character and inserts exactly n - 1 separators. |
| Text.JoinConcat | services/geminiService.ts:16-18 | Joining two non-empty lists equals joining each, with one separator between. |
| GuideService.QaBlock | services/geminiService.ts:17 | An answer's block is the question label, then the question verbatim, then the answer label, then the answer verbatim. |
| GuideService.TranscriptOfFew | services/geminiService.ts:16-18 | No answers give the empty transcript. One answer gives exactly its block. |
| GuideService.TranscriptSnoc | services/geminiService.ts:16-18 | Appending an answer appends one "\n\n" separator and that answer's block, so the blocks follow the order of the answers. |
| GuideService.TranscriptLength | services/geminiService.ts:16-18 | n answers give their n blocks plus n - 1 two-character separators. |
| GuideService.PromptLayout | services/geminiService.ts:20-38 | The prompt is the fixed header up to the announcement marker, the announcement text verbatim, the question/answer marker, the transcript verbatim, then the guide marker. |
| GuideService.PromptDeterminesTranscript | services/geminiService.ts:20-38 | For a given announcement text, two prompts are equal only if their transcripts are equal, so the prompt loses no answer. |
| GuideService.GenerateProposalGuide | services/geminiService.ts:11-49 | Success exactly when the service responds to the built prompt. The response text is returned unchanged. Every failure becomes the one fixed message. |
| Chat.SubmitControlFor | components/ChatInterface.tsx:68 | The "결과 생성" label is shown exactly on the last question, and the icon otherwise. |
| Chat.ChatInterface.constructor | components/ChatInterface.tsx:13 | The field starts empty. |
| Chat.ChatInterface.SetInput | components/ChatInterface.tsx:60 | The field holds the typed value. |
| Chat.ChatInterface.HandleSubmit | components/ChatInterface.tsx:22-28 | Something is submitted exactly when the input is not blank. It is submitted once, as the trimmed input: non-empty and with no whitespace at either end. The field is then empty. A blank input leaves the field as it was. |
| QuestionEditing.Texts | components/QuestionEditor.tsx:46 | The exported texts are the rows' texts: same length, same order, blanks included. |
| QuestionEditing.WithText | components/QuestionEditor.tsx:31-35 | Only rows carrying the id get the new text. Length, ids, order and all other rows are unchanged. |
| QuestionEditing.WithoutId | components/QuestionEditor.tsx:41-43 | Exactly the rows without the id remain. Removing an absent id changes nothing. |
| QuestionEditing.WithoutIdConcat | components/QuestionEditor.tsx:41-43 | Removal distributes over concatenation, so the remaining rows keep their relative order. |
| QuestionEditing.WithoutIdUnique | components/QuestionEditor.tsx:41-43 | Removal keeps ids unique. |
| QuestionEditing.RemoveAt | components/QuestionEditor.tsx:72 | `splice(i, 1)` drops exactly the element at i and shifts the rest down. |
| QuestionEditing.InsertAt | components/QuestionEditor.tsx:73 | `splice(i, 0, x)` puts x at i and shifts the rest up. Removing it again gives back the original. |
| QuestionEditing.Move | components/QuestionEditor.tsx:70-75 | The reorder keeps the length and puts the dragged row at the drop index. The other rows keep their relative order, and the result is a permutation of the rows. |
| QuestionEditing.RemoveAtUnique | components/QuestionEditor.tsx:72 | Cutting out a row keeps ids unique, and no remaining row carries its id. |
| QuestionEditing.InsertAtUnique | components/QuestionEditor.tsx:73 | Inserting a row whose id is unused keeps ids unique. |
| QuestionEditing.MoveUnique | components/QuestionEditor.tsx:70-75 | A drag-and-drop reorder keeps ids unique. |
| QuestionEditing.MoveIdsBelow | components/QuestionEditor.tsx:70-75 | A drag-and-drop reorder keeps every id below the counter, so the counter's value stays fresh. |
| QuestionEditing.QuestionEditor.constructor | components/QuestionEditor.tsx:17-21 | The editor starts out of editing mode, with no rows, no drag and the counter at 0. |
| QuestionEditing.QuestionEditor.SyncFromProps | components/QuestionEditor.tsx:23-29 | Outside editing, the rows are rebuilt with the same texts in the same order. Row i gets the fresh id counter + i, the counter grows by the list length, and ids stay unique. While editing, nothing changes. |
| QuestionEditing.QuestionEditor.StartEditing | components/QuestionEditor.tsx:94 | The edit button enters editing mode. |
| QuestionEditing.QuestionEditor.HandleQuestionChange | components/QuestionEditor.tsx:31-35 | The rows become `WithText` of the old rows, and ids stay unique. |
| QuestionEditing.QuestionEditor.HandleAddQuestion | components/QuestionEditor.tsx:37-39 | Exactly one empty row is appended. Its id is carried by no other row, the counter strictly grows, and ids stay unique. |
| QuestionEditing.QuestionEditor.HandleRemoveQuestion | components/QuestionEditor.tsx:41-43 | The rows become `WithoutId` of the old rows, and ids stay unique. |
| QuestionEditing.QuestionEditor.HandleSave | components/QuestionEditor.tsx:45-48 | Hands over exactly `Texts` of the rows and leaves editing mode. |
| QuestionEditing.QuestionEditor.HandleDragStart | components/QuestionEditor.tsx:50-53 | Records the dragged index. |
| QuestionEditing.QuestionEditor.HandleDragOver | components/QuestionEditor.tsx:55-60 | Records the hovered index only when it differs from the dragged one. |
| QuestionEditing.QuestionEditor.HandleDragLeave | components/QuestionEditor.tsx:62-64 | Clears the hovered index. |
| QuestionEditing.QuestionEditor.HandleDrop | components/QuestionEditor.tsx:66-76 | With no drag, or a drop onto the dragged row, the rows are unchanged. Otherwise they become `Move(rows, dragged, drop)`. Ids stay unique. |
| QuestionEditing.QuestionEditor.HandleDragEnd | components/QuestionEditor.tsx:78-81 | Both drag indices are cleared. |
| Wizard.ActiveQuestions | App.tsx:26 | The active questions are never more than the stored ones. |
| Wizard.ActiveQuestionsMembers | App.tsx:26 | A question is active exactly when it is stored and not blank. Every active question has a non-empty trimmed form. |
| Wizard.ActiveQuestionsConcat | App.tsx:26 | The filter distributes over concatenation, so the stored order is kept. |
| Wizard.ActiveQuestionsSingle | App.tsx:26 | A single question is kept exactly when it is not blank. |
| Wizard.QuestionAt | App.tsx:82 | The question recorded with an answer is the active question at the index. Past the end it is the rendering of `undefined`. |
| Wizard.DialogueShape | App.tsx:86-95 | A dialogue of n answers has 2n messages: question i at 2i and answer i at 2i + 1. |
| Wizard.AwaitingTranscript | App.tsx:86-95 | While waiting for an answer, the history is exactly the dialogue so far plus the current question. |
| Wizard.AllAnsweredTranscript | App.tsx:96-98 | Once all questions are answered, the history is exactly the dialogue of the answers, ending with the last answer. |
| Wizard.SeedStartsChat | App.tsx:75-79 | Seeding with the first active question starts the wait for answer 0. |
| Wizard.AnswerAdvances | App.tsx:82-95 | Answering a non-last question moves on to the next question, keeping `|answers| == index`, `|history| == 2 * index + 1` and the question/answer pairing. |
| Wizard.AnswerCompletes | App.tsx:82-98 | Answering the last question leaves every active question answered, in order, with the history ending in the user message. |
| Wizard.LastQuestionFlag | App.tsx:132 | While chatting, the "last question" flag, and so the "결과 생성" label, holds exactly when this answer starts generation. |
| Wizard.PagesTextSucceeds | App.tsx:53-58 | Extraction succeeds exactly when no page fails. |
| Wizard.PagesTextConcat | App.tsx:53-58 | The text of consecutive runs of pages is the runs' texts in order. |
| Wizard.PagesTextFailsAfter | App.tsx:54-58 | One failing page makes the whole extraction fail. |
| Wizard.ExtractText | App.tsx:53-58 | The page loop computes `PagesText`: each page's items joined by single spaces plus "\n", for pages 1..numPages in order, or no text when any page fails. |
| Wizard.Generation | App.tsx:99-103 | Missing or empty announcement text fails with "File content is not available.". Otherwise the result is a success exactly when the service responds to the built prompt, and it is the response verbatim. Every error carries one of the two fixed messages. |
| Wizard.Initial | App.tsx:17-24 | The starting state is reset and satisfies the invariant, with the given questions. |
| Wizard.Reset | App.tsx:28-36 | Phase INITIAL. No file content, history, answers, result or error. Index 0. Questions unchanged. The invariant holds afterwards. A state that is already reset is left as it is. |
| Wizard.ResetIdempotent | App.tsx:28-36 | Resetting twice is the same as resetting once. |
| Wizard.StoreQuestions | App.tsx:122 | The stored questions become the saved list, nothing else changes, and the start screen's invariant is kept. |
| Wizard.AcceptFileOutcome | App.tsx:38-73 | Only the phase, the text and the error change. The chat opens exactly when a PDF is read and every page yields its text, and the extracted text is stored. Otherwise the phase is ERROR and the stored text is untouched. A non-PDF gives the PDF-only message, a read failure the read message, and a library or page failure the processing message. |
| Wizard.AcceptFileValid | App.tsx:38-73 | Accepting a file from the start screen keeps the invariant. |
| Wizard.SeedFirstOutcome | App.tsx:75-79 | Only the transcript changes. In CHATTING, with an empty history and at least one active question, it becomes exactly the first question. Otherwise, including when there are no active questions, nothing changes. |
| Wizard.SeedFirstValid | App.tsx:75-79 | Seeding keeps the invariant, and a seeded chat waits for answer 0. |
| Wizard.SubmitAnswerOutcome | App.tsx:81-112 | Exactly one answer is appended, paired with the current active question. Questions and text are kept. If another question remains: the index grows by 1, the user message and the next question are appended, and phase, result and error are kept. After the last answer: the index stays, and the history ends with the user message. The phase becomes RESULT with the guide verbatim, or ERROR with the failure's message. |
| Wizard.SubmitUnasked | App.tsx:76-112 | With no active question, a submission on the chat screen records the answer against `undefined`, leaves the answer as the whole transcript and ends on RESULT or ERROR. |
| Wizard.SubmitAnswerValid | App.tsx:75-112 | A submission on the chat screen keeps the invariant once the seeding effect has run, including with no active question. Either the wait moves on to the next question, or the chat is concluded. |
| Wizard.App.constructor | App.tsx:17-24 | The fields start as `Initial` of the given questions. |
| Wizard.App.ResetState | App.tsx:28-36 | The new state is `Reset` of the old one, and the invariant holds. |
| Wizard.App.SaveQuestions | App.tsx:122 | The new state is `StoreQuestions` of the old one. On the start screen the invariant is kept. |
| Wizard.App.HandleFileAccepted | App.tsx:38-73 | The new state is `AcceptFile` of the old one, with the page loop run by `ExtractText`. From the start screen the invariant is kept. |
| Wizard.App.SeedFirstQuestion | App.tsx:75-79 | The new state is `SeedFirst` of the old one, and the invariant is kept. |
| Wizard.App.HandleSubmitAnswer | App.tsx:81-112 | The new state is `SubmitAnswer` of the old one, with the generation step run in place. |
| Wizard.SubmitFromChat | App.tsx:129-133 | Chat screen wired to the wizard. A blank field changes nothing anywhere. Otherwise the wizard takes the `SubmitAnswer` step with the trimmed input, records it as the last answer, non-blank, and keeps the invariant. |
| Wizard.SaveEditedQuestions | App.tsx:120-124 | Editor wired to the wizard. The stored questions become the editor's row texts and the rest of the wizard state is unchanged. Editing ends, and the editor's rows and id counter are kept. |

## Left out

- pdf.js and FileReader: loading the library, reading the bytes and the asynchronous page requests are abstracted as the `UploadedFile` input. The worker configuration in App.tsx:11-14 is not modelled.
- The Gemini client: the API key check, client construction and the request in services/geminiService.ts:2-9 and 40-43 are replaced by the `service` parameter. The model name is not modelled.
- React scheduling: `useState` batching, `useEffect` timing, `useCallback` closures and `await` suspension are not modelled. Each handler is one atomic step over the state, and the seeding effect is a method the caller runs.
- Logging, JSX markup, styling and `scrollIntoView` are presentation only.
- components/FileUpload.tsx and components/ResultDisplay.tsx are not part of this model. They are UI plumbing and a view.
- The `disabled` property of the question editor is always false where the wizard renders it (App.tsx:123), so it is not modelled.
- `INITIAL_QUESTIONS` comes from constants.ts, which is not part of this model. The initial list is the `App` constructor's parameter.
- The unknown-error branch of App.tsx:107 is unreachable, so the model has only the two `Error` messages.
- QuestionEditing.QuestionEditor.HandleDrop: requires both indices to be in range when a row is actually moved. The drag indices come from rendered rows. Two out-of-range cases are not modelled:
  - An out-of-range dragged index removes nothing and inserts `undefined`.
  - An out-of-range drop index makes the second `splice` clamp, so the dragged row is appended at the end.
- Wizard.AcceptFileValid and Wizard.SubmitAnswerValid: the invariant is promised only for a step taken from the screen that offers it.
  - File acceptance is offered on INITIAL.
  - Submission is offered on CHATTING. It is promised once the seeding effect has run, that is, on a state `SeedFirst` leaves unchanged. React runs that effect after the render that enters CHATTING and before any input is handled.
  - A submission on a chat that has not been seeded yet but has active questions is not covered.
- Wizard.App.HandleSubmitAnswer: its own contract states the new state only. That the invariant is kept comes from `SubmitAnswerValid`, which `Wizard.SubmitFromChat` uses.
- Wizard.ActiveQuestions: its own contract gives only the length bound. Membership and order are stated in `ActiveQuestionsMembers`, `ActiveQuestionsConcat` and `ActiveQuestionsSingle`.
- Wizard.Dialogue and GuideService.Transcript carry no contract of their own. Their shape is stated in `DialogueShape`, `TranscriptOfFew`, `TranscriptSnoc` and `TranscriptLength`.
