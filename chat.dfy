/** The chat session of the page: the Enter-to-send trigger, the assembly of the prompt sent to
    the completion service, and the append-only history of turns (`envoyer_message`). The
    completion service is not modelled: what it answers on a request is a parameter. */
module Chat {
  import opened Wrappers
  import opened Text
  import Extraction

  datatype Role = User | Assistant

  /** One entry of `st.session_state.history`. */
  datatype Turn = Turn(role: Role, content: string)

  /** The formatting instruction placed before every outbound prompt. */
  const Instruction: string :=
    "Formate ta réponse en Markdown avec les équations LaTeX entre $$ ... $$ "
    + "et les symboles mathématiques dans le texte entre $...$ pour le rendu inline. "
    + "Toutes les variables mathématiques doivent être écrites en LaTeX, même dans les phrases. "
    + "Utilise un style clair et académique, avec les équations centrées.\n\n"

  /** The header that introduces the file excerpt in the outbound prompt. */
  const FileHeader: string := "\n\nContenu du fichier (extrait):\n"

  /** At most this many characters of the extracted text are sent. */
  const ExcerptLimit: nat := 30000

  /** The assistant turn when the service answers with whitespace only. */
  const NoAnswer: string := "[Aucune réponse reçue de GPT-5 — possible délai API.]"

  /** The start of the assistant turn when the service call raises. */
  const ApiErrorPrefix: string := "[Erreur API OpenAI] "

  function Min(a: int, b: int): int {
    if a <= b then a else b
  }

  /** `file_text[:30000]`: the longest prefix of the text that fits the limit. */
  function Excerpt(fileText: string): (r: string)
    ensures |r| == Min(|fileText|, ExcerptLimit)
    ensures r == fileText[..|r|]
  {
    if |fileText| <= ExcerptLimit then fileText else fileText[..ExcerptLimit]
  }

  /** The part of the outbound prompt that carries the file, absent when its text is empty. */
  function FileSection(fileText: string): (r: string)
    ensures r == "" <==> fileText == ""
  {
    if fileText == "" then "" else FileHeader + Excerpt(fileText)
  }

  /** `final_prompt`: the instruction, the prompt as typed, then the file section. */
  function FinalPrompt(prompt: string, fileText: string): string {
    Instruction + (prompt + FileSection(fileText))
  }

  /** How the outbound prompt is laid out: it starts with the instruction, carries the prompt
      unchanged right after it, and then either ends or continues with the header and a prefix
      of the file text at most 30,000 characters long, which is the whole text when it fits. */
  lemma FinalPromptLayout(prompt: string, fileText: string)
    ensures var r, i, p, h := FinalPrompt(prompt, fileText), |Instruction|, |prompt|, |FileHeader|;
      && |r| >= i + p
      && r[..i] == Instruction
      && r[i..i + p] == prompt
      && (fileText == "" ==> |r| == i + p)
      && (fileText != "" ==>
            && |r| == i + p + h + Min(|fileText|, ExcerptLimit)
            && r[i + p..i + p + h] == FileHeader
            && r[i + p + h..] == fileText[..Min(|fileText|, ExcerptLimit)])
  {
    var section := FileSection(fileText);
    ThreeParts(Instruction, prompt, section);
    if fileText != "" {
      ThreeParts(Instruction, prompt, FileHeader + Excerpt(fileText));
      ThreeParts(Instruction + prompt, FileHeader, Excerpt(fileText));
      assert Instruction + prompt + (FileHeader + Excerpt(fileText)) == FinalPrompt(prompt, fileText);
    }
  }

  /** Where the three parts of `a + (b + c)` lie. */
  lemma ThreeParts(a: string, b: string, c: string)
    ensures var s := a + (b + c);
      && |s| == |a| + |b| + |c|
      && s[..|a|] == a && s[|a|..|a| + |b|] == b && s[|a| + |b|..] == c
      && s == a + b + c
  {
    var s := a + (b + c);
    assert s[|a|..] == b + c;
  }

  /** The assistant turn for the service's outcome: the stripped answer, the no-answer notice
      when the answer is whitespace only, or the error prefix followed by the cause. It is never
      empty. */
  function AssistantContent(reply: Result<string>): (r: string)
    ensures r != ""
  {
    match reply
    case Ok(answer) => if Strip(answer) != "" then Strip(answer) else NoAnswer
    case Err(cause) => ApiErrorPrefix + cause
  }

  /** What the assistant turn says in each case: a real answer is shown without surrounding
      whitespace, an answer made only of whitespace is replaced by the notice, and a failure
      keeps its cause verbatim after the prefix. */
  lemma AssistantContentCases(reply: Result<string>)
    ensures reply.Ok? && !AllSpace(reply.value) ==>
      var r := AssistantContent(reply);
      && !IsSpace(r[0]) && !IsSpace(r[|r| - 1])
      && exists i :: InfixAt(reply.value, i, r) && AllSpace(reply.value[..i]) && AllSpace(reply.value[i + |r|..])
    ensures reply.Ok? && AllSpace(reply.value) ==> AssistantContent(reply) == NoAnswer
    ensures reply.Err? ==>
      var r := AssistantContent(reply);
      r[..|ApiErrorPrefix|] == ApiErrorPrefix && r[|ApiErrorPrefix|..] == reply.cause
  {
    if reply.Err? {
      var r := AssistantContent(reply);
      assert r == ApiErrorPrefix + reply.cause;
    } else {
      StripIsInfix(reply.value);
    }
  }

  /** One activation of `envoyer_message`: the prompt as typed, the uploaded file if any, and
      what the completion service would answer. */
  datatype Request = Request(prompt: string, upload: Option<Extraction.Upload>, reply: Result<string>)

  /** The validation: a request is refused when the prompt is blank and no file is uploaded. */
  predicate Accepted(r: Request) {
    !(IsBlank(r.prompt) && r.upload.None?)
  }

  /** The extracted text, empty when no file is uploaded. */
  function FileText(upload: Option<Extraction.Upload>): string {
    match upload
    case None => ""
    case Some(u) => Extraction.ExtractText(u)
  }

  /** The turns one request appends to the history. */
  function Exchange(r: Request): seq<Turn> {
    if Accepted(r) then [Turn(User, r.prompt), Turn(Assistant, AssistantContent(r.reply))] else []
  }

  /** What one request sends to the completion service: the outbound prompt, or nothing when
      the guard refuses the request. */
  function Outbound(r: Request): Option<string> {
    if Accepted(r) then Some(FinalPrompt(r.prompt, FileText(r.upload))) else None
  }

  /** A history made of whole exchanges: a user turn followed by an assistant turn with
      content, repeated. */
  predicate WellFormed(h: seq<Turn>) {
    h == [] ||
    (&& |h| >= 2
     && h[|h| - 2].role == User
     && h[|h| - 1].role == Assistant && h[|h| - 1].content != ""
     && WellFormed(h[..|h| - 2]))
  }

  /** In a well-formed history the roles alternate, starting with the user, and every
      assistant turn has content. */
  lemma {:induction false} WellFormedAlternates(h: seq<Turn>, i: int)
    requires WellFormed(h) && 0 <= i < |h|
    ensures |h| % 2 == 0
    ensures h[i].role == (if i % 2 == 0 then User else Assistant)
    ensures h[i].role == Assistant ==> h[i].content != ""
  {
    var init := h[..|h| - 2];
    if i < |init| {
      WellFormedAlternates(init, i);
    } else if init != [] {
      WellFormedAlternates(init, 0);
    }
  }

  /** Appending an exchange keeps a history well formed. */
  lemma ExchangeKeepsWellFormed(h: seq<Turn>, r: Request)
    requires WellFormed(h)
    ensures WellFormed(h + Exchange(r))
  {
    var h' := h + Exchange(r);
    if Accepted(r) {
      assert h'[..|h'| - 2] == h;
    } else {
      assert h' == h;
    }
  }

  /** Appending two turns one at a time is appending the pair. */
  lemma AppendPair(h: seq<Turn>, first: Turn, second: Turn)
    ensures h + [first] + [second] == h + [first, second]
  {
  }

  /** The history after a sequence of requests, starting from an empty one. */
  function Transcript(rs: seq<Request>): seq<Turn> {
    if rs == [] then [] else Transcript(rs[..|rs| - 1]) + Exchange(rs[|rs| - 1])
  }

  /** The contents of the user turns of a history, in order. */
  function UserContents(h: seq<Turn>): seq<string> {
    if h == [] then []
    else UserContents(h[..|h| - 1]) + (if h[|h| - 1].role == User then [h[|h| - 1].content] else [])
  }

  /** The prompts, as typed, of the requests that pass validation, in order. */
  function AcceptedPrompts(rs: seq<Request>): seq<string> {
    if rs == [] then []
    else AcceptedPrompts(rs[..|rs| - 1]) + (if Accepted(rs[|rs| - 1]) then [rs[|rs| - 1].prompt] else [])
  }

  lemma {:induction false} UserContentsAppend(a: seq<Turn>, b: seq<Turn>)
    ensures UserContents(a + b) == UserContents(a) + UserContents(b)
  {
    var ab := a + b;
    if b == [] {
      assert ab == a;
    } else {
      var init, last := b[..|b| - 1], b[|b| - 1];
      assert ab[..|ab| - 1] == a + init;
      assert ab[|ab| - 1] == last;
      UserContentsAppend(a, init);
    }
  }

  /** The history holds one whole exchange per accepted request. */
  lemma {:induction false} TranscriptWellFormed(rs: seq<Request>)
    ensures WellFormed(Transcript(rs))
    ensures |Transcript(rs)| == 2 * |AcceptedPrompts(rs)|
  {
    if rs != [] {
      var init, last := rs[..|rs| - 1], rs[|rs| - 1];
      TranscriptWellFormed(init);
      ExchangeKeepsWellFormed(Transcript(init), last);
    }
  }

  /** The user turns of an exchange: the prompt as typed, or nothing when refused. */
  lemma ExchangeUserContents(r: Request)
    ensures UserContents(Exchange(r)) == if Accepted(r) then [r.prompt] else []
  {
    if Accepted(r) {
      var e, u := Exchange(r), [Turn(User, r.prompt)];
      assert e[..|e| - 1] == u;
      assert UserContents(e) == UserContents(u) + [];
      assert u[..|u| - 1] == [];
      assert UserContents(u) == UserContents([]) + [r.prompt];
    }
  }

  /** The history shows exactly what the user typed on each accepted request, in order and
      verbatim, never the augmented prompt. */
  lemma {:induction false} TranscriptShowsPrompts(rs: seq<Request>)
    ensures UserContents(Transcript(rs)) == AcceptedPrompts(rs)
  {
    if rs != [] {
      var init, last := rs[..|rs| - 1], rs[|rs| - 1];
      TranscriptShowsPrompts(init);
      UserContentsAppend(Transcript(init), Exchange(last));
      ExchangeUserContents(last);
    }
  }

  /** A question without a file, answered by the service with text that has no surrounding
      whitespace: the history is the question as typed and the answer. */
  lemma QuestionAnsweredScenario(question: string, answer: string)
    requires !IsBlank(question)
    requires answer != [] && !IsSpace(answer[0]) && !IsSpace(answer[|answer| - 1])
    ensures Transcript([Request(question, None, Ok(answer))])
      == [Turn(User, question), Turn(Assistant, answer)]
  {
    var r := Request(question, None, Ok(answer));
    StripOfStripped(answer);
    assert AssistantContent(r.reply) == answer;
    SingleTranscript(r);
  }

  /** A single request leaves exactly its own exchange. */
  lemma SingleTranscript(r: Request)
    ensures Transcript([r]) == Exchange(r)
  {
    assert [r][..0] == [];
  }

  /** An empty prompt with an unreadable PDF is still sent: the user turn is empty and the
      outbound prompt carries the extraction error text in place of the document. */
  lemma BlankPromptUnreadablePdfScenario(cause: string, reply: Result<string>)
    ensures var u := Extraction.Upload("doc.pdf", "", Err(cause), Err(cause), Err(cause));
      var r := Request("", Some(u), reply);
      && Exchange(r) == [Turn(User, ""), Turn(Assistant, AssistantContent(reply))]
      && FileText(r.upload) == Extraction.ErrorText(cause)
  {
    Extraction.UnreadablePdfScenario(cause);
  }

  /** The Enter-to-send test: the prompt is non-empty and differs from the last one recorded. */
  predicate Fires(lastPrompt: Option<string>, prompt: string) {
    prompt != "" && lastPrompt != Some(prompt)
  }

  /** The recorded prompt after the test. */
  function Recorded(lastPrompt: Option<string>, prompt: string): Option<string> {
    if Fires(lastPrompt, prompt) then Some(prompt) else lastPrompt
  }

  /** How many of the successive page runs with these prompts trigger a send. */
  function Sends(lastPrompt: Option<string>, prompts: seq<string>): nat
    decreases prompts
  {
    if prompts == [] then 0
    else (if Fires(lastPrompt, prompts[0]) then 1 else 0) + Sends(Recorded(lastPrompt, prompts[0]), prompts[1..])
  }

  /** Re-running the page with an unchanged prompt triggers at most one send: the first run
      fires when the prompt is new and non-empty, and none after it does. */
  lemma {:induction false} SamePromptSendsOnce(lastPrompt: Option<string>, prompt: string, prompts: seq<string>)
    requires forall i :: 0 <= i < |prompts| ==> prompts[i] == prompt
    ensures Sends(lastPrompt, prompts) == (if prompts != [] && Fires(lastPrompt, prompt) then 1 else 0)
    decreases prompts
  {
    if prompts != [] {
      var next := Recorded(lastPrompt, prompt);
      assert !Fires(next, prompt);
      SamePromptSendsOnce(next, prompt, prompts[1..]);
    }
  }

  /** The assembly of `final_prompt` in `envoyer_message`: the prompt, then the file
      section when the extracted text is non-empty, all behind the instruction. */
  method AssemblePrompt(prompt: string, fileText: string) returns (finalPrompt: string)
    ensures finalPrompt == FinalPrompt(prompt, fileText)
  {
    finalPrompt := prompt;
    if fileText != "" {
      finalPrompt := finalPrompt + (FileHeader + Excerpt(fileText));
    } else {
      assert FileSection(fileText) == [];
    }
    assert finalPrompt == prompt + FileSection(fileText);
    finalPrompt := Instruction + finalPrompt;
  }

  /** The choice of `ai_answer` in `envoyer_message` from the service's outcome. */
  method ReadAnswer(reply: Result<string>) returns (answer: string)
    ensures answer == AssistantContent(reply)
  {
    match reply {
      case Ok(text) =>
        answer := Strip(text);
        if answer == "" {
          answer := NoAnswer;
        }
      case Err(cause) =>
        answer := ApiErrorPrefix + cause;
    }
  }

  /** The state the page keeps between runs: `history`, `last_prompt` and `trigger_send`. */
  class Session {
    var history: seq<Turn>
    var lastPrompt: Option<string>
    var triggerSend: bool

    ghost predicate Valid()
      reads this
    {
      WellFormed(history)
    }

    constructor ()
      ensures Valid()
      ensures history == [] && lastPrompt == None && !triggerSend
    {
      history := [];
      lastPrompt := None;
      triggerSend := false;
    }

    /** The Enter-to-send block: fire when the prompt is new and non-empty, and record it. */
    method UpdateTrigger(prompt: string)
      modifies this`lastPrompt, this`triggerSend
      ensures triggerSend == Fires(old(lastPrompt), prompt)
      ensures lastPrompt == Recorded(old(lastPrompt), prompt)
    {
      if prompt != "" && lastPrompt != Some(prompt) {
        lastPrompt := Some(prompt);
        triggerSend := true;
      } else {
        triggerSend := false;
      }
    }

    /** `envoyer_message`: refuse a blank prompt without a file; otherwise send the assembled
        prompt (returned as `sent`) and append the user turn and the assistant turn. */
    method Submit(prompt: string, upload: Option<Extraction.Upload>, reply: Result<string>)
      returns (sent: Option<string>)
      requires Valid()
      modifies this`history
      ensures Valid()
      ensures history == old(history) + Exchange(Request(prompt, upload, reply))
      ensures sent == Outbound(Request(prompt, upload, reply))
    {
      var request := Request(prompt, upload, reply);
      ghost var before := history;
      ExchangeKeepsWellFormed(before, request);
      if Strip(prompt) == "" && upload.None? {
        assert Exchange(request) == [];
        assert history == old(history) + [];
        return None;
      }
      assert Accepted(request);
      var fileText := "";
      if upload.Some? {
        fileText := Extraction.ExtractTextFromFile(upload.value);
      }
      var finalPrompt := AssemblePrompt(prompt, fileText);
      history := history + [Turn(User, prompt)];
      var answer := ReadAnswer(reply);
      history := history + [Turn(Assistant, answer)];
      sent := Some(finalPrompt);
      assert fileText == FileText(upload);
      assert Exchange(request) == [Turn(User, prompt), Turn(Assistant, answer)];
      AppendPair(before, Turn(User, prompt), Turn(Assistant, answer));
    }

    /** One run of the page: update the trigger, then submit when the button was pressed or
        the trigger fired. */
    method Run(prompt: string, upload: Option<Extraction.Upload>, pressed: bool, reply: Result<string>)
      returns (sent: Option<string>)
      requires Valid()
      modifies this
      ensures Valid()
      ensures triggerSend == Fires(old(lastPrompt), prompt)
      ensures lastPrompt == Recorded(old(lastPrompt), prompt)
      ensures history == old(history) +
        (if pressed || triggerSend then Exchange(Request(prompt, upload, reply)) else [])
      ensures sent == if pressed || triggerSend then Outbound(Request(prompt, upload, reply)) else None
    {
      UpdateTrigger(prompt);
      sent := None;
      if pressed || triggerSend {
        sent := Submit(prompt, upload, reply);
      } else {
        assert history == old(history) + [];
      }
    }
  }
}
