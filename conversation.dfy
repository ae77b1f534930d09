/** One conversation turn of LegalBot as a function of the table before it:
    the regenerate annotation, the temperature choice, the request sent to the
    completion oracle, what is persisted and what the user is sent back. */
module Conversation {
  import opened History
  import opened Prompts

  /** The annotation appended to a regenerated user message. */
  const VariantSuffix: string := " (variant 2)"

  /** The fixed reply sent when anything inside the turn fails. */
  const ErrorText: string := "⚠️ Произошла ошибка при обработке запроса"

  /** `max_tokens` of the completion request. */
  const MaxTokens: nat := 800

  /** The request handed to the completion endpoint; the temperature in tenths. */
  datatype Request = Request(messages: seq<Entry>, temperatureTenths: nat, maxTokens: nat)

  /** What the user is sent: the generated answer, or the fixed error text. */
  datatype Reply = Answer(text: string) | ErrorNotice {
    function Text(): string {
      match this
      case Answer(text) => text
      case ErrorNotice => ErrorText
    }
  }

  /** The table, the clock, the reply and the request (None when no call was made) after a turn. */
  datatype Outcome = Outcome(rows: seq<Row>, clock: nat, reply: Reply, request: Option<Request>)

  /** `processed_message`: the text stored for the user. */
  function Annotate(userMessage: string, isRegenerate: bool): (stored: string)
    ensures |userMessage| <= |stored| && stored[..|userMessage|] == userMessage
    ensures stored[|userMessage|..] == (if isRegenerate then VariantSuffix else "")
  {
    if isRegenerate then userMessage + VariantSuffix else userMessage
  }

  /** `temperature=0.9 if is_regenerate else 0.7`, in tenths. */
  function TemperatureTenths(isRegenerate: bool): (tenths: nat)
    ensures tenths == 7 || tenths == 9
    ensures tenths == 9 <==> isRegenerate
  {
    if isRegenerate then 9 else 7
  }

  /** `next(m['content'] for m in reversed(history) if m['role'] == 'user', None)`:
      the content of the newest user entry of the window. */
  function LastUserContent(history: seq<Entry>): (found: Option<string>)
    ensures found.None? <==> forall i :: 0 <= i < |history| ==> history[i].role != User
    ensures found.Some? ==>
      exists i :: 0 <= i < |history| && history[i] == Entry(User, found.value) &&
        forall j :: i < j < |history| ==> history[j].role != User
  {
    if history == [] then None
    else
      var last := history[|history| - 1];
      if last.role == User then Some(last.content)
      else LastUserContent(history[..|history| - 1])
  }

  /** `if last_user_message:`: the text to regenerate, unless there is none or it is empty. */
  function RegenerateText(history: seq<Entry>): (text: Option<string>)
    ensures text.Some? ==> text.value != "" && LastUserContent(history) == text
    ensures text.None? ==> LastUserContent(history).None? || LastUserContent(history) == Some("")
  {
    match LastUserContent(history)
    case Some(text) => if text != "" then Some(text) else None
    case None => None
  }

  /** generate_and_save_response from the table `rows` and the clock `clock`.
      When the typing indicator goes out (`typingOk`), the (possibly annotated)
      user text is saved, the window read after that save is assembled into the
      request, and the oracle `complete` either fails (the error text is sent)
      or answers. The answer is saved, then delivered; when the delivery
      raises (`deliveredOk` false) the error text is sent instead, and both
      rows stay. A failing typing indicator ends the turn before anything is saved. */
  function Turn(rows: seq<Row>, clock: nat, systemPrompt: string, userId: int, userMessage: string,
                isRegenerate: bool, prompt: Option<string>, typingOk: bool,
                complete: Request -> Option<string>, deliveredOk: bool): (o: Outcome)
    ensures |rows| <= |o.rows| <= |rows| + 2 && o.rows[..|rows|] == rows
    ensures o.clock == clock + (|o.rows| - |rows|)
    ensures o.request.Some? <==> typingOk
  {
    if !typingOk then Outcome(rows, clock, ErrorNotice, None)
    else
      var stored := rows + [Row(userId, User, Annotate(userMessage, isRegenerate), clock)];
      var request := Request(Assemble(systemPrompt, Window(stored, userId, DefaultLimit), prompt),
                             TemperatureTenths(isRegenerate), MaxTokens);
      match complete(request)
      case None => Outcome(stored, clock + 1, ErrorNotice, Some(request))
      case Some(answer) =>
        Outcome(stored + [Row(userId, Assistant, answer, clock + 1)], clock + 2,
                if deliveredOk then Answer(answer) else ErrorNotice, Some(request))
  }

  // ---------------------------------------------------------------------------
  // Properties of a turn

  /** The user row is saved before the call, so it stays when the call fails;
      an answer is saved before it is delivered, so it stays when the delivery
      fails; the error text is sent exactly when the typing indicator, the call
      or the delivery failed; a successful call appends exactly one assistant row. */
  lemma TurnPersistence(rows: seq<Row>, clock: nat, systemPrompt: string, userId: int, userMessage: string,
                        isRegenerate: bool, prompt: Option<string>, typingOk: bool,
                        complete: Request -> Option<string>, deliveredOk: bool)
    ensures var o := Turn(rows, clock, systemPrompt, userId, userMessage, isRegenerate, prompt, typingOk,
                          complete, deliveredOk);
      var userRow := Row(userId, User, Annotate(userMessage, isRegenerate), clock);
      (!typingOk ==> o.rows == rows && o.request.None?) &&
      (typingOk ==> o.request.Some? && |o.rows| >= |rows| + 1 && o.rows[..|rows| + 1] == rows + [userRow]) &&
      (o.reply.ErrorNotice? <==> !typingOk || complete(o.request.value).None? || !deliveredOk) &&
      (typingOk && complete(o.request.value).None? ==> o.rows == rows + [userRow]) &&
      (typingOk && complete(o.request.value).Some? ==>
        o.rows == rows + [userRow, Row(userId, Assistant, complete(o.request.value).value, clock + 1)] &&
        o.reply == (if deliveredOk then Answer(complete(o.request.value).value) else ErrorNotice))
  {
    if typingOk {
      var o := Turn(rows, clock, systemPrompt, userId, userMessage, isRegenerate, prompt, typingOk,
                    complete, deliveredOk);
      var userRow := Row(userId, User, Annotate(userMessage, isRegenerate), clock);
      assert o.rows[..|rows| + 1] == rows + [userRow];
    }
  }

  /** The request opens with the system prompt; without a category prompt its
      last message is the user text just stored, because the save comes before
      the history is read. */
  lemma TurnSendsStoredText(rows: seq<Row>, clock: nat, systemPrompt: string, userId: int, userMessage: string,
                            isRegenerate: bool, prompt: Option<string>, complete: Request -> Option<string>,
                            deliveredOk: bool)
    requires !Truthy(prompt)
    ensures var o := Turn(rows, clock, systemPrompt, userId, userMessage, isRegenerate, prompt, true,
                          complete, deliveredOk);
      var msgs := o.request.value.messages;
      o.request.Some? && |msgs| >= 2 &&
      msgs[0] == Entry(System, systemPrompt) &&
      msgs[|msgs| - 1] == Entry(User, Annotate(userMessage, isRegenerate))
  {
    var userRow := Row(userId, User, Annotate(userMessage, isRegenerate), clock);
    var history := Window(rows + [userRow], userId, DefaultLimit);
    WindowEndsWithNewRow(rows, userRow, DefaultLimit);
    AssembleShape(systemPrompt, history, prompt);
  }

  /** Temperature 0.9 exactly for a regenerate request, 0.7 otherwise, and the
      stored text carries the suffix exactly then. */
  lemma TurnRegenerateParameters(rows: seq<Row>, clock: nat, systemPrompt: string, userId: int, userMessage: string,
                                 isRegenerate: bool, prompt: Option<string>, complete: Request -> Option<string>,
                                 deliveredOk: bool)
    ensures var o := Turn(rows, clock, systemPrompt, userId, userMessage, isRegenerate, prompt, true,
                          complete, deliveredOk);
      o.request.Some? &&
      (o.request.value.temperatureTenths == 9 <==> isRegenerate) &&
      (o.request.value.temperatureTenths == 7 <==> !isRegenerate) &&
      o.rows[|rows|].content == (if isRegenerate then userMessage + VariantSuffix else userMessage)
  {
  }

  /** A turn touches only its own user's rows. */
  lemma TurnKeepsOtherUsers(rows: seq<Row>, clock: nat, systemPrompt: string, userId: int, userMessage: string,
                            isRegenerate: bool, prompt: Option<string>, typingOk: bool,
                            complete: Request -> Option<string>, deliveredOk: bool, other: int)
    requires other != userId
    ensures var o := Turn(rows, clock, systemPrompt, userId, userMessage, isRegenerate, prompt, typingOk,
                          complete, deliveredOk);
      UserRows(o.rows, other) == UserRows(rows, other) &&
      Window(o.rows, other, DefaultLimit) == Window(rows, other, DefaultLimit)
  {
    var o := Turn(rows, clock, systemPrompt, userId, userMessage, isRegenerate, prompt, typingOk,
                  complete, deliveredOk);
    if typingOk {
      var userRow := Row(userId, User, Annotate(userMessage, isRegenerate), clock);
      UserRowsAppend(rows, [userRow], other);
      assert UserRows([userRow], other) == [] by { assert [userRow][..0] == []; }
      if o.rows != rows + [userRow] {
        var answerRow := o.rows[|o.rows| - 1];
        assert o.rows == rows + [userRow] + [answerRow];
        UserRowsAppend(rows + [userRow], [answerRow], other);
        assert UserRows([answerRow], other) == [] by { assert [answerRow][..0] == []; }
      }
    }
  }

  /** After the model answers, the user's window ends with the stored question
      and the answer, whether or not the answer reached the user. */
  lemma TurnWindowEndsWithExchange(rows: seq<Row>, clock: nat, systemPrompt: string, userId: int, userMessage: string,
                                   isRegenerate: bool, prompt: Option<string>, complete: Request -> Option<string>,
                                   deliveredOk: bool)
    ensures var o := Turn(rows, clock, systemPrompt, userId, userMessage, isRegenerate, prompt, true,
                          complete, deliveredOk);
      var w := Window(o.rows, userId, DefaultLimit);
      o.request.Some? &&
      (complete(o.request.value).Some? ==>
        |w| >= 2 && w[|w| - 2] == Entry(User, Annotate(userMessage, isRegenerate)) &&
        w[|w| - 1] == Entry(Assistant, complete(o.request.value).value))
  {
    var o := Turn(rows, clock, systemPrompt, userId, userMessage, isRegenerate, prompt, true,
                  complete, deliveredOk);
    if complete(o.request.value).Some? {
      var userRow := Row(userId, User, Annotate(userMessage, isRegenerate), clock);
      var answerRow := Row(userId, Assistant, complete(o.request.value).value, clock + 1);
      assert o.rows == rows + [userRow, answerRow];
      WindowEndsWith(rows, [userRow, answerRow], userId, DefaultLimit);
      var w := Window(o.rows, userId, DefaultLimit);
      assert w[|w| - 2..] == [EntryOf(userRow), EntryOf(answerRow)];
      assert w[|w| - 2] == w[|w| - 2..][0];
    }
  }

  // ---------------------------------------------------------------------------
  // Regenerate

  /** Regenerate takes the newest non-empty user text of the window; there is
      nothing to regenerate exactly when the window has no user entry or the
      newest one is empty. */
  lemma RegenerateFindsLastUserText(history: seq<Entry>)
    ensures RegenerateText(history).None? <==>
      (forall i :: 0 <= i < |history| ==> history[i].role != User) ||
      LastUserContent(history) == Some("")
    ensures RegenerateText(history).Some? ==>
      RegenerateText(history).value != "" &&
      exists i :: 0 <= i < |history| && history[i] == Entry(User, RegenerateText(history).value) &&
        forall j :: i < j < |history| ==> history[j].role != User
  {
  }

  /** After any turn that saved its user row, the newest user entry of the
      user's window is the text that turn stored, whatever the model and the
      delivery did: it is what the next regenerate reads. */
  lemma RegenerateReadsStoredText(rows: seq<Row>, clock: nat, systemPrompt: string, userId: int, userMessage: string,
                                  isRegenerate: bool, prompt: Option<string>, complete: Request -> Option<string>,
                                  deliveredOk: bool)
    ensures var o := Turn(rows, clock, systemPrompt, userId, userMessage, isRegenerate, prompt, true,
                          complete, deliveredOk);
      LastUserContent(Window(o.rows, userId, DefaultLimit)) == Some(Annotate(userMessage, isRegenerate))
  {
    var o := Turn(rows, clock, systemPrompt, userId, userMessage, isRegenerate, prompt, true,
                  complete, deliveredOk);
    var userRow := Row(userId, User, Annotate(userMessage, isRegenerate), clock);
    var w := Window(o.rows, userId, DefaultLimit);
    if complete(o.request.value).Some? {
      TurnWindowEndsWithExchange(rows, clock, systemPrompt, userId, userMessage, isRegenerate, prompt,
                                 complete, deliveredOk);
      LastUserBeforeReply(w, Annotate(userMessage, isRegenerate));
    } else {
      assert o.rows == rows + [userRow];
      WindowEndsWithNewRow(rows, userRow, DefaultLimit);
    }
  }

  /** A user entry followed only by a non-user entry is the newest user entry. */
  lemma LastUserBeforeReply(history: seq<Entry>, content: string)
    requires |history| >= 2 && history[|history| - 2] == Entry(User, content)
    requires history[|history| - 1].role != User
    ensures LastUserContent(history) == Some(content)
  {
    assert history[..|history| - 1][|history| - 2] == history[|history| - 2];
  }

  /** A regenerate turn on `text` leaves `text + " (variant 2)"` as the newest
      user entry, so the next regenerate runs on that and stores the suffix twice. */
  lemma RegenerateTwiceAccumulates(rows: seq<Row>, clock: nat, systemPrompt: string, userId: int, text: string,
                                   complete: Request -> Option<string>, deliveredOk: bool)
    ensures var o := Turn(rows, clock, systemPrompt, userId, text, true, None, true, complete, deliveredOk);
      var again := RegenerateText(Window(o.rows, userId, DefaultLimit));
      again == Some(text + VariantSuffix) &&
      Annotate(again.value, true) == text + VariantSuffix + VariantSuffix
  {
    RegenerateReadsStoredText(rows, clock, systemPrompt, userId, text, true, None, complete, deliveredOk);
  }
}
