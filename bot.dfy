/** LegalBot's state-changing core: the `messages` table as an object whose rows
    the bot inserts and deletes, and the bot's handlers that run a turn against it.
    Each method is proved against the specification functions of History,
    Prompts and Conversation. */
module Bot {
  import opened History
  import opened Prompts
  import opened Conversation

  /** The `messages` table of chat_history.db. `clock` stands for datetime.now():
      it stamps every inserted row and only moves forward. */
  class MessageTable {
    var rows: seq<Row>
    var clock: nat

    /** Every stored timestamp is older than the clock and they increase along the table. */
    ghost predicate Valid()
      reads this
    {
      Increasing(rows) && forall i :: 0 <= i < |rows| ==> rows[i].timestamp < clock
    }

    /** init_db on a fresh database file: an empty table. */
    constructor (start: nat)
      ensures Valid() && rows == [] && clock == start
    {
      rows := [];
      clock := start;
    }
  }

  class LegalBot {
    const prompts: map<string, string>
    const db: MessageTable

    ghost predicate Valid()
      reads this, db
    {
      prompts.Keys == PromptKeys && db.Valid()
    }

    /** __init__, as far as the core is concerned: the prompts are loaded once. */
    constructor (readFile: string -> Option<string>, db: MessageTable)
      requires db.Valid()
      ensures Valid() && this.db == db && prompts == LoadPrompts(readFile)
    {
      this.db := db;
      prompts := LoadPrompts(readFile);
    }

    /** save_message: one INSERT per message, in list order, each tagged with
        `userId` and stamped by the clock; existing rows stay as they were. */
    method SaveMessage(userId: int, messages: seq<Entry>)
      requires Valid()
      modifies db
      ensures Valid()
      ensures db.rows == old(db.rows) + Stamped(userId, messages, old(db.clock))
      ensures db.clock == old(db.clock) + |messages|
    {
      StampedKeysFresh(db.rows, userId, messages, db.clock);
      var i := 0;
      while i < |messages|
        invariant 0 <= i <= |messages|
        invariant db.rows == old(db.rows) + Stamped(userId, messages[..i], old(db.clock))
        invariant db.clock == old(db.clock) + i
      {
        var row := Row(userId, messages[i].role, messages[i].content, db.clock);
        assert Stamped(userId, messages[..i + 1], old(db.clock))
            == Stamped(userId, messages[..i], old(db.clock)) + [row];
        db.rows := db.rows + [row];
        db.clock := db.clock + 1;
        i := i + 1;
      }
      assert messages[..i] == messages;
    }

    /** get_conversation_history: the newest `limit` rows of the user, fetched
        newest-first and reversed into chronological order. */
    method GetConversationHistory(userId: int, limit: int) returns (history: seq<Entry>)
      requires Valid()
      ensures history == Window(db.rows, userId, limit)
      ensures var fetched := NewestRows(db.rows, userId, limit);
        history == Reverse(Entries(fetched)) &&
        (forall i, j :: 0 <= i < j < |fetched| ==> fetched[i].timestamp > fetched[j].timestamp) &&
        (forall x :: x in db.rows && x.userId == userId && x !in fetched ==>
           forall i :: 0 <= i < |fetched| ==> x.timestamp < fetched[i].timestamp)
      ensures var mine := UserRows(db.rows, userId);
        history == Entries(mine[|mine| - WindowSize(|mine|, limit)..])
      ensures limit >= 0 ==> |history| <= limit
    {
      var fetched := Entries(NewestRows(db.rows, userId, limit));
      history := Reverse(fetched);
      NewestRowsIsQuery(db.rows, userId, limit);
      WindowIsNewest(db.rows, userId, limit);
      WindowBounded(db.rows, userId, limit);
    }

    /** _clear_history: DELETE every row of the user. */
    method ClearHistory(userId: int)
      requires Valid()
      modifies db
      ensures Valid()
      ensures db.rows == Without(old(db.rows), userId) && db.clock == old(db.clock)
      ensures UserRows(db.rows, userId) == []
      ensures forall other :: other != userId ==> UserRows(db.rows, other) == UserRows(old(db.rows), other)
    {
      ClearIncreasing(db.rows, userId);
      forall other | other != userId
        ensures UserRows(Without(db.rows, userId), other) == UserRows(db.rows, other)
      {
        ClearKeepsOthers(db.rows, userId, other);
      }
      ClearRemovesUser(db.rows, userId);
      db.rows := Without(db.rows, userId);
    }

    /** _prepare_gpt_messages: the legal_assistant system entry, the user's
        history window, and the category prompt when it is non-empty. */
    method PrepareGptMessages(userId: int, prompt: Option<string>) returns (messages: seq<Entry>)
      requires Valid()
      ensures messages == Assemble(prompts[LegalAssistant], Window(db.rows, userId, DefaultLimit), prompt)
    {
      var history := GetConversationHistory(userId, DefaultLimit);
      messages := [Entry(System, prompts[LegalAssistant])];
      messages := messages + history;
      if Truthy(prompt) {
        messages := messages + [Entry(System, prompt.value)];
      }
    }

    /** generate_and_save_response. `typingOk` is whether send_chat_action went
        through; `complete` is the completion endpoint, None when the call fails;
        `deliveredOk` is whether _send_response went through. Returns what the
        user is sent and the request made, if any. */
    method GenerateAndSaveResponse(userId: int, userMessage: string, isRegenerate: bool,
                                   prompt: Option<string>, typingOk: bool,
                                   complete: Request -> Option<string>, deliveredOk: bool)
      returns (reply: Reply, request: Option<Request>)
      requires Valid()
      modifies db
      ensures Valid()
      ensures Outcome(db.rows, db.clock, reply, request)
           == Turn(old(db.rows), old(db.clock), prompts[LegalAssistant], userId, userMessage,
                   isRegenerate, prompt, typingOk, complete, deliveredOk)
    {
      if !typingOk {
        return ErrorNotice, None;
      }
      var processed := Annotate(userMessage, isRegenerate);
      SaveMessage(userId, [Entry(User, processed)]);
      assert Stamped(userId, [Entry(User, processed)], old(db.clock))
          == [Row(userId, User, processed, old(db.clock))];
      var messages := PrepareGptMessages(userId, prompt);
      var req := Request(messages, TemperatureTenths(isRegenerate), MaxTokens);
      request := Some(req);
      var response := complete(req);
      if response.None? {
        return ErrorNotice, request;
      }
      var answer := response.value;
      SaveMessage(userId, [Entry(Assistant, answer)]);
      assert Stamped(userId, [Entry(Assistant, answer)], old(db.clock) + 1)
          == [Row(userId, Assistant, answer, old(db.clock) + 1)];
      if deliveredOk {
        reply := Answer(answer);
      } else {
        reply := ErrorNotice;
      }
    }

    /** _handle_regenerate: re-run the newest user text of the window with the
        regenerate flag; nothing is saved or called when there is no such text
        or it is empty. */
    method HandleRegenerate(userId: int, typingOk: bool, complete: Request -> Option<string>,
                            deliveredOk: bool)
      returns (reply: Option<Reply>, request: Option<Request>)
      requires Valid()
      modifies db
      ensures Valid()
      ensures var text := RegenerateText(Window(old(db.rows), userId, DefaultLimit));
        if text.None? then
          reply.None? && request.None? && db.rows == old(db.rows) && db.clock == old(db.clock)
        else
          reply.Some? &&
          Outcome(db.rows, db.clock, reply.value, request)
            == Turn(old(db.rows), old(db.clock), prompts[LegalAssistant], userId, text.value,
                    true, None, typingOk, complete, deliveredOk)
    {
      var history := GetConversationHistory(userId, DefaultLimit);
      var last := LastUserContent(history);
      if last.Some? && last.value != "" {
        var r;
        r, request := GenerateAndSaveResponse(userId, last.value, true, None, typingOk, complete, deliveredOk);
        reply := Some(r);
      } else {
        reply, request := None, None;
      }
    }

    /** _handle_law_question: a payload that is a key of `prompts` runs a turn
        whose user text is the payload itself and whose category prompt is the
        key's text; any other payload does nothing. */
    method HandleLawQuestion(userId: int, data: string, typingOk: bool, complete: Request -> Option<string>,
                             deliveredOk: bool)
      returns (reply: Option<Reply>, request: Option<Request>)
      requires Valid()
      modifies db
      ensures Valid()
      ensures match CategoryPrompt(prompts, data)
        case None =>
          reply.None? && request.None? && db.rows == old(db.rows) && db.clock == old(db.clock)
        case Some(prompt) =>
          reply.Some? &&
          Outcome(db.rows, db.clock, reply.value, request)
            == Turn(old(db.rows), old(db.clock), prompts[LegalAssistant], userId, data,
                    false, Some(prompt), typingOk, complete, deliveredOk)
    {
      if data in prompts {
        var r;
        r, request := GenerateAndSaveResponse(userId, data, false, Some(prompts[data]), typingOk, complete, deliveredOk);
        reply := Some(r);
      } else {
        reply, request := None, None;
      }
    }
  }
}
