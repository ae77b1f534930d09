# LegalBot conversation core, modelled in Dafny

LegalBot is a Telegram bot that answers legal questions through an OpenAI chat
completion. Under the Telegram and OpenAI plumbing it has one piece of logic,
written twice (`class.py` and `bot.py`, whose core methods match line for line):

- a per-user message log in the SQLite table `messages` of `chat_history.db`.
  Rows are appended by `save_message`, the newest ten are read back in
  chronological order by `get_conversation_history`, and `_clear_history`
  deletes all rows of one user;
- the prompt pipeline. `_prepare_gpt_messages` sends the `legal_assistant`
  system prompt, then the history window, then an optional category prompt.
  `generate_and_save_response` runs one turn: annotate, save the user row, read
  the history, assemble, call the model, save the answer. The two callback
  handlers start a turn: `_handle_regenerate` for the newest user text,
  `_handle_law_question` for a category key.

The model has four modules:

- `History` (`history.dfy`) holds the table as a `seq<Row>`. It has one function
  per SQL statement (`UserRows`, `NewestRows`, `Window`, `Stamped`, `Without`)
  and the lemmas about them.
- `Prompts` (`prompts.dfy`) holds the prompt key set and loading with the `""`
  fallback. It also has the message-list assembly and the category gate.
- `Conversation` (`conversation.dfy`) holds the regenerate annotation, the
  temperature choice, and the scan for the newest user entry. `Turn` is the
  whole turn as a function of the table before it, and lemmas state what a
  turn persists and sends.
- `Bot` (`bot.dfy`) holds the classes. `MessageTable` has the fields `rows`
  and `clock`. `LegalBot` has `const prompts` and `const db`. Their methods do
  the inserts, the delete and the handlers in place, and each is proved against
  the functions above.

One model serves both source files. They differ only in things outside the
model: the model name, the per-call timeout, the proxy and the schema. The
schema in `db.py`, which `main.py` uses with `bot.py`, has the composite
primary key `(user_id, timestamp)`. `StampedKeysFresh` shows that no insert can
hit that key while the clock moves forward.

`datetime.now()` becomes `MessageTable.clock`, a counter. Each inserted row
takes the current value and the counter then goes up by one. Under this clock,
timestamps strictly increase along the table (`MessageTable.Valid`). So
`ORDER BY timestamp DESC` is the reverse of table order, which
`NewestRowsIsQuery` proves. The model says nothing about ties between equal
timestamps.

Outside calls become parameters:

- The completion call is an oracle `complete: Request -> Option<string>`.
  `None` stands for any exception on the way: network, timeout, or an answer
  whose content is missing and would break the `NOT NULL` column.
- `send_chat_action` is inside the same `try`, before anything is saved. It is
  the flag `typingOk`.
- `_send_response` runs after the answer is saved, inside the same `try`. It is
  the flag `deliveredOk`. When it raises, the error text is sent instead of the
  answer, and both rows stay in the table.
- Prompt files come in through a `readFile` function, which returns `None` for a
  missing file.

Three behaviours of the code are modelled as written:

- `get_conversation_history` passes `limit` to SQLite unchanged. A negative
  `LIMIT` means no bound, and `LIMIT 0` returns nothing (`Take`).
- An empty `legal_assistant` prompt is sent as a system entry with empty content.
- The category prompt follows the history (class.py:164-167).

## Model

| member | source | states |
|---|---|---|
| History.UserRows | class.py:213-215 | the `WHERE user_id = ?` selection holds only that user's rows, each a row of the table, and every row of the user is among them |
| History.Without | class.py:117-121 | the rows kept by `DELETE … WHERE user_id = ?` all belong to other users and come from the table, and no row of another user is dropped |
| History.Stamped | class.py:202-206 | the rows one save_message call inserts carry the messages' roles and contents in list order, all tagged with the user, stamped with consecutive clock values from `from` on, so increasing |
| History.NewestRows | class.py:213-217 | the fetched rows are the user's rows read from the newest back: WindowSize(n, limit) of them, the i-th being the user's (n-1-i)-th row (the order and limit facts are `NewestRowsIsQuery`) |
| History.Window | class.py:210-219 | the history holds WindowSize(n, limit) entries for a user with n rows, never more than a non-negative `limit` (contents in `WindowIsNewest`) |
| History.NewestRowsIsQuery | class.py:210-217 | on a table stamped in clock order, the query result holds only rows of the user. Timestamps strictly decrease along it, at most `limit` rows come back, and a user row left out is older than every row returned, which happens only when the limit is reached |
| History.WindowIsNewest | class.py:210-219 | the history is exactly the newest min(limit, n) rows of the user in oldest-first order (negative limit: all n) |
| History.WindowBounded | bot.py:234-244 | the history has at most `limit` entries, and each one is the role and content of a stored row of that user |
| History.WindowEndsWith | class.py:199-219 | rows just saved for a user end that user's history, in the order saved, when the limit leaves room for them |
| History.WindowEndsWithNewRow | bot.py:222-244 | a row just saved is the last history entry for any non-zero limit; with limit 1 it is the whole history |
| History.SaveMessageEffect | class.py:199-208 | after save_message the user's rows are the old ones followed by the new messages, in list order and tagged with the user; every other user's rows are unchanged |
| History.StampedKeysFresh | db.py:9-16 | with the clock above every stored timestamp, no INSERT of save_message meets a `(user_id, timestamp)` key already present, and the table stays in timestamp order |
| History.ClearKeepsOthers | class.py:117-121 | clearing one user leaves every other user's rows, in their order |
| History.ClearRemovesUser | bot.py:147-151 | after clearing, the user has no rows |
| History.ClearNoop | class.py:119 | clearing a user with no rows leaves the table as it was |
| History.ClearIncreasing | bot.py:149 | deleting a user's rows keeps the table in timestamp order |
| Prompts.LoadPrompts | class.py:43-59 | `prompts` has exactly the six keys; a key whose file is missing holds "", any other holds its file's text |
| Prompts.LoadPrompt | class.py:54-59 | a file that reads yields its text; a non-empty prompt always came from its file, so a missing file yields "" |
| Prompts.Assemble | class.py:162-168 | the list has 1 + \|history\| entries, one more exactly when the category prompt is truthy, and opens with the legal_assistant system entry (full shape in `AssembleShape`) |
| Prompts.AssembleShape | class.py:162-168 | the message list is the legal_assistant system entry, then the history unchanged and in order, then one system entry exactly when the category prompt is non-empty. Its length is 1 + \|history\| (+1), and without a category prompt the last history entry comes last |
| Prompts.AssembleEmpty | bot.py:186-192 | with no history and no category prompt only the system entry is sent |
| Prompts.CategoryPrompt | class.py:108-114 | a payload selects a prompt iff it is a key of `prompts`, and the prompt is that key's text |
| Prompts.CategoryGate | bot.py:136-145 | with the loaded prompts a payload selects a prompt iff it is one of the six keys, the prompt is that key's text, and `generate_again` and `clear_history` never pass |
| Conversation.Annotate | class.py:138 | the stored text starts with the user's text and adds ` (variant 2)` exactly when regenerating, nothing otherwise |
| Conversation.TemperatureTenths | class.py:174 | the temperature is 0.7 or 0.9, and 0.9 exactly when regenerating |
| Conversation.LastUserContent | class.py:92-95 | None iff the window has no user entry; otherwise the content of a user entry after which no user entry follows (the newest) |
| Conversation.RegenerateText | class.py:92-97 | a text to regenerate is the newest user entry and non-empty; there is none only when the window has no user entry or the newest is empty |
| Conversation.RegenerateFindsLastUserText | bot.py:119-134 | there is nothing to regenerate iff the window has no user entry or the newest one is empty; otherwise the text is the newest user entry's non-empty content |
| Conversation.RegenerateReadsStoredText | class.py:137-149 | after a turn whose typing call went through, the newest user entry of the user's window is the text that turn stored, whatever the model and the delivery did |
| Conversation.RegenerateTwiceAccumulates | class.py:92-139 | after a regenerate turn on `text`, the next regenerate reads `text (variant 2)` from the window and stores the ` (variant 2)` suffix twice |
| Conversation.Turn | class.py:131-160 | a turn keeps every existing row, adds at most two, advances the clock by the number added, and makes a request exactly when the typing call went through |
| Conversation.TurnPersistence | class.py:134-160 | a turn whose typing call fails saves nothing and calls nothing. Otherwise the user row comes first and stays when the call fails. An answer appends exactly one assistant row, which stays when the delivery fails. The error text is sent iff the typing call, the completion call or the delivery failed |
| Conversation.TurnSendsStoredText | class.py:137-142 | the request opens with the legal_assistant system entry; without a category prompt its last message is the user text just stored, since the save precedes the history read |
| Conversation.TurnRegenerateParameters | bot.py:162-198 | temperature is 0.9 iff regenerating, 0.7 otherwise, and the stored user text carries ` (variant 2)` exactly then |
| Conversation.TurnKeepsOtherUsers | class.py:139-149 | a turn leaves every other user's rows and history unchanged |
| Conversation.TurnWindowEndsWithExchange | class.py:137-149 | after a successful turn the user's history ends with the stored question followed by the answer |
| Bot.MessageTable.constructor | class.py:221-234 | a freshly created table is empty and valid |
| Bot.LegalBot.constructor | class.py:18-25 | the bot's prompts are the loaded prompts and the table invariant holds |
| Bot.LegalBot.SaveMessage | class.py:199-208 | the loop appends exactly the stamped messages in list order, advances the clock by their number, and keeps the table valid |
| Bot.LegalBot.GetConversationHistory | class.py:210-219 | on a valid table, returns the reverse of the fetched rows, which are in strictly decreasing timestamp order and newer than every user row left out; so the history is the user's newest min(limit, n) rows, oldest first, and never more than `limit` entries |
| Bot.LegalBot.ClearHistory | class.py:117-121 | the table loses exactly the user's rows: the user has none left, every other user keeps theirs, and the clock is untouched |
| Bot.LegalBot.PrepareGptMessages | class.py:162-168 | the list built by extend/append is the assembly of the legal_assistant prompt, the user's current history window and the category prompt |
| Bot.LegalBot.GenerateAndSaveResponse | class.py:131-160 | the new table, clock, reply and request are exactly those of `Turn` on the old table, including the error text after a failed delivery |
| Bot.LegalBot.HandleRegenerate | class.py:89-104 | with no non-empty user text in the window nothing is saved and no request is made; otherwise a regenerate turn runs on the newest user text, with no category prompt |
| Bot.LegalBot.HandleLawQuestion | class.py:106-115 | a payload outside `prompts` does nothing; a key runs a turn whose user text is the payload and whose category prompt is that key's text |

## Left out

- Telegram dispatch and replies are left out: handler registration,
  `_send_welcome`, `_send_help`, `_send_response`, `answer_callback_query`,
  `edit_message_text` and `send_message`. They are platform plumbing. Only
  whether `_send_response` raised is kept (`deliveredOk`). `Reply.Text` gives
  the text the user would see.
- Callback routing is left out because it depends on aiogram's first-match
  order. The model's category gate accepts `legal_assistant`, since it is a key
  of `prompts`. The router's prefix filter (`law_` or `generate`) keeps that
  payload from reaching the handler, and `generate_again` is caught by the
  regenerate handler registered before it.
- `_handle_message` is left out. For a text message it passes the text to
  `generate_and_save_response`, which is `Turn`. For a message without text
  (a photo, a sticker) `message.text` is None (class.py:86). The insert at
  class.py:139 then breaks `content NOT NULL`, nothing is saved, and the user
  gets the error text. The model's user text is always a string, so this path
  is not modelled.
- The OpenAI and httpx clients, model names, proxy and timeouts are left out.
  The completion call is the `complete` oracle; `Request` records the messages,
  the temperature in tenths and `max_tokens` (800 in both files).
- Prompt file reading is a parameter. Errors other than a missing file (a
  permission error, bad UTF-8) would stop startup and are not modelled.
- `init_db`, `db.py`, `main.py`, `run` and polling are left out. The
  constructors model an empty table and the prompts loaded once.
- Concurrency is left out. aiogram runs handlers concurrently, so a second turn
  of the same user can insert rows between the user row (class.py:139) and the
  answer row (class.py:149). The model treats a turn as atomic, and
  `TurnWindowEndsWithExchange` and `RegenerateReadsStoredText` rely on that.
- SQLite connections, commits and storage failures are left out. Each operation
  is one statement on the table. A failing insert, and the rollback of the rest
  of that `save_message` call, is not modelled. Under the clock model the
  composite key never collides (`StampedKeysFresh`).
- `datetime.now()` is a strictly increasing counter. Equal timestamps, and the
  undefined order SQLite gives them, are not modelled.
- Logging of the caught exception is left out.
