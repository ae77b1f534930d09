/** The prompt texts of LegalBot: which keys exist, how a missing prompt file
    degrades to "", how the message list for the completion call is assembled,
    and which callback payloads select a category prompt. */
module Prompts {
  import opened History

  /** The key of the general system prompt sent first in every request. */
  const LegalAssistant: string := "legal_assistant"

  /** The six keys of `prompts`, as _load_prompts builds them. */
  const PromptKeys: set<string> :=
    {"law_labor", "law_housing", "law_civil", "law_family", "generate_contract", LegalAssistant}

  /** The file each key is read from. */
  const PromptFiles: map<string, string> := map[
    "law_labor" := "prompts/work.md",
    "law_housing" := "prompts/housing.md",
    "law_civil" := "prompts/civil.md",
    "law_family" := "prompts/family.md",
    "generate_contract" := "prompts/contract.md",
    LegalAssistant := "prompts/legal_prompt.md"]

  /** _load_prompt: the file's text, or "" when the file is not found.
      `readFile` stands for the file system and yields None for a missing file. */
  function LoadPrompt(readFile: string -> Option<string>, path: string): (text: string)
    ensures readFile(path).Some? ==> text == readFile(path).value
    ensures text != "" ==> readFile(path) == Some(text)
  {
    match readFile(path)
    case Some(text) => text
    case None => ""
  }

  /** _load_prompts: every key mapped to the text of its file. */
  function LoadPrompts(readFile: string -> Option<string>): (prompts: map<string, string>)
    ensures prompts.Keys == PromptKeys
    ensures forall key :: key in prompts ==>
      (readFile(PromptFiles[key]).None? ==> prompts[key] == "") &&
      (readFile(PromptFiles[key]).Some? ==> prompts[key] == readFile(PromptFiles[key]).value)
  {
    assert PromptFiles.Keys == PromptKeys;
    map key | key in PromptFiles :: LoadPrompt(readFile, PromptFiles[key])
  }

  /** Python truthiness of the optional `prompt` argument: given and non-empty. */
  predicate Truthy(prompt: Option<string>) {
    prompt.Some? && prompt.value != ""
  }

  /** _prepare_gpt_messages: the system prompt, then the history, then the
      category prompt when there is one. */
  function Assemble(systemPrompt: string, history: seq<Entry>, prompt: Option<string>): (messages: seq<Entry>)
    ensures |messages| == 1 + |history| + (if Truthy(prompt) then 1 else 0)
    ensures messages[0] == Entry(System, systemPrompt)
  {
    [Entry(System, systemPrompt)] + history +
    (if Truthy(prompt) then [Entry(System, prompt.value)] else [])
  }

  /** _handle_law_question's gate: the prompt selected by a callback payload, if
      the payload is a key of `prompts`. */
  function CategoryPrompt(prompts: map<string, string>, data: string): (selected: Option<string>)
    ensures selected.Some? <==> data in prompts
    ensures selected.Some? ==> selected.value == prompts[data]
  {
    if data in prompts then Some(prompts[data]) else None
  }

  /** The assembled list opens with the system prompt, carries the history unchanged
      and in order, and ends with exactly one extra system entry iff the category
      prompt is non-empty, which then comes after every history entry. */
  lemma AssembleShape(systemPrompt: string, history: seq<Entry>, prompt: Option<string>)
    ensures var msgs := Assemble(systemPrompt, history, prompt);
      |msgs| == 1 + |history| + (if Truthy(prompt) then 1 else 0) &&
      msgs[0] == Entry(System, systemPrompt) &&
      msgs[1..1 + |history|] == history &&
      (Truthy(prompt) <==> |msgs| == |history| + 2) &&
      (Truthy(prompt) ==> msgs[|msgs| - 1] == Entry(System, prompt.value)) &&
      (!Truthy(prompt) && history != [] ==> msgs[|msgs| - 1] == history[|history| - 1])
  {
    var msgs := Assemble(systemPrompt, history, prompt);
    assert msgs[1..1 + |history|] == history;
  }

  /** With no history and no category prompt only the system entry is sent. */
  lemma AssembleEmpty(systemPrompt: string)
    ensures Assemble(systemPrompt, [], None) == [Entry(System, systemPrompt)]
  {
  }

  /** With the loaded prompts a payload passes the gate exactly when it is one of
      the six keys, and the selected prompt is that key's text; the other buttons'
      payloads `generate_again` and `clear_history` never pass. */
  lemma CategoryGate(prompts: map<string, string>, data: string)
    requires prompts.Keys == PromptKeys
    ensures CategoryPrompt(prompts, data).Some? <==> data in PromptKeys
    ensures CategoryPrompt(prompts, data).Some? ==> CategoryPrompt(prompts, data).value == prompts[data]
    ensures CategoryPrompt(prompts, "generate_again").None?
    ensures CategoryPrompt(prompts, "clear_history").None?
  {
  }
}
