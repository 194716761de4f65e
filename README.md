# ABP lesson-plan generator: formatter, streaming decoder and prompt parameters

ABP_Demo is a small web tool that asks a hosted language model for a
project-based-learning ("Aprendizaje Basado en Proyectos") lesson plan. It
shows the plan while the model is still streaming it, and offers it for
download. This project models the deterministic text path of `main.py`:

- **`ProjectFormat`**: the `Project` record and the fixed key order of
  `Project.to_json`. It also holds `format_project_in_markdown`, which turns an
  insertion-ordered dictionary into markdown. The `Summary` entry comes first as
  "Descripción". `Evaluation` becomes a heading over its text. Every other key
  becomes a heading over a bullet list. Keys that are absent produce nothing.
  The function is modelled as a method with its loop (`FormatProjectInMarkdown`,
  `AppendSections`). It is proved equal to the reference function `Markdown`.
  The lemmas then state what that output looks like.
- **`StreamDecoder`**: `StreamHandler`, a class holding the accumulated `text`,
  the last good `markdown` and the sequence of strings passed to the display
  function. `OnLlmNewToken` appends the token. When a display function exists,
  it then tries the two speculative closings `"]}` and `"}` in that order.
  Otherwise it fails with `ValueError`. `json.loads` is an uninterpreted
  `Parser` given to the constructor. `OnLlmTokens` hands a whole stream of
  tokens to the handler, one call per token, and ends in the state that the
  reference function `Feed` describes. The lemmas about `Feed` then say what
  that state is. The buffer is exactly the concatenated tokens. The markdown
  is the decoding of the last buffer that decoded (`FeedMarkdown`).
- **`Generation`**: `prompt_materias` and `prompt_internet` from
  `generar_proyecto`, and the content that `render` writes to `proyecto.md`.
- **`Text`**: `str.join`, `"".join` and a one-character `str.split`, with the
  laws the other modules use. `Split` is the partner of `Join`: it undoes it.
- **`Wrappers`**: `Option`, `Result` and `Outcome`. They stand for the
  exceptions of the source.

An exception raised by the source is a `None`/`Failure`/`Fail` value in the
model. `format_project_in_markdown` raises a `TypeError` when `Summary` or
`Evaluation` is not a string, or when another key's value is not iterable.
The model returns `None` in those cases. This is what lets the stream handler
treat a formatting failure as the failure of that candidate.

The last buffer that decodes is usually not the last buffer. `json.loads`
rejects any text after a complete object, so once the buffer holds the whole
object neither closing decodes. When a stream ends normally, the markdown shown
last is therefore the last partial decoding. For example, if the buffer ends in
`"Evaluation": "… proyecto` and the last token is `."}`, the final "." is never
displayed. `FeedFinal` covers only a stream that stops inside a string, where
the final buffer does decode.

The copy at `main.py:63` protects the caller's dictionary. In the model the
dictionary is a value (`Dict`, a sequence of key/value pairs with distinct
keys), so the caller's argument cannot change. `FormatProjectInMarkdown` pops
`Summary` from its own local copy, as the source does.

The formatter renders no title and no rubric, and numbers no list.
`Entregables` is a list like the other bullet keys. The decoder performs no
schema-checked parse of its own: it only calls `json.loads` and the formatter.

## Model

| member | source | states |
|---|---|---|
| `ProjectFormat.ToJson` | main.py:52-59 | `to_json` yields a well-typed dictionary with distinct keys, six entries, `Summary` first and `Evaluation` last |
| `ProjectFormat.ItemsOf` | main.py:75 | `for i in val` enumerates the items of a list and the characters of a string, which concatenate back to the string; any other value is not iterable |
| `ProjectFormat.BulletList` | main.py:75 | `"\n".join` of the bullets: nothing for no items, and one bullet line without a newline for a single item |
| `Text.Chars` | main.py:75 | iterating a string yields one one-character string per character, in order, and they concatenate back to the string |
| `ProjectFormat.SummarySection` | main.py:65-67 | the `Summary` block exists exactly when the value is a string, and it opens with the "Descripción" heading |
| `ProjectFormat.Section` | main.py:70-75 | one loop iteration succeeds exactly when `Evaluation` holds a string, or another key holds a string or a list |
| `ProjectFormat.Sections` | main.py:69-75 | the `for` loop over the remaining entries: no entries leave the text unchanged, and an entry that raises makes the loop raise |
| `ProjectFormat.Markdown` | main.py:62-77 | reference function for the formatter: a `Summary` that is not a string raises, and when `Summary` is present and nothing raises the output opens with the "Descripción" heading |
| `ProjectFormat.IndexOf` | main.py:65 | `"Summary" in json_data`: finds the first entry holding the key, or reports that no entry holds it |
| `ProjectFormat.Without` | main.py:67 | `pop` removes exactly the entry at the given position and keeps the others in order |
| `ProjectFormat.FormatProjectInMarkdown` | main.py:62-77 | the method (copy, pop `Summary`, loop) returns exactly `Markdown(jsonData)`, and `None` exactly where the source raises |
| `ProjectFormat.AppendSections` | main.py:69-75 | the `for` loop appends the blocks of all entries in order to the text built so far, or fails when any entry raises |
| `ProjectFormat.AppendSection` | main.py:70-75 | one iteration appends that entry's block, and fails exactly when the entry raises |
| `ProjectFormat.SectionsAppend` | main.py:69-75 | rendering the concatenation of two entry lists is rendering each list and concatenating the results |
| `ProjectFormat.SectionsFailAt` | main.py:69-75 | a single entry that raises makes the whole loop raise |
| `ProjectFormat.SectionsInOrder` | main.py:69-75 | the loop succeeds exactly when every entry renders, and then its output is each entry's block exactly once, in insertion order |
| `ProjectFormat.SectionDefined` | main.py:70-75 | a key other than `Summary` renders exactly when its value has the right type: a string under `Evaluation`, a string or list elsewhere |
| `ProjectFormat.SummaryRemoved` | main.py:65-67 | after the pop no entry with key `Summary` is left for the loop |
| `ProjectFormat.MarkdownDefinedIff` | main.py:62-77 | the formatter succeeds on a dictionary exactly when every entry is well typed, so it is total on partial objects of the right types |
| `ProjectFormat.SummaryFirst` | main.py:65-67 | wherever `Summary` sits, its "Descripción" block comes first, `Summary` is not rendered again, and moving it to the front changes nothing |
| `ProjectFormat.NoSummary` | main.py:64-75 | without `Summary`, the output is just the remaining entries' blocks |
| `ProjectFormat.BulletLines` | main.py:75 | if no item contains a newline, splitting a bullet list on newlines gives back `"- " + item` for each item, in order |
| `ProjectFormat.ToJsonMarkdown` | main.py:52-77 | formatting `to_json()` gives the reference document `ProjectDocument`: Descripción, Objetivos, Materiales, Actividades, Entregables, Evaluación in that order, each with its field's contents |
| `ProjectFormat.ToJsonSections` | main.py:52-75 | the five entries after `Summary` in `to_json()` all render, as the Objetivos, Materiales, Actividades, Entregables and Evaluación blocks in that order |
| `ProjectFormat.MarkdownEmpty` | main.py:64-77 | the empty dictionary formats to the empty string |
| `Text.Join` | main.py:85 | `sep.join`: the empty list joins to the empty string, and a single string is returned without any separator |
| `Text.JoinSnoc` | main.py:75 | joining one more string appends the separator and that string |
| `Text.JoinContains` | main.py:85 | every joined string appears verbatim in the result, at a computed offset |
| `Text.SplitJoin` | main.py:75 | splitting on a one-character separator undoes joining with it when no piece contains it |
| `StreamDecoder.Attempt` | main.py:30-31 | one candidate succeeds exactly when `json.loads` accepts it and the resulting dictionary is well typed for the formatter, and then gives that dictionary's markdown |
| `StreamDecoder.Decode` | main.py:29-37 | the buffer decodes when either closing does; the `"]}` closing wins when it decodes, and `"}` is used only when it does not |
| `StreamDecoder.NextMarkdown` | main.py:29-37 | after a token the markdown is the decoded candidate when there is one, and the previous markdown, untouched, when both candidates raise |
| `StreamDecoder.StreamHandler.constructor` | main.py:19-23 | a new handler starts with the initial text (default empty), empty markdown and nothing displayed; the display method defaults to "markdown" |
| `StreamDecoder.StreamHandler.OnLlmNewToken` | main.py:25-40 | the text grows by exactly the token. With a display function, the markdown becomes the first candidate that decodes (`"]}` then `"}`) or stays, and is displayed once. Without one, `ValueError` is raised after the text grew, with markdown and display unchanged |
| `StreamDecoder.StreamHandler.OnLlmTokens` | main.py:25-40 | after one `on_llm_new_token` call per token, the buffer is the old text followed by all the tokens. With a display function the markdown is the one `Feed` gives, and the display has received exactly what it had before followed by `Displayed`: the markdown after each token, in order, the last being the current markdown. Without one, every call raised and markdown and display are unchanged |
| `StreamDecoder.Feed` | main.py:25-38 | reference function for a stream of tokens: the buffer is the initial text followed by exactly the tokens received |
| `StreamDecoder.Displayed` | main.py:38 | reference function for what the display function receives: one entry per token |
| `StreamDecoder.DisplayedFeed` | main.py:38 | the display after the j-th token is the markdown after the first j + 1 tokens |
| `StreamDecoder.FeedSnoc` | main.py:25-38 | handling one more token is one more step of `on_llm_new_token` after the others |
| `StreamDecoder.FeedMarkdown` | main.py:29-38 | after a stream of tokens, the markdown is the decoding of the last buffer, after one or more tokens, that decoded, or the initial markdown |
| `StreamDecoder.FeedFinal` | main.py:25-38 | if the final buffer decodes (a stream that stops inside a string), the handler ends with that buffer and its decoding, however the buffer was cut into tokens |
| `StreamDecoder.FeedUnchanged` | main.py:29-37 | if no candidate ever decodes, the markdown never changes |
| `Generation.PromptMaterias` | main.py:85 | an empty subject list raises `IndexError`; otherwise the result is the subjects joined with ", " (the one-subject branch agrees with the join) |
| `Generation.PromptInternet` | main.py:86 | "con" exactly when internet access is on, "sin" exactly when it is off |
| `Generation.PromptMateriasSingle` | main.py:85 | a single subject is passed on unchanged |
| `Generation.PromptMateriasContains` | main.py:85 | every selected subject appears verbatim in the prompt parameter |
| `Generation.PromptMateriasSnoc` | main.py:85 | selecting one more subject appends ", " and that subject |
| `Generation.ProjectTitle` | main.py:147 | `project_name` is the "# Proyecto: " heading followed by exactly the topic and a blank line |
| `Generation.ExportContent` | main.py:147-151 | the exported file is `# Proyecto: <tema>` and a blank line, then `ProjectDocument`: the six sections in their fixed order with their contents |
| `Generation.ExportStartsWithTitle` | main.py:147-151 | the exported file starts with the title line |

## Left out

- `render` (main.py:121-167) is left out: it is Streamlit UI, with widgets, sidebar, buttons, warnings and the download button. The empty-topic check at main.py:143 is part of it.
- The network and library work of `generar_proyecto` is left out (main.py:82-84, main.py:87-111). It fetches the PromptLayer prompt, makes the streaming `PromptLayerChatOpenAI` call, runs `promptlayer.track`, and builds and applies the `PydanticOutputParser`. These call hosted services and libraries whose code is not part of this model. So nothing about the text of the final prompt can be stated, for instance that it contains the grade and the topic.
- `json.loads` is the uninterpreted `StreamDecoder.Parser`. No JSON parser is written, because the source relies on the library's.
- Converting with Markdown2docx, `io.BytesIO`, and writing and deleting `proyecto.md` (main.py:150-167) are left out as file I/O and an external converter. Only the written content (`ExportContent`) is modelled.
- The API keys read from the environment (main.py:13-15) are configuration and are left out.
- The `getattr` lookup of the display function (main.py:27) is the boolean `hasDisplay` of the handler. The display call itself is recorded in `shown`.
- `generar_rubrica` (main.py:114-118) is left out: it returns a constant string and has no behaviour.
- Pydantic `Field` descriptions and `temperature` are left out as configuration only.
- JSON values other than strings and lists of strings are the single case `Value.Other`, which the formatter treats as raising. In Python, a nested object or a list of non-strings under a bullet key would be iterated and printed with `str()`. A number, boolean or null raises as modelled. The schema never produces those values, and the model does not capture how they would be printed.
- An exception raised by the display function itself, and the `container` object, are left out.
- `StreamDecoder.StreamHandler.OnLlmTokens` delivers every token, whether or not an earlier call raised. Whether the streaming chat call stops or goes on after a callback raises is decided by the callback library, which is not part of this model.

