# Telegram-to-Lark message transcoder

This project models the core of the forwarder's message handler. The forwarder reads a
Telegram message body and its entities (text URL, bold, underline, ...). It builds a Lark
"post" document of the shape `{ "en_us": { "content": [[ segment, ... ]] } }` from them.
Each segment is either `{tag: "text", text}` or `{tag: "a", href, text}`.

Only text-URL entities split the message. For each entity the handler looks for the
entity's inner text (its *word*) in whatever is left of the message, using `str.find`.
It does not use the entity's own offset. At a text URL it emits the text before the
occurrence and then a link, and cuts the message to what follows the link. After the
last entity it emits the rest of the message as a final text segment. A message with no
entities becomes a single text segment.

Files:

- `pystr.dfy` (module `PyStr`): Python's `str.find` (first index, or -1) and Python's
  slicing with negative and out-of-range bounds.
- `forwardgram.dfy` (module `Forwardgram`): the entity, segment and document datatypes.
  The specification functions `Step`, `Run`, `Row` and `Post` describe the loop one
  entity at a time. The method `Format` is the handler body with its `for` loop, proved
  equal to `Post`. The method `Handle` is the loop over output channels.
- `properties.dfy` (module `PostProperties`): lemmas about the row that is built.

Choices made in the model:

- A `find` that returns -1 is modelled exactly: `offset = -1` and `end = len(word) - 1`
  are fed into Python's negative-slice rules. Content preservation is therefore proved
  only under `AllFound`, which says every link word is found when its turn comes.
  `MissingWordRepeatsText` shows an input where a missing word duplicates text.
- The words, i.e. the result of telethon's `utils.get_inner_text`, are an input with
  one word per entity (`|words| == |entities|`).
- A message with no entities (Python `None` or `[]`, both falsy) is the empty entity
  sequence.
- Strings are sequences of code points, as in Python 3.

## Model

| member | source | states |
|---|---|---|
| `PyStr.FindFrom` | forwardgram.py:110 | the search from index `i` returns the least index `>= i` where the word occurs, or -1 exactly when it occurs at no index `>= i` |
| `PyStr.Find` | forwardgram.py:110 | `msg.find(word)` is -1 exactly when the word occurs nowhere; otherwise it is an occurrence with no earlier occurrence |
| `PyStr.Bound` | forwardgram.py:118-120 | a slice bound is normalised as Python does: a negative bound counts from the end, and the result is clamped into `[0, len]` |
| `PyStr.Slice` | forwardgram.py:118-120 | `s[i:j]` is never longer than `s`; it is the ordinary subsequence for in-range bounds and empty when the end is at or before the start |
| `Forwardgram.Format` | forwardgram.py:99-126 | the document built is `Post(msg, entities, words)`: a single `en_us` object whose `content` has exactly one row; with no entities that row is `[Text(msg)]` |
| `Forwardgram.Handle` | forwardgram.py:97-100 | one document is sent per output channel, each rebuilt from the original message, so every channel receives the same document |
| `PostProperties.StepFound` | forwardgram.py:110-120 | for a link whose word is found: `0 <= offset <= end <= len(rest)`; the offset is the first occurrence; the text segment is the text before it; the link carries the entity's URL and the word as its text; the rest is the suffix after the word, and the three parts rebuild the old rest; any other entity kind changes nothing |
| `PostProperties.RunShape` | forwardgram.py:108-120 | the loop emits exactly two segments per text-URL entity, and they alternate text, link, text, link, ... |
| `PostProperties.RowShape` | forwardgram.py:103-126 | the row has `1 + 2 * (number of text-URL entities)` segments; tags alternate `text`, `a`, ..., `text`; the last segment is the text left after the last link |
| `PostProperties.NoLinksKeepsMessage` | forwardgram.py:114-126 | with no text-URL entity, bold, underline and other entities leave the message untouched, and the row is the whole message as one text segment |
| `PostProperties.RunHrefs` | forwardgram.py:114-120 | the hrefs of the loop's link segments are, in order, exactly the URLs of the text-URL entities |
| `PostProperties.RowHrefs` | forwardgram.py:117-126 | the same ordered href/URL equality for the whole row; the trailing text segment adds no link |
| `PostProperties.RunExtends` | forwardgram.py:108-120 | segments are only appended: the row after a prefix of the entities is a prefix of the row after all of them |
| `PostProperties.LinkAt` | forwardgram.py:108-120 | the text-URL entity at index `k`, when its word is found, owns segments `2j` and `2j+1` (`j` = links before it): the text before the first occurrence of its word in the text left at its turn, then the link to its URL whose text is the word |
| `PostProperties.StepPreserves` | forwardgram.py:110-120 | one turn of the loop keeps "emitted texts + remaining message" unchanged, provided a link's word is found |
| `PostProperties.RunPreserves` | forwardgram.py:108-120 | when every link word is found at its turn, the emitted texts followed by the remaining message are the original message |
| `PostProperties.ContentPreserved` | forwardgram.py:103-126 | when every link word is found at its turn, concatenating the `text` fields of the row gives back the original message exactly |
| `PostProperties.RepeatedWordBindsFirst` | forwardgram.py:109-110 | a word that occurs twice binds to its earliest occurrence in the remaining text: `"go go"` with a link on `"go"` gives `["", link "go", " go"]` |
| `PostProperties.MissingWordRepeatsText` | forwardgram.py:110-120 | when a link word is not found, `find` gives -1 and the negative slices make the row `["a", link "", "ab"]` for message `"ab"`, whose texts are `"aab"`, not the message |

## Left out

- Loading the configuration file with `yaml.safe_load` (forwardgram.py:27-28): file I/O.
- Building the Lark client and `sendMsg` (forwardgram.py:31-55): a network request through a
  foreign SDK, with response handling and logging. `Handle` returns the documents handed to
  `sendMsg` instead. The receiver id is hard-coded in `sendMsg`, so the channel value is unused.
- Starting the Telegram client, iterating dialogs and matching input channels
  (forwardgram.py:57-93): session I/O and configuration plumbing.
- Registering the handler with `@client.on`, the `async` wrapper and `run_until_disconnected`
  (forwardgram.py:95-96, 131): event-loop concurrency. Only the synchronous body is modelled.
- The console `print` calls in the handler (forwardgram.py:98): output only.
- `utils.get_inner_text` (forwardgram.py:106): a telethon call that handles UTF-16 offsets.
  Its result is taken as the `words` input.
- `json.dumps` (forwardgram.py:129): library serialisation. The document is the datatype
  `Document`.
- Aliasing of `content` into `formatted_msg` (forwardgram.py:100-101): the row is built in
  a local sequence and then wrapped into the document. Nothing else reads the dictionary
  while the row is being built, so this gives the same final document.
