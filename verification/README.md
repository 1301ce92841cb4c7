# Resume chatbot backend: chunker, chunk selector and `/ask` decision

This project models the core of a small HTTP backend that answers questions
about a resume. The resume text is loaded once, at start-up. It is cut into
consecutive 500-character chunks, purely by position. For each question,
the backend picks the chunk with the largest keyword overlap and sends it
as context to a remote question-answering service. It then turns that
service's outcome into an HTTP response.

The model has five modules:

- `Wrappers` (`wrappers.dfy`) holds `Option`. A JavaScript `undefined` value or a dropped JSON field is `None`.
- `Text` (`text.dfy`) is tokenisation as `s.toLowerCase().split(/\W+/)`.
  - Lower-casing is ASCII.
  - A word character is one of `[A-Za-z0-9_]`.
  - `Split` cuts at every maximal run of non-word characters. It is defined one character at a time.
  - It keeps the empty first or last token that a leading or trailing separator produces.
  - The empty string gives `[""]`.
- `Chunker` (`chunker.dfy`) is the start-up chunk loop.
  - `Chunks` is a recursive reference definition of the chunk list.
  - `BuildChunks` is the `for` loop itself.
  - `BuildChunks` is proved to return `Chunks`, and lemmas state what `Chunks` guarantees.
- `Selector` (`selector.dfy`) is `findBestChunk`.
  - `Common` is the `filter`/`includes` overlap.
  - `ArgMax` is a reference first-wins argmax.
  - `BestChunk` is the selection as a function.
  - `FindBestChunk` is the scan loop with `bestChunk`/`bestScore`. It is proved equal to `BestChunk`.
- `Ask` (`ask.dfy`) is the `/ask` handler as a pure decision.
  - `Plan` covers the part before the service call: reject the question, call the service with a question and context, or throw.
  - `Respond` covers the part after the call.
  - The call is represented only by its outcome, `Upstream`, which is either `Threw` or `Replied(error, answer)`.

The chunk list is module-level state of the backend. It is built once and
never changed. Here it is the value `BuildChunks` returns, and every
question takes it as a parameter.

Behaviour of `backend/server.js` that is easy to miss, and that the model keeps:

- With an empty resume there are no chunks. `resumeChunks[0]` is then `undefined`, and it is sent to the service and returned as the context. `BestChunk` returns `None` in that case.
- A truthy `error` field in the service's reply is sent as the 500 body as it is. The fixed text "Error fetching answer from Hugging Face API" is sent only when the call or the reading of its reply throws.
- A question word that occurs in only one chunk does not make that chunk win. Empty tokens also match, so a chunk that shares only an empty token with the question scores too. `Selector.EmptyTokensCount` shows a concrete case. `Selector.OnlyMatchWins` states the form that does hold: exactly one chunk with a non-zero score.

## Model

| member | source | states |
|---|---|---|
| `Text.Lower` | backend/server.js:24 | Lower-casing keeps the length. Upper-case ASCII letters move to their lower-case partner, and no other character changes. Whether a character is a word character is kept. |
| `Text.Split` | backend/server.js:24 | `split(/\W+/)` always returns at least one token. The lemmas below fix exactly what it returns. |
| `Text.Tokenize` | backend/server.js:24 | `toLowerCase().split(/\W+/)` always gives at least one token. Its tokens are described by `Text.TokenizeShape`. |
| `Text.SplitCount` | backend/server.js:24 | There is one more token than there are maximal separator runs, so each run makes exactly one cut. |
| `Text.SplitWordPrefix` | backend/server.js:24 | A word in front of a string is glued to that string's first token, and the other tokens stay the same. |
| `Text.SplitWord` | backend/server.js:24 | A string of word characters only is a single token. |
| `Text.SplitGap` | backend/server.js:24 | A leading separator run, followed by nothing or by a word character, gives one empty token in front of the tokens of the rest. |
| `Text.SplitWordGap` | backend/server.js:24 | A word, a whole separator run and the rest split into that word followed by the tokens of the rest. Together with `Text.SplitWord` and `Text.SplitGap`, this fixes where every cut falls. |
| `Text.SplitTokensAreWords` | backend/server.js:24 | Every token of `split(/\W+/)` consists only of word characters. |
| `Text.SplitTokensFromInput` | backend/server.js:24 | Every character of every token is a character of the input. |
| `Text.SplitKeepsWordChars` | backend/server.js:24 | Joining the tokens in order gives exactly the word characters of the input. Only the separators are lost. |
| `Text.SplitWordCons` | backend/server.js:24 | A word character in front of a string joins the first token of that string, and the other tokens stay the same. |
| `Text.SplitFirstToken` | backend/server.js:24 | The first token is empty exactly when the input is empty or starts with a separator. |
| `Text.SplitLastToken` | backend/server.js:24 | The last token is empty exactly when the input is empty or ends with a separator. |
| `Text.SplitAtSeparator` | backend/server.js:24 | An input that starts with a separator splits into at least two tokens. |
| `Text.SplitInnerTokens` | backend/server.js:24 | No token strictly between the first and the last is empty. |
| `Text.SplitShape` | backend/server.js:24 | `""` is a token exactly when the input is empty, starts with a separator or ends with one. |
| `Text.TokenizeShape` | backend/server.js:29 | Tokens of `toLowerCase().split(/\W+/)` are lower-case word characters. The empty token occurs exactly when the text is empty or starts or ends with a non-word character. |
| `Chunker.Chunks` | backend/server.js:18-20 | The reference chunk list is empty exactly for the empty text, and a text of at most 500 characters has at most one chunk. Its other properties are in the lemmas below. |
| `Chunker.BuildChunks` | backend/server.js:16-20 | The chunk loop returns the reference chunk list. The chunks join back to the text, and there are ceil(L/500) of them. |
| `Chunker.ChunksConcat` | backend/server.js:18-20 | Joining all chunks in order gives back the resume text exactly. |
| `Chunker.ChunksLengths` | backend/server.js:18-20 | Every chunk but the last is exactly 500 long. The last is 1 to 500 long, and no chunk is empty. |
| `Chunker.ChunksCount` | backend/server.js:18-20 | There are (L + 499) / 500 chunks for a text of length L, so the empty text has none. |
| `Chunker.ChunkPositions` | backend/server.js:18-19 | Chunk k starts inside the text and is the slice from 500·k to 500·(k+1), clamped to the text. Cuts are purely positional. |
| `Selector.Common` | backend/server.js:30 | The `filter`/`includes` overlap has no more entries than the question has tokens, and every entry is a token of the chunk. Its exact counts are in `Selector.CommonCounts`. |
| `Selector.ChunkScore` | backend/server.js:29-31 | A chunk's score, `commonWords.length`, is at most the number of question tokens. |
| `Selector.CommonCounts` | backend/server.js:30 | Each question token occurs in the overlap as often as in the question if the chunk's tokens contain it, and otherwise not at all. Duplicates in the question count again. |
| `Selector.CommonBounds` | backend/server.js:30-31 | The score is at most the number of question tokens. It is 0 exactly when no question token occurs in the chunk, and full exactly when every question token does. |
| `Selector.FirstMaxUnique` | backend/server.js:31-34 | At most one position holds a maximal score with every earlier score strictly lower. |
| `Selector.ArgMax` | backend/server.js:25-35 | The selected position has a score at least that of every chunk, and every earlier chunk scores strictly less. This is the strict `>` tie-break. |
| `Selector.BestChunk` | backend/server.js:23-37 | The result is undefined exactly when there are no chunks. Otherwise it is the chunk at the first position of maximal score. |
| `Selector.FindBestChunk` | backend/server.js:23-37 | The scan with `bestChunk`/`bestScore` returns the first chunk of maximal score, which is `BestChunk`. |
| `Selector.NoOverlapPicksFirst` | backend/server.js:25-26 | When every chunk scores 0, the first chunk is returned. |
| `Selector.OnlyMatchWins` | backend/server.js:28-36 | When exactly one chunk has a non-zero score, that chunk is returned. |
| `Selector.TokensOfQuestion` | backend/server.js:24 | The question "java?" has the tokens "java" and "", including the empty trailing token. |
| `Selector.TokensOfChunks` | backend/server.js:29 | The chunk "x." has the tokens "x" and "", and the chunk "java" has the single token "java". |
| `Selector.CommonOfExample` | backend/server.js:30 | The tokens of "java?" overlap those of "x." in "" only, and those of "java" in "java" only. |
| `Selector.EmptyTokensCount` | backend/server.js:24-34 | For the question "java?", the chunk "x." scores 1 through the shared empty token, the same as the chunk "java". So the earlier "x." is selected. |
| `Ask.Plan` | backend/server.js:40-43 | A falsy question is rejected before selection. A truthy non-string crashes in `toLowerCase`. A non-empty string question leads to a call that carries that question and `findBestChunk`'s choice as context. |
| `Ask.Respond` | backend/server.js:41-59 | A rejection gives 400 "Please provide a question", and a crash sends nothing. After a call, the status is 500 exactly when the call threw or the reply's `error` is truthy. Otherwise the body is `{answer, context}` with status 200. |
| `Ask.HandleAsk` | backend/server.js:39-60 | A falsy question gives 400 with the error "Please provide a question". A truthy non-string gives no response from the handler. Otherwise a failed call gives 500 with the fixed message, and a truthy `error` gives 500 with that text. Any other reply gives 200 with `{answer, context}`, where `context` is the selected chunk. The status is always 200, 400 or 500, and each case holds exactly when its condition does. |
| `Ask.MissingQuestionSkipsCall` | backend/server.js:41 | A falsy question plans no call, selects no chunk, and gets 400 whatever the service would have done. |
| `Ask.CallCarriesBestChunk` | backend/server.js:43-48 | The service is sent the question itself, with the selected chunk as context. The context is present whenever there are chunks. |
| `Ask.ContextIsResumeSlice` | backend/server.js:43-56 | On a successful reply, the context returned is absent exactly for an empty resume. Otherwise it is one of the resume's positional slices, 1 to 500 long. |
| `Ask.ShortResumeIsWholeContext` | backend/server.js:43-56 | A resume of at most 500 characters is one chunk, so any non-empty question gets the whole resume back as context with the service's answer. |

## Left out

- Express, cors and dotenv set-up, `app.listen` and the port, and the `GET /` liveness route are left out. They are framework plumbing with no decision in them.
- Reading `resume.txt` is left out because it is file I/O. The resume text is a parameter. A missing file stops the process at start-up, which is not modelled.
- The `axios.post` call, its URL and the bearer header are left out because they are network I/O. Only the call's outcome is modelled, as `Upstream`. A reply whose `data` cannot be read throws inside the `try`, so it is folded into `Threw`.
- `console.error` logging is left out. It has no effect on the response.
- Text.Lower: ASCII lower-casing only. JavaScript's `toLowerCase` also maps non-ASCII letters, and a few of them become ASCII word characters, such as the Kelvin sign to `k`. For text with such characters, tokens can differ.
- Characters are Unicode scalar values. JavaScript measures and slices strings in UTF-16 code units. For text outside the Basic Multilingual Plane, the real chunks are shorter in characters and may split a surrogate pair.
- `Ask.Upstream` holds `error` and `answer` as strings. A non-string `error` or `answer` value in the service's JSON reply is not modelled.
- Ask.HandleAsk: `Unhandled` stands for a rejected handler promise. A truthy non-string question has no `toLowerCase`, so the handler throws before its `try`. What the client then sees depends on the framework version and is not modelled.
- Concurrent handling of requests by the runtime is left out. The chunk list is read-only after start-up, so requests do not interact.
