# haverscript middleware, in Dafny

This project models the middleware layer of haverscript (`src/haverscript/middleware.py`). In haverscript, a chain of stages sits on top of a language-model backend, and each stage forwards `chat(prompt, **kwargs)` to the stage below it. The model covers two parts of that layer:

- **The echo stage's word-wrapper `EchoMiddleware._wrap`** (module `EchoWrap`, with the text vocabulary in module `Text`). It reads the reply as a stream of fragments and cuts each fragment with `re.split(r"(\n|\S+)", ...)`. It keeps three variables: `line_width`, the owed `spaces`, and the word being glued together across fragments (`prequel`). It yields the reply re-flowed for a terminal of a given width.
  - `Wrap` is the method with `_wrap`'s outer loop over the fragments.
  - `WrapFragment` is the inner loop over one fragment's pieces.
  - `Feed` handles one piece, and `FeedSpace` handles a whitespace piece.
  - `Flush` is the flush before a whitespace piece. `Finish` is the end of the stream, which flushes a pending word.
- **The delegating stages `ModelMiddleware`, `RetryMiddleware` and `ValidationMiddleware`** (module `Middleware`).
  - A chain is a `seq<Stage>` in the order the stages were added, so the last one is outermost.
  - The backend is a function of the request and of the number of calls that reached it before. This stands in for the counting test client.
  - `Chat` is `chat` through a chain. It returns the reply or the exception, together with the requests that reached the backend.
  - A validation predicate answers `True` or `False`, or raises. It is a function to `Result<bool>`, and its exception is `Raised(name)`.
  - `RetryChat` is `RetryMiddleware.chat`'s attempt loop, proved equal to `Chat`.
  - The retry policy is tenacity's `stop_after_attempt(n)`. tenacity checks the stop condition only after an attempt, so it always makes `max(n, 1)` attempts at most and at least one.

What the wrapper promises, as proved about `Wrap`:

- **Words.** The words of a text are its maximal runs of non-whitespace characters (`Words`). The output's words are exactly the input's words, in the same order. So a word split across fragments comes out whole, and no two words are run together.
- **Newlines.** The skeleton of the output (its non-whitespace characters and newlines) is the input's skeleton with newlines inserted. So every newline of the reply comes out, and the only other characters written are spaces and injected newlines.
- **Content.** The output has exactly the input's non-whitespace characters.
- **Line shape.** Every output line fits the width, or holds no whitespace at all, which makes it a single overlong word. No output line starts with a space. The only whitespace written is `" "` and `"\n"`.
- **Empty input.** An empty stream yields nothing.
- **When every input line already fits the width,** the output is the input with its whitespace normalised: each line's leading whitespace is dropped, and each other run of whitespace becomes that many spaces. The output may stop short of the trailing spaces at the very end.
- **What each flush writes** (`Flush`): a separator, then the glued word. The separator is a newline exactly when `line_width + spaces + len(prequel) > width`. Otherwise it is the owed spaces when the line is not empty, and nothing when it is (`Separator`).

**A model stage does not override a caller's `model`.** The code calls `self.next.chat(prompt, model=self.model, **kwargs)`, and Python raises `TypeError` when `kwargs` already holds `model`. The same happens to `streaming` under a retry. Such a call ends in `DuplicateKeyword(k)`, and no precondition excludes it. Two consequences are proved:

- Two stacked model stages always fail (`NestedModelFails`).
- A retry stacked directly on a retry never reaches the backend (`NestedRetryNeverCalls`).

## Model

| member | source | states |
|---|---|---|
| Text.Split | src/haverscript/middleware.py:111 | the definition of `re.split(r"(\n|\S+)", ...)` on one fragment: a gap, then a match (`"\n"` or a greedy run of non-whitespace), repeated, ending with a gap; its properties are stated by `Text.SplitConcat` and `Text.SplitShape` |
| Text.SplitConcat | src/haverscript/middleware.py:111 | the pieces the split on line 111 cuts a fragment into join back to the fragment |
| Text.SplitShape | src/haverscript/middleware.py:111 | the pieces alternate between gaps (whitespace without a newline, possibly empty) and matches; each match is `"\n"` or a word; two words are never adjacent, since `\S+` is greedy |
| Text.WordsAfterSpace | src/haverscript/middleware.py:111 | a run of `\S+` written after whitespace, or at the very start, adds exactly that run as one new word |
| Text.WordsBlank | src/haverscript/middleware.py:111 | whitespace appended to a text changes none of its words |
| Text.NewlinesAddedContent | src/haverscript/middleware.py:109-148 | inserting newlines into a text leaves its non-whitespace characters unchanged |
| Text.NormalizeCurrentLine | src/haverscript/middleware.py:122-128 | the normalised current line is no longer than the input's current line, and it is empty exactly when that line is blank, which is when `line_width` is 0 |
| Text.NormalizeGap | src/haverscript/middleware.py:122-124 | a whitespace run normalises to that many spaces, or to nothing at the start of a line |
| EchoWrap.Wrap | src/haverscript/middleware.py:102-150 | over the yielded stream, for every input stream and width: the output's words (maximal non-whitespace runs) are exactly the input's, in order; its skeleton is the input's with newlines added; the non-whitespace content is the input's; every line fits the width or has no whitespace; no line starts with a space; only `" "` and `"\n"` are written; an empty stream yields nothing; when every input line fits, the output is the normalised input, short of trailing spaces |
| EchoWrap.WrapFragment | src/haverscript/middleware.py:111-137 | the loop over one fragment's pieces reads the whole fragment. The written text keeps the words of the input flushed so far, with the pending word starting a new word, and stays in shape (skeleton, width, indentation, spacing). When every line of the reply fits the width, it equals the normalised input read so far |
| EchoWrap.Feed | src/haverscript/middleware.py:113-137 | an empty piece changes nothing; a word piece yields nothing and is glued onto `prequel`, leaving `line_width` and `spaces` as they were; a whitespace piece yields exactly the flush's separator and word, then `"\n"` for a newline piece, empties `prequel` and leaves `spaces` at 0 after a newline or at the piece's length after a gap; what was read grows by exactly the piece, and the written text keeps its words and its shape |
| EchoWrap.FeedSpace | src/haverscript/middleware.py:116-137 | a whitespace piece yields exactly the flush's separator and the pending word, followed by `"\n"` when the piece is the reply's own newline; `spaces` becomes 0 after a newline and the piece's length after a gap; the output ends in `"\n"` with `line_width` and `spaces` both 0 exactly when the piece is `"\n"`; what was read grows by the piece, and the written text keeps its words and its shape |
| EchoWrap.Separator | src/haverscript/middleware.py:117-124 | what a flush writes before the glued word: a line break exactly when `line_width + spaces + len(prequel) > width`; otherwise the owed spaces on a non-empty line, or nothing; without a break the line, the separator and the word stay within the width, and a word is never preceded by spaces at a line start. `EchoWrap.SeparatorSeparates` and `EchoWrap.FlushWords` state that it is whitespace that keeps the next word separate |
| EchoWrap.Flush | src/haverscript/middleware.py:117-129 | for every state, what is yielded is the separator and then the word: a newline exactly when `line_width + spaces + len(prequel) > width`, otherwise the owed spaces on a non-empty line, otherwise nothing; what is written keeps its shape; without a break it is the normalisation of the pending gap and word |
| EchoWrap.FlushWords | src/haverscript/middleware.py:117-129 | whatever separator a flush writes, the written text then has the words of the input read so far: the separator adds no word, and the glued word is one new word on both sides |
| EchoWrap.Finish | src/haverscript/middleware.py:139-148 | at the end of the stream a pending word is flushed (the separator, then the word) and a pending gap yields nothing; the written text then has the words of the whole input, its skeleton with newlines added and its line shape; when every line fits, it falls short of the normalised input by spaces only |
| EchoWrap.PendingFits | src/haverscript/middleware.py:117 | when every line of the whole input fits the width, the check on line 117 never fires before a break was injected |
| EchoWrap.WriteWord | src/haverscript/middleware.py:127-128 | writing the glued word at the start of a line, or where it fits, keeps every line within the width or a single word, with no indentation |
| EchoWrap.FlushUnbroken | src/haverscript/middleware.py:122-128 | without a break, what the flush writes (spaces only after a non-empty line, then the word) is exactly what normalisation makes of the pending gap and word |
| EchoWrap.ContentPreserved | src/haverscript/middleware.py:109-148 | output whose skeleton is the input's with newlines inserted has the input's non-whitespace characters, in order |
| Middleware.Chat | src/haverscript/middleware.py:27-62 | the definition of `chat` through a chain: a model stage forwards the call with `model=` added, or ends in `DuplicateKeyword("model")`; a retry stage runs `Attempts`; a validation stage checks the inner reply. Its properties are stated by the lemmas below |
| Middleware.Attempts | src/haverscript/middleware.py:41-48 | the definition of the retry loop: the first attempt that does not raise gives the result; after the last allowed attempt, `LLMResultError`; properties in `Middleware.RetryChat`, `Middleware.RetryFirstSuccess` and `Middleware.RetryNeverLeaksCause` |
| Middleware.Attempt | src/haverscript/middleware.py:45-46 | the definition of one attempt: the inner chain called with `streaming=False` added, or `DuplicateKeyword("streaming")` when the caller already passed it; properties in `Middleware.RetryUnstreamed` and `Middleware.NestedRetryNeverCalls` |
| Middleware.Rejection | src/haverscript/middleware.py:60-61 | the definition of the exception a failed validation raises: the predicate's own exception, or `LLMResultError` when it answers `False`; properties in `Middleware.ValidatesConjoin` and `Middleware.RetryInsideValidate` |
| Middleware.ChatFromBackend | src/haverscript/middleware.py:27-62 | no stage makes up a reply: whenever a chain returns a reply, it is the backend's answer to the last request that reached the backend |
| Middleware.RetryChat | src/haverscript/middleware.py:41-48 | the attempt loop returns the first reply that does not raise; it raises `LLMResultError` after the last allowed attempt; it is equal to `Chat` of the chain with a retry on top |
| Middleware.SentCarries | src/haverscript/middleware.py:27-28 | every request reaching the backend is exactly the caller's request with the keywords of the chain added (`Added`): the caller's prompt unchanged, the caller's keywords, `model=` of every model stage, `streaming=False` of every retry stage, and no other keyword |
| Middleware.ModelPinned | src/haverscript/middleware.py:27-28 | everything below a model stage is sent with that stage's `model` |
| Middleware.RetryUnstreamed | src/haverscript/middleware.py:45-46 | everything below a retry stage is sent with `streaming=False` |
| Middleware.NestedModelFails | src/haverscript/middleware.py:28 | for every request, two stacked model stages end in a duplicate `model` keyword, and nothing reaches the backend |
| Middleware.ValidatesConjoin | src/haverscript/middleware.py:57-62 | validate stages stacked on a chain make no calls of their own; the inner reply comes back unchanged exactly when every predicate answers `True`; otherwise the innermost predicate that does not decides the result: its own exception if it raised, `LLMResultError` if it answered `False`; an inner error passes through unchanged |
| Middleware.RetryNeverLeaksCause | src/haverscript/middleware.py:47-48 | when a retry fails, the caller sees `LLMResultError`, never the underlying error |
| Middleware.RetryFirstSuccess | src/haverscript/middleware.py:41-48 | over validate stages, a retry sends the request with `streaming=False` once per attempt, at most `max(n, 1)` times; it succeeds exactly when one of those attempts succeeds, with the first successful attempt's reply; otherwise it raises `LLMResultError` after making every attempt |
| Middleware.ValidateInsideRetry | tests/unit/test_unit_haverscript.py:514-518 | with the validation inside the retry, the call succeeds exactly when the predicate answers `True` for one of the first `max(n, 1)` backend replies; a predicate that raises counts as a failed attempt |
| Middleware.RetryInsideValidate | src/haverscript/middleware.py:41-62 | with the retry inside the validation, the validation sees only the retry's result; a predicate answering `False` raises `LLMResultError` at once, a raising predicate's exception comes through, and no further backend call is made. In terms of the backend's replies to the request with `streaming=False`: the call succeeds exactly when, among the first `max(n, 1)` replies, the first one that does not raise is one the predicate answers `True` for; when the very first reply does not raise but is rejected, the call fails with that rejection after that single backend call |
| Middleware.OrderMatters | tests/unit/test_unit_haverscript.py:520-526 | with a backend whose third reply is the wanted one: validate-then-retry succeeds after three calls, while retry-then-validate fails after one |
| Middleware.NestedRetryNeverCalls | src/haverscript/middleware.py:46 | a retry directly on a retry passes `streaming` twice, so the backend is never called and the result is `LLMResultError` |

## Left out

- `EchoMiddleware.chat` (src/haverscript/middleware.py:70-100) is left out. It prints the prompt and the wrapped tokens and runs a spinner thread until the first reply arrives. That is terminal I/O and concurrency; only the `_wrap` generator it prints from is modelled.
- `EchoMiddleware.list` (src/haverscript/middleware.py:152-153) always returns an empty list and is not modelled.
- `_wrap` yields lazily. The model returns the whole yielded sequence, so the interleaving with the consumer is not captured.
- Middleware.RetryChat: tenacity options other than `stop_after_attempt(n)` are not modelled. This covers waits, backoff, retry conditions, and the default policy, which never stops.
- Middleware.RetryFirstSuccess: stated only for retries over chains of validate stages, where each attempt makes exactly one backend call. Below a model stage or a nested retry, the general facts are `SentCarries`, `RetryNeverLeaksCause` and `NestedRetryNeverCalls`.
- EchoWrap.Wrap: the whole output is fixed as one exact text only when every input line fits the width (the normalisation property). Otherwise the whole-stream contract gives its words, skeleton and line shape, and the exact text is fixed step by step: each `Flush` yields `Separator(...)` and then the word.
- EchoWrap.WrapFragment: the fragment's output is fixed as one exact text only when every line of the whole reply fits the width. Otherwise the contract gives the words, skeleton and line shape of what is written, and the exact text is fixed step by step: each `Feed` yields the flush's `Separator(...)`, the word and the reply's own newline. This is the same reason as for `EchoWrap.Wrap`.
- A validation predicate's answer is modelled as a `bool`, which is its truthiness in `not self.predicate(...)`. An exception it raises is named only by its class (`Raised(name)`), unless it is one of the `LLM...Error` family.
- The reply object (`LanguageModelResponse`) is not part of this model. The validation sees a reply as the string `str(response)` yields, and a retry's inner reply as a finished string.
- The conversation cache, the backend services, the exception hierarchy's own modules and `src/haverscript/__init__.py` are not part of this model. The backend is a parameter, a function of the request and the call index.
- Metrics and timing counters that the backend reports are not modelled.
