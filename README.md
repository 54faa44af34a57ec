# YouTube transcript notes: a verified model of the core

The application takes a YouTube link, extracts the video identifier, shows
the video's thumbnail, lists the transcript languages, fetches the transcript
in the chosen language and asks a generative model for detailed notes. It
retries the model call when the quota is exhausted. This project models the
deterministic part of that flow in Dafny and proves what it promises:

- `video_id.dfy` (module `VideoId`): the identifier extractor. The regular
  expression `(?:v=|\/)([0-9A-Za-z_-]{11}).*` is written out as a
  leftmost-first scan over start positions. The file also holds the
  thumbnail address built from an identifier.
- `transcript.dfy` (module `Transcript`): joining the segment texts with
  single spaces, the fetch result (`None` when the service raised), and what
  the truthiness guard (`Options.Truthy`) lets through to the summary.
- `languages.dfy` (module `Languages`): the default language (`en` when
  offered, else the first listed) and the selector's initial index.
- `summarizer.dfy` (module `Summarizer`): the retry loop of the summarisation
  client, as a method with a loop. The model's replies are injected, and
  pauses are recorded as events. Specification functions give the number of
  calls, the outcome and the event schedule, and lemmas state the policy.
- `notes.dfy` (module `Notes`): the "Get Notes" button handler, which ties
  the guard to the client.
- `options.dfy` (module `Options`): `Option`, `Result` and Python's truthiness of an optional string.

The pattern does not require the eleven characters to end there: a longer
run of identifier characters is cut to its first eleven, and
`ExtractVideoId` models that.

Two consequences of the code that the lemmas make explicit:

- A `/` followed by any eleven identifier characters wins over a later `v=`.
  The search is leftmost, so the start position decides (`SlashBeforeV`).
- Two or more empty segments join to a non-empty text of spaces. That text
  passes the guard, so the model is called (`GuardIff`).

## Model

| member | source | states |
|---|---|---|
| `VideoId.ExtractVideoId` | app.py:28-33 | Succeeds exactly when some position has `v=` or `/` followed by 11 characters of `[0-9A-Za-z_-]`. The result is then 11 such characters, the ones right after the marker of the leftmost match (a longer run is cut to 11). Otherwise the error is `InvalidUrl("Invalid YouTube URL")`. |
| `VideoId.SearchFrom` | app.py:29 | The `re.search` scan returns the first position at or after `i` where the pattern matches, with no match between. It returns `None` only when no position from `i` on matches. |
| `VideoId.ExtractsLeftmost` | app.py:29-31 | Whatever the leftmost match is, the extractor returns that match's group. |
| `VideoId.LeftmostUnique` | app.py:29 | At most one position is the leftmost match, so the group returned is determined. |
| `VideoId.ExtendKeepsId` | app.py:29 | Appending any text to a URL that already yields an identifier yields the same identifier. |
| `VideoId.WatchUrlId` | app.py:29 | `https://www.youtube.com/watch?v=<id><anything>` yields `<id>` for every valid identifier. |
| `VideoId.ShortUrlId` | app.py:29 | `https://youtu.be/<id><anything>` yields `<id>` for every valid identifier. |
| `VideoId.EmbedUrlId` | app.py:29 | `https://www.youtube.com/embed/<id><anything>` yields `<id>` for every valid identifier. |
| `VideoId.SlashBeforeV` | app.py:29 | `/<id>?v=<id2><anything>` yields `<id>`, not `<id2>`: a slash marker earlier in the URL wins over a later `v=` parameter. |
| `VideoId.WatchUrlExample` | app.py:28-31 | The watch address of `dQw4w9WgXcQ` followed by `&feature=share` yields `dQw4w9WgXcQ`. |
| `VideoId.ThumbnailExample` | app.py:82 | The thumbnail of `dQw4w9WgXcQ` is `http://img.youtube.com/vi/dQw4w9WgXcQ/0.jpg`. |
| `VideoId.ThumbnailRoundTrip` | app.py:81-82 | The thumbnail address `ThumbnailUrl(id)` (prefix `http://img.youtube.com/vi/`, the identifier, then `/0.jpg`) of a valid identifier, given to the extractor, yields that identifier again. |
| `Transcript.Join` | app.py:49 | A non-empty join is as long as all segment texts plus one separator between each pair. It starts with the first segment. |
| `Transcript.JoinAppend` | app.py:49 | Joining two non-empty lists equals the two joins with exactly one space between them (order kept). |
| `Transcript.JoinEmptyIff` | app.py:49 | The join is empty exactly for no segments or a single empty segment. |
| `Transcript.SplitJoin` | app.py:49 | Splitting the join on spaces gives back the segment list, in order, when no segment contains a space. |
| `Transcript.JoinExample` | app.py:49 | `["Hello", "world"]` joins to `"Hello world"`. |
| `Transcript.TranscriptText` | app.py:46-53 | The fetch yields a text exactly when the transcript service returned segments; a raised fetch yields `None`. |
| `Transcript.GuardIff` | app.py:98-100 | The guard `if transcript_text:` (`Options.Truthy`: neither `None` nor empty) passes exactly when the fetch succeeded with two or more segments, or with one non-empty segment. A failed fetch or an empty list never reaches summarisation. |
| `Languages.IndexOf` | app.py:90 | `list.index`: the position returned holds the element and no earlier position does. |
| `Languages.DefaultLanguage` | app.py:89 | The default is a listed language. It is `en` exactly when `en` is listed, and otherwise the first listed language. |
| `Languages.LanguageSelector` | app.py:87-93 | A selector is shown exactly when the listing succeeded with at least one language, and it offers exactly the listed codes. |
| `Languages.SelectorIndex` | app.py:89-90 | The selector's index is in bounds. It points at `en` when `en` is listed and is 0 otherwise, and it is the first position holding the default. |
| `Summarizer.CallsFrom` | app.py:61-71 | From a given attempt on: at least one call and no more than the attempts left. Every call but the last hits the quota, and a last call before the final attempt did not. |
| `Summarizer.CallsMade` | app.py:61-71 | One to three calls. All but the last hit the quota, and when fewer than three are made the last did not. |
| `Summarizer.GenerateContent` | app.py:56-71 | The loop's outcome is what the last call's reply settles. Its events are exactly the schedule of that many calls of `prompt + transcript_text` with a 60 s pause between consecutive calls. |
| `Summarizer.ScheduleShape` | app.py:61-68 | A schedule alternates call and 60 s pause, and every call carries the same request. It ends with a call, so there is no pause after the last attempt. |
| `Summarizer.ScheduleCounts` | app.py:65-68 | A schedule of `n` calls holds `n` calls and `n - 1` pauses. |
| `Summarizer.CallAndSleepBounds` | app.py:58-71 | At most three calls, pauses equal calls minus one, so at most two pauses. |
| `Summarizer.FirstSuccessReturned` | app.py:62-64 | The text `t` is returned exactly when some call answers `Success(t)` after nothing but quota failures. |
| `Summarizer.OtherFailsFast` | app.py:62-65 | After `k` quota failures, an `Other` reply is propagated with its own detail. That takes exactly `k + 1` calls and `k` pauses, with no pause and no call after it. |
| `Summarizer.QuotaExhausted` | app.py:65-71 | The quota error propagates exactly when all three calls hit the quota. It then comes after three calls and exactly two pauses. |
| `Summarizer.QuotaTwiceThenSuccess` | app.py:61-68 | Quota, quota, success: the text is returned after three calls and exactly two pauses. |
| `Notes.GetNotes` | app.py:95-108 | Without a chosen language (`if lang_choice:`, the same `Options.Truthy` test): no call. When the fetched transcript fails the guard: "no transcript" and no call. Otherwise the page shows the client's outcome, and the events are the client's schedule for `PROMPT` plus the joined transcript. |

## Left out

- The Streamlit page (title, text input, image, select box, button, spinner, success, warning and error messages) is presentation and is not modelled. `NotesPage` only says which outcome is shown.
- Loading `.env`, reading `GOOGLE_API_KEY`, stopping when it is missing, and `genai.configure`: process configuration, not modelled.
- The generative model call (`GenerativeModel("gemini-1.5-pro-002").generate_content`) is a network call. Its answers are the injected `replies`, one per possible attempt.
- `time.sleep(60)` does not pass time in the model. It is a `Sleep(60)` event in the trace.
- The transcript-listing and transcript-fetch calls are network calls. Their results are inputs: a language list or `None` when listing raised, and segment texts or `None` when fetching raised. Whether the fetched segments belong to the chosen language is up to that service.
- The language the user picks in the select box is an input to `Notes.GetNotes`. The model only fixes which entry is selected at first.
- Python's general regular-expression engine is not modelled, only this one fixed pattern.
