# StoryCrafter core, modelled in Dafny

StoryCrafter is an interactive storytelling web app. The user writes a line of a
story. A server action then asks generative models for the next sentences, a
picture prompt, a short video and a narration. It falls back to a placeholder
picture when the video cannot be had. The page appends the result to the story
it holds.

This project models the parts of that flow that make decisions:

- `Actions.ContinueStoryAction` (actions.dfy) is the server action
  `continueStoryAction`. It is a method with the source's mutable locals
  `videoUrl`, `imageUrl`, `imageHint` and `audioUrl`, assigned branch by branch.
  The prompt / video / placeholder step is the method `Actions.Illustrate`.
  Every model call is an oracle: a function from what is sent to a
  `Result` (its value, or the error it threw). The action also returns the
  list of model calls it made, in order.
- `VideoUtils` (video_utils.dfy) models `fetchWithRetry` as a recursive function
  over a script of attempt results. The result records every request made and
  every delay slept. `downloadVideo` is modelled as `DownloadVideo`, with the
  URL rewrite as `AuthorizedUrl` and real base 64 from `Base64` (base64.dfy,
  section 4 of RFC 4648, with a decoder proved to invert it).
- `StoryVideoGeneration.GenerateStoryVideo` (story_video_generation.dfy) is the
  video flow body. A `while` loop replaces the operation handle with each
  re-queried one until it is done. Then come the error check, the
  first-media-part search and the `data:video/mp4;base64,` wrapping.
- `Page` (page.dfy) models the state `Home` holds, as the class `StoryPage`.
  `HandleStoryContinue` is the form handler's transition on the story list. It
  keeps the invariant that ids are 1..n in order. The transcript join and the
  video / image / spinner choice are functions.
- `Text` (text.dfy) gives JavaScript's `trim`, `includes`, `join` and string
  truthiness (an empty string is falsy). `Outcomes` (outcomes.dfy) holds
  `Option` and `Result`.

Behaviour of the source worth noting:

- A done operation without a media part, or whose media has no URL, fails with
  "Failed to find the generated video".
- The poll loop re-queries the operation first and sleeps 5000 ms afterwards.
- The key test is a plain substring test for `key=` anywhere in the URL. The
  key is appended with `&` even when the URL has no query.
- `downloadVideo`, called on its own with a media part without a URL, fails with
  "Media part does not have a URL.". The video flow never reaches that check,
  because it fails such a part first with "Failed to find the generated video".

## Model

| member | source | states |
|---|---|---|
| Text.TrimStart | src/app/actions.ts:41 | the result is a suffix of the input, every dropped character is JavaScript whitespace, and the result does not start with whitespace |
| Text.TrimEnd | src/app/actions.ts:41 | the result is a prefix of the input, every dropped character is whitespace, and the result does not end with whitespace |
| Text.Trim | src/app/actions.ts:41 | `s.trim()` is empty exactly when every character of `s` is whitespace; otherwise it starts and ends with a non-whitespace character |
| Text.ContainsIff | src/lib/video-utils.ts:36 | the `includes` test holds exactly when the substring occurs at some index of the string |
| Text.JoinSnoc | src/app/page.tsx:47 | joining one more part appends the separator and that part to the previous join |
| Base64.Encode | src/lib/video-utils.ts:52 | the encoding of n bytes has 4 * ceil(n / 3) characters |
| Base64.DecodeEncode | src/lib/video-utils.ts:52 | decoding the base 64 encoding of any byte string gives back exactly those bytes |
| VideoUtils.FetchWithRetry | src/lib/video-utils.ts:3-26 | at most retries + 1 requests, all to the same URL; every attempt before the last threw or was not ok; it stops early only on an ok response; a final thrown error is re-thrown and a final response (ok or not) is returned as it is; the sleeps are the doubling backoff |
| VideoUtils.BackoffDoubles | src/lib/video-utils.ts:14-22 | the k-th sleep of the backoff lasts delay * 2^k |
| VideoUtils.DefaultBackoff | src/lib/video-utils.ts:6-7 | with the defaults at most four requests are made and the sleeps are a prefix of 1000, 2000, 4000 ms |
| VideoUtils.FailTwiceThenSucceed | src/lib/video-utils.ts:10-17 | two failures then an ok response: that response is returned after three requests and sleeps of 1000 and 2000 ms |
| VideoUtils.AuthorizedUrl | src/lib/video-utils.ts:33-40 | the URL changes exactly when it contains no `key=` and a non-empty key is configured, and then it becomes url + "&key=" + key |
| VideoUtils.AuthorizedUrlIdempotent | src/lib/video-utils.ts:35-40 | rewriting an already rewritten URL leaves it unchanged |
| VideoUtils.FetchFailedMessage | src/lib/video-utils.ts:46-48 | the error message starts with "Failed to fetch video: " and contains both the status text and the body text |
| VideoUtils.DownloadVideo | src/lib/video-utils.ts:28-53 | a missing or empty media URL fails with its message; a thrown fetch error propagates; it succeeds exactly when the final response is ok, and then the result is the canonical base 64 encoding of the response body, which decodes back to it; a non-ok response fails with a message containing the status text and the body text |
| StoryVideoGeneration.FirstMediaPart | src/ai/flows/story-video-generation.ts:72 | the index found is that of the first content part carrying media; none is found only when no part carries media |
| StoryVideoGeneration.VideoPrompt | src/ai/flows/story-video-generation.ts:50 | the prompt is the fixed whimsical-video prefix followed by the description, unchanged |
| StoryVideoGeneration.FoundMedia | src/ai/flows/story-video-generation.ts:72-73 | the media of the first content part that has media; none exactly when no part (or no output or message) has media |
| StoryVideoGeneration.GenerateStoryVideo | src/ai/flows/story-video-generation.ts:47-81 | no operation fails before any polling; the loop ends only on a done handle, every earlier handle was pending, and each re-query replaces the handle; an error fails with "failed to generate video: " + message even when media is present; no media part or no URL fails with "Failed to find the generated video"; otherwise the result is "data:video/mp4;base64," + the download, or the download's error; the prompt is the fixed prefix + the description; the poll trace alternates a re-query and a 5000 ms sleep, starting with the re-query, one pair per re-query |
| Actions.ContinueStoryAction | src/app/actions.ts:34-88 | a thrown continuation gives API_FAILURE, a blank one AI_EMPTY_RESPONSE, both without data; otherwise no error, the text is the continuation verbatim, exactly one of video and image is set and the hint always is; an unusable prompt gives hint "fantasy magical" with a placeholder image; a usable prompt is the hint, with the video if it succeeds and a placeholder image if not; audio is set exactly when speech succeeds and touches nothing else; only userInput is sent and storySoFar appears in no clause; the calls made are the continuation alone on either error, otherwise continuation, prompt extraction, the video only for a usable prompt, and speech last |
| Actions.Illustrate | src/app/actions.ts:50-73 | exactly one of video and image is set and the hint always is; without a usable prompt (extraction threw, or gave no or an empty prompt) the hint is "fantasy magical", the image a placeholder and no video is attempted; with one the hint is the prompt and the video is attempted once with it, giving its data URI or, if it threw, a placeholder image |
| Page.StorySoFar | src/app/page.tsx:47 | the transcript of no parts is empty, of one part is its text, and of more starts with the first text and a blank line |
| Page.WithId | src/app/page.tsx:67 | the new part carries the given id and exactly the fields the action returned |
| Page.StorySoFarAppend | src/app/page.tsx:47 | the transcript of a story with one more part is the old transcript, a blank line and the new part's text |
| Page.AppendKeepsIds | src/app/page.tsx:65-68 | appending a part numbered length + 1 keeps the ids 1..n |
| Page.MediaShown | src/app/page.tsx:97-123 | the video is shown exactly when videoUrl is set, the image exactly when videoUrl is not and imageUrl is, otherwise the spinner |
| Page.ActionPartShowsMedia | src/app/page.tsx:97-123 | a part shaped as the action returns it (one visual, non-empty URLs) never shows the spinner and shows a video exactly when it has one |
| Page.StoryPage.constructor | src/app/page.tsx:15-26 | the page starts with the one-part initial story (id 1) and an empty input, satisfying the id invariant |
| Page.StoryPage.Edit | src/app/page.tsx:171-174 | typing sets the input text and nothing else, and keeps the id invariant |
| Page.StoryPage.HandleStoryContinue | src/app/page.tsx:35-72 | blank input: no action call and nothing changes; otherwise the action gets the joined transcript and the input; an error (or no data) leaves parts and input unchanged; data is appended as one part with id = old length + 1 and the input is cleared; ids stay 1..n |

## Left out

- Model calls are oracles, not modelled: `continueStoryFlow` with its prompt template, the prompt extractor, `textToSpeech`, `ai.generate` and `ai.checkOperation`. So are `node-fetch`, `Response.text()` and `arrayBuffer()`. The UTF-8 decoding behind `text()` is not modelled: a response carries its text beside its bytes.
- An error thrown by `ai.generate` or `ai.checkOperation` inside the video flow is not modelled. In the source it propagates unchanged.
- `ContinueStoryAction` takes the video outcome as an oracle and is not wired to `GenerateStoryVideo`. That flow may not terminate, and the action sees only its value or its error.
- StoryVideoGeneration.GenerateStoryVideo: the source polls without bound. The model polls over a finite script of operation states and returns `StillPolling` when the script ends before the operation is done. Results are proved for runs that reach a done state.
- VideoUtils.FetchWithRetry: the attempt script must hold retries + 1 entries, one for each request the worst case makes. Request options are not modelled.
- Sleeping is not performed. Fetch and the video flow record the delays they would sleep.
- `Math.random()` in placeholder URLs is the parameter `random`. `process.env.GEMINI_API_KEY` is the parameter `apiKey`.
- The continuation is always a string. The `!storyContinuation` test for `undefined` is covered only as the empty string, which is blank.
- Zod/Genkit schema validation, `console` logging, toasts, `useTransition`, `isPending`, scrolling, and all JSX layout and styling are left out.
- Concurrent submissions are left out: the page is modelled one submission at a time.
- src/ai/flows/cartoon-image-generation.ts, src/ai/dev.ts and src/components/icons.tsx are not part of this model. The orchestrator does not call the first; the other two hold no logic.
- VideoUtils.DownloadVideo: for a non-ok response its contract states that the message contains the status text and the body text, not the exact wording. `FetchFailedMessage` gives the wording.
