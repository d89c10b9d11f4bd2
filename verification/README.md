# Subtitle summariser core, modelled in Dafny

This project models the logic of a small web service that takes a pasted
video link, finds the video's captions and asks a language model to
summarise them. Three pieces hold all the logic, and each becomes a
Dafny module of pure functions over strings and datatypes:

- `VideoId` — `extractVideoId`: the id comes from the leftmost
  `[?&]v=([^&#]+)` match. When there is none, it comes from the leftmost
  `youtu\.be\/([^?&#]+)` match. Otherwise the result is `null`.
- `CuePattern` and `SubtitleFetcher` — `getSubtitles`:
  - the API-key guard;
  - the player request, whose failure propagates;
  - choosing a caption track: the first one in the requested language,
    else the first one;
  - downloading the track's timed-text document;
  - the global lazy scan
    `/<text start="(.*?)" dur="(.*?)">(.*?)<\/text>/g`, which makes one
    `Subtitle` per cue;
  - the `catch` that turns any failure after the player request into `[]`.
- `SubtitlesRoute` — the `GET` handler:
  - `cleanMarkdown`;
  - the subtitle text join with whitespace collapse;
  - the ordered decisions: 400 when the link is missing, 400 when the link
    is invalid, 404 when there are no subtitles, 500 when anything throws,
    and 200 with `{videoId, summary}` otherwise.

Two helper modules support them. `Text` holds the JavaScript string
primitives: the `\s` class, `trim`, line terminators, substring search,
`join`, and the `replace(/\s+/g, " ")` collapse. `Outcomes` holds
`Option`, `Result` and `Reply`.

Everything outside the program's own logic is a parameter:

- `requestPlayer(key, videoId)` is the player POST and its `json()` parse.
- `fetchDocument(url)` is the caption GET and its `text()`.
- `summarise(prompt)` is the `generateContent` call and `response.text()`.

Each of these settles as `Resolved(value)` or `Rejected`. `he.decode` and
`striptags` are the uninterpreted functions `decode` and `stripTags`. The
two environment keys are `Option<string>` inputs. JavaScript truthiness is
modelled exactly: an empty key, link or `baseUrl` counts as missing.

Most operations are paired with a second description of what they
compute, written as a predicate or a characterising lemma, and a lemma
connecting the two:

- `VideoId.IsExtraction` states the regular-expression meaning: the
  leftmost match and the longest run the capture group accepts.
- `CuePattern.IsScanFrom` describes a global scan. Each reported match is
  the lexicographically least completion of the lazy groups at its start.
  The matches are in order and do not overlap. No place where the pattern
  could match is skipped.
- `SubtitleFetcher.IsChosenTrack` states the track-selection rule.
- `Text.TrimsTo` states `trim`, and `Text.Words` gives the words kept by the
  whitespace collapse. `Text.CollapseShape` gives the collapsed text
  exactly: the words joined by single spaces, with at most one space at
  each end.
- `SubtitlesRoute.RemoveMarksDetermined` shows that deleting the marks is
  the only string map that works piecewise, deletes a single mark and
  keeps a single other character.

Uniqueness lemmas show that each predicate fixes the result.

## Model

| member | source | states |
|---|---|---|
| `VideoId.ExtractVideoId` | src/app/utils/extractVideoId.ts:2-16 | the result is non-null exactly when one of the two patterns matches; a result is non-empty and a contiguous part of the link; when the `v=` pattern matches it decides the result, which has no `&` or `#`; a short-link result has no `?`, `&` or `#`; no input makes it fail |
| `VideoId.FirstMatch` | src/app/utils/extractVideoId.ts:5-9 | a pattern search reports the leftmost index where the literal part and at least one accepted character occur, or that there is none |
| `VideoId.RunEnd` | src/app/utils/extractVideoId.ts:5-9 | the greedy capture ends at the first stop character or at the end of the link, and holds no stop character |
| `VideoId.Capture` | src/app/utils/extractVideoId.ts:5-10 | capture group 1 is non-empty, free of the pattern's stop characters, and a substring of the link |
| `VideoId.ExtractVideoIdIsExtraction` | src/app/utils/extractVideoId.ts:2-16 | the result is the `v=` capture at the leftmost `v=` match if there is one, else the short-link capture at its leftmost match, else null |
| `VideoId.IsExtractionDeterminesResult` | src/app/utils/extractVideoId.ts:2-16 | any value with that meaning equals the function's result |
| `VideoId.CaptureUnique` | src/app/utils/extractVideoId.ts:5-10 | a pattern has one leftmost match and one maximal capture |
| `CuePattern.MatchAt` | src/app/utils/subtitleFetcher.ts:70-72 | trying the cue pattern at one start yields the lazy match: the lexicographically least delimiter positions on that line; with no result, no match is possible there |
| `CuePattern.Scan` | src/app/utils/subtitleFetcher.ts:70-72 | `matchAll` reports the lazy matches in document order without overlap, and skips no place where the pattern could match |
| `CuePattern.ScanUnique` | src/app/utils/subtitleFetcher.ts:70-72 | only one sequence of matches fits that description |
| `SubtitleFetcher.FindLanguage` | src/app/utils/subtitleFetcher.ts:55-56 | `find` returns the first track whose `languageCode` equals `lang`, or nothing when no track has it |
| `SubtitleFetcher.SelectTrack` | src/app/utils/subtitleFetcher.ts:55-56 | the selected track is the first in the requested language, or the first track when none is; there is none only for an empty list |
| `SubtitleFetcher.ChosenTrackUnique` | src/app/utils/subtitleFetcher.ts:55-56 | the selection rule picks exactly one track |
| `SubtitleFetcher.SelectTrackExamples` | src/app/utils/subtitleFetcher.ts:55-56 | tracks `[es, en]` with `en` requested select `en`; a lone `fr` track is selected when `en` is requested |
| `SubtitleFetcher.OmittedLangIsEnglish` | src/app/utils/subtitleFetcher.ts:20 | calling `getSubtitles` without `lang` gives the same result as passing `"en"`, for every key, id and request outcome |
| `SubtitleFetcher.DefaultLangReadsFirstEnglishTrack` | src/app/utils/subtitleFetcher.ts:20-78 | called without a language, the function parses the document of the first English track |
| `SubtitleFetcher.CaptionTracks` | src/app/utils/subtitleFetcher.ts:47-48 | the optional chain `captions?.playerCaptionsTracklistRenderer?.captionTracks` yields a list exactly when every link is present, and then the innermost list |
| `SubtitleFetcher.Record` | src/app/utils/subtitleFetcher.ts:74-78 | the record built from one match: `start` and `dur` are the first and second groups, `text` is `decode(stripTags(third group))` |
| `SubtitleFetcher.ParseCaptions` | src/app/utils/subtitleFetcher.ts:70-78 | one record per reported cue match, in document order; start and duration are that match's attribute groups and text is `decode(stripTags(inner))` |
| `SubtitleFetcher.ParseUnique` | src/app/utils/subtitleFetcher.ts:70-78 | the records are determined by the document |
| `SubtitleFetcher.ParseDetermined` | src/app/utils/subtitleFetcher.ts:70-78 | two record lists that both meet the parse description of one document are equal |
| `SubtitleFetcher.CaptionStepReadsChosen` | src/app/utils/subtitleFetcher.ts:55-78 | when the selected track has a URL and its request succeeds, the step returns the parse of that document |
| `SubtitleFetcher.CaptionStep` | src/app/utils/subtitleFetcher.ts:46-78 | the step throws "no tracks" exactly when the track list is absent or empty, and "no URL" exactly when the selected track's `baseUrl` is missing or empty; otherwise it requests the selected track's URL and either fails with that request or returns the parse of the document |
| `SubtitleFetcher.GetSubtitles` | src/app/utils/subtitleFetcher.ts:20-83 | a missing key fails before any request, whatever the oracles would answer; with a key, the call fails exactly when the player request fails; otherwise it returns the caption step's records, or `[]` whenever the caption step throws |
| `SubtitlesRoute.RemoveMarks` | src/app/api/subtitles/route.ts:13 | the result holds none of `*`, `_`, `#`, `>`, backtick, and holds every other character as often as the input does |
| `SubtitlesRoute.RemoveMarksOfChar` | src/app/api/subtitles/route.ts:13 | a single mark becomes the empty string; a single other character is kept |
| `SubtitlesRoute.RemoveMarksDetermined` | src/app/api/subtitles/route.ts:13 | any string map that commutes with concatenation, deletes a single mark and keeps a single other character equals `RemoveMarks`, so `RemoveMarks` deletes each mark and keeps everything else in order |
| `SubtitlesRoute.RemoveMarksAppend` | src/app/api/subtitles/route.ts:13 | deleting marks from a concatenation is deleting them from each part and concatenating the results |
| `SubtitlesRoute.RemoveMarksOfUnmarked` | src/app/api/subtitles/route.ts:13 | a text without marks is unchanged |
| `SubtitlesRoute.CleanMarkdown` | src/app/api/subtitles/route.ts:12-14 | the result is the mark-free text `RemoveMarks(s)` cut at the two places that remove exactly its whitespace ends; it has no marks and no whitespace at either end |
| `SubtitlesRoute.CleanMarkdownIdempotent` | src/app/api/subtitles/route.ts:12-14 | cleaning twice is cleaning once |
| `SubtitlesRoute.Pieces` | src/app/api/subtitles/route.ts:42 | one piece per subtitle, in order; piece `i` is `decode` applied to the trimmed text of subtitle `i` |
| `SubtitlesRoute.SubtitleText` | src/app/api/subtitles/route.ts:41-44 | the text sent to the model has only single spaces as whitespace, never two in a row; its words are the words of the pieces in order; trimmed, it is those words joined by single spaces; it is empty, starts with whitespace and ends with whitespace exactly when the plain `join(" ")` of the pieces does |
| `SubtitlesRoute.Prompt` | src/app/api/subtitles/route.ts:46-48 | the prompt is the fixed instruction text (ending in a space, a line break and `Subtitles: `) followed by the subtitle text, unchanged |
| `SubtitlesRoute.HandleGet` | src/app/api/subtitles/route.ts:6-58 | without the model key the route does not load. Otherwise: status 400 "YouTube link is required" for a missing link; 400 "Invalid YouTube link" when no id is found; 404 "No subtitles found" exactly for an empty list; 500 "Failed to fetch or process subtitles" exactly when the fetcher or the model throws; 200 with the extracted id and the cleaned model reply otherwise |
| `SubtitlesRoute.SuccessShape` | src/app/api/subtitles/route.ts:51-52 | a 200 response carries a non-empty id found in the link, and a summary without marks or surrounding whitespace |
| `SubtitlesRoute.MissingLinkConsultsNothing` | src/app/api/subtitles/route.ts:19-25 | without a link the response does not depend on the fetcher, the model or the decoder |
| `SubtitlesRoute.InvalidLinkSkipsFetcher` | src/app/api/subtitles/route.ts:27-32 | for a link without an id the response does not depend on the fetcher |
| `SubtitlesRoute.NoSubtitlesSkipsModel` | src/app/api/subtitles/route.ts:34-39 | for an empty subtitle list the response does not depend on the model |
| `SubtitlesRoute.MissingYoutubeKeyGives500` | src/app/api/subtitles/route.ts:34-58 | with the real fetcher and no platform key, every valid link gives 500 |
| `SubtitlesRoute.NoCaptionTracksGives404` | src/app/api/subtitles/route.ts:34-39 | with the real fetcher, a player response without caption tracks gives 404, not an error |
| `SubtitlesRoute.PlayerFailureGives500` | src/app/api/subtitles/route.ts:53-58 | with the real fetcher, a rejected player request (a network failure or a body that is not JSON) gives 500, so an unreachable platform is told apart from missing captions |
| `Text.Trim` | src/app/api/subtitles/route.ts:13 | `trim` cuts off exactly the leading and trailing whitespace |
| `Text.TrimUnique` | src/app/api/subtitles/route.ts:13 | any cut that removes exactly the whitespace ends gives `Trim`'s result |
| `Text.TrimIdempotent` | src/app/api/subtitles/route.ts:13 | trimming twice is trimming once |
| `Text.Collapse` | src/app/api/subtitles/route.ts:44 | after the collapse, whitespace is only single spaces, never two adjacent; the result is empty exactly when the input is, and starts with whitespace exactly when the input does |
| `Text.CollapseKeepsLastSpace` | src/app/api/subtitles/route.ts:44 | the collapsed text ends with whitespace exactly when the input does |
| `Text.CollapseShape` | src/app/api/subtitles/route.ts:44 | the collapsed text is the input's words joined by single spaces, preceded by one space when the input starts with whitespace, and followed by one when it ends with whitespace after a word |
| `Text.TrimOfCollapse` | src/app/api/subtitles/route.ts:44 | trimming the collapsed text leaves exactly the words joined by single spaces |
| `Text.CollapseKeepsWords` | src/app/api/subtitles/route.ts:44 | the collapse keeps every word, in order |
| `Text.Join` | src/app/api/subtitles/route.ts:43 | the join of no parts is empty, the join of one part is that part, and a longer join starts with the first part |
| `Text.JoinEndsWithLast` | src/app/api/subtitles/route.ts:43 | the join of a non-empty list ends with the last part |
| `Text.JoinAppend` | src/app/api/subtitles/route.ts:43 | joining two non-empty lists gives the two joins with one separator between them |
| `Text.WordsOfJoin` | src/app/api/subtitles/route.ts:43 | joining with a space concatenates the parts' words |
| `Text.JoinCollapsed` | src/app/api/subtitles/route.ts:43-44 | joining with a space and collapsing whitespace gives a single-spaced text whose words are the parts' words in order and whose trim is those words joined by single spaces |
| `Text.JoinCollapsedEnds` | src/app/api/subtitles/route.ts:43-44 | the collapse keeps the emptiness and the leading and trailing whitespace of the plain join |
| `Text.WordsAppend` | src/app/api/subtitles/route.ts:43-44 | when two texts meet at whitespace or at an end, the words of the joined text are the words of the first followed by those of the second |

## Left out

- Network requests, their headers and bodies: the player POST body, the
  user agent and the referer. Each request is an oracle parameter that
  receives what selects its answer: the key and video id, or the caption
  URL.
- The player request does not check the HTTP status. Any JSON body,
  including an error page parsed as JSON, reaches the caption step. A null
  or non-object body has no `captions`, so it is modelled as
  `PlayerData(None)`. Both give `[]`.
- Caption track lists that are not arrays, and entries that are `null` or
  not objects, are not modelled: tracks are records with optional
  `languageCode` and `baseUrl`. What such input does depends on where the
  bad entry sits and what it is, so the model says nothing about it.
- Strings are sequences of Unicode code points, not of UTF-16 code units,
  so lone surrogates cannot be represented. None of the modelled operations
  depends on the difference.
- SubtitleFetcher.ParseCaptions: `start` and `dur` keep the captured
  attribute text rather than the floats that `parseFloat` produces, because
  floating point is not modelled.
- `he.decode` and `striptags` are foreign library calls. They are
  uninterpreted parameters, so the model says nothing about entity decoding
  or tag stripping themselves.
- The `Gemini` client setup, the model name and `console.log` /
  `console.error` calls are left out, because they decide nothing.
- Reading `link` out of the request URL (`new URL(req.url)`,
  `searchParams.get`) is left out. The handler receives the parameter as
  `Option<string>`.
- The module-level throw when the model key is missing is modelled as the
  response `RouteNotLoaded`. The framework's own error page is not modelled.
- `src/app/page.tsx` and `src/app/layout.tsx` are left out: they hold UI
  state, sharing links, metadata and fonts, and no extraction logic.
- `getSubtitles` has one caption path. It selects a track by exact
  `languageCode`, then falls back to the first track, and uses `baseUrl`
  unchanged. There is no transcript panel, visitor token, login-required
  retry or preference for auto-generated tracks, so the model has none.
