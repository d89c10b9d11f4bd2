/** The `GET /api/subtitles?link=...` handler: validates the link, extracts
    the video id, fetches the subtitles, joins their text, asks the
    summarisation model for bullet points and returns the cleaned summary.
    Every outcome is a JSON response with a status code; anything thrown
    after the checks becomes a 500.

    The subtitle fetcher and the summarisation call are parameters:
    `fetchSubtitles(videoId)` is `getSubtitles(videoId)` (a `Failure` is a
    thrown error) and `summarise(prompt)` settles with the model's reply
    text or rejects. `he.decode` is the parameter `decode`. */
module SubtitlesRoute {

  import opened Outcomes
  import Text
  import VideoId
  import SubtitleFetcher

  // ---------------------------------------------------------------------
  // cleanMarkdown

  /** The characters `cleanMarkdown` deletes: `[*_#>\`]`. */
  predicate IsMarkdownMark(c: char)
  {
    c == '*' || c == '_' || c == '#' || c == '>' || c == '`'
  }

  predicate NoMarks(s: string)
  {
    forall k :: 0 <= k < |s| ==> !IsMarkdownMark(s[k])
  }

  /** `s.replace(/[*_#>\`]/g, "")`. */
  function RemoveMarks(s: string): (r: string)
    ensures NoMarks(r)
    ensures |r| <= |s|
    ensures forall c :: !IsMarkdownMark(c) ==> multiset(r)[c] == multiset(s)[c]
  {
    if |s| == 0 then []
    else
      assert s == [s[0]] + s[1..];
      if IsMarkdownMark(s[0]) then RemoveMarks(s[1..])
      else [s[0]] + RemoveMarks(s[1..])
  }

  /** A single mark is deleted; any other single character is kept. */
  lemma RemoveMarksOfChar(c: char)
    ensures IsMarkdownMark(c) ==> RemoveMarks([c]) == []
    ensures !IsMarkdownMark(c) ==> RemoveMarks([c]) == [c]
  {
    assert [c][1..] == [];
  }

  /** Deleting marks is the only map on strings that works piecewise,
      deletes a single mark and keeps a single other character. */
  lemma {:induction false} RemoveMarksDetermined(f: string -> string, s: string)
    requires forall c :: f([c]) == if IsMarkdownMark(c) then [] else [c]
    requires forall a, b :: f(a + b) == f(a) + f(b)
    ensures f(s) == RemoveMarks(s)
    decreases |s|
  {
    if |s| == 0 {
      var e: string := [];
      assert f(e + e) == f(e) + f(e);
      assert e + e == e;
    } else {
      assert s == [s[0]] + s[1..];
      assert f(s) == f([s[0]]) + f(s[1..]);
      RemoveMarksDetermined(f, s[1..]);
      RemoveMarksOfChar(s[0]);
    }
  }

  /** Deleting marks works piecewise: it commutes with concatenation. */
  lemma {:induction false} RemoveMarksAppend(a: string, b: string)
    ensures RemoveMarks(a + b) == RemoveMarks(a) + RemoveMarks(b)
    decreases |a|
  {
    if |a| == 0 {
      assert a + b == b;
    } else {
      assert (a + b)[0] == a[0];
      assert (a + b)[1..] == a[1..] + b;
      RemoveMarksAppend(a[1..], b);
    }
  }

  /** Deleting marks keeps every other character, in order: a string
      without marks is left as it is. */
  lemma {:induction false} RemoveMarksOfUnmarked(s: string)
    requires NoMarks(s)
    ensures RemoveMarks(s) == s
    decreases |s|
  {
    if |s| > 0 {
      RemoveMarksOfUnmarked(s[1..]);
      assert [s[0]] + s[1..] == s;
    }
  }

  /** `cleanMarkdown(text)`: delete the marks, then trim. */
  function CleanMarkdown(s: string): (r: string)
    ensures NoMarks(r)
    ensures Text.IsTrimmed(r)
    ensures exists i, j :: Text.TrimsTo(RemoveMarks(s), i, j) && r == RemoveMarks(s)[i..j]
  {
    Text.Trim(RemoveMarks(s))
  }

  /** Cleaning a cleaned text changes nothing. */
  lemma CleanMarkdownIdempotent(s: string)
    ensures CleanMarkdown(CleanMarkdown(s)) == CleanMarkdown(s)
  {
    var r := CleanMarkdown(s);
    RemoveMarksOfUnmarked(r);
    Text.TrimOfTrimmed(r);
  }

  // ---------------------------------------------------------------------
  // the text sent to the model

  /** `subtitles.map(s => he.decode(s.text.trim()))`. */
  function Pieces(subs: seq<SubtitleFetcher.Subtitle>, decode: string -> string): (ps: seq<string>)
    ensures |ps| == |subs|
    ensures forall i :: 0 <= i < |subs| ==> ps[i] == decode(Text.Trim(subs[i].text))
  {
    seq(|subs|, i requires 0 <= i < |subs| => decode(Text.Trim(subs[i].text)))
  }

  /** `pieces.join(" ").replace(/\s+/g, " ")`: the pieces' words in order,
      one space between words, no whitespace other than single spaces. */
  function SubtitleText(subs: seq<SubtitleFetcher.Subtitle>, decode: string -> string): (t: string)
    ensures Text.SingleSpaced(t)
    ensures Text.Words(t) == Text.FlattenWords(Pieces(subs, decode))
    ensures Text.Trim(t) == Text.Join(Text.FlattenWords(Pieces(subs, decode)), " ")
    ensures Text.CollapseKeepsEnds(Text.Join(Pieces(subs, decode), " "), t)
  {
    Text.JoinCollapsedEnds(Pieces(subs, decode));
    Text.JoinCollapsed(Pieces(subs, decode))
  }

  const PromptPrefix: string :=
    "Summarize the following subtitles into clear and concise English bullet points. \nSubtitles: "

  /** The prompt passed to `generateContent`. */
  function Prompt(text: string): (p: string)
    ensures |p| == |PromptPrefix| + |text|
    ensures p[..|PromptPrefix|] == PromptPrefix && p[|PromptPrefix|..] == text
  {
    PromptPrefix + text
  }

  // ---------------------------------------------------------------------
  // the handler

  const LinkRequired: string := "YouTube link is required"
  const InvalidLink: string := "Invalid YouTube link"
  const NoSubtitles: string := "No subtitles found"
  const ProcessingFailed: string := "Failed to fetch or process subtitles"

  datatype Body = ErrorBody(error: string) | SummaryBody(videoId: string, summary: string)

  /** A JSON response, or the failure to load the route module at all
      (it throws at import time when the model key is not configured). */
  datatype Response = Json(status: nat, body: Body) | RouteNotLoaded

  /** What `GET` answers for the query parameter `link` (`None` when absent). */
  function HandleGet(geminiKey: Option<string>, link: Option<string>,
                     fetchSubtitles: string -> Result<seq<SubtitleFetcher.Subtitle>, SubtitleFetcher.FetchError>,
                     summarise: string -> Reply<string>, decode: string -> string): (r: Response)
    ensures r.RouteNotLoaded? <==> !Truthy(geminiKey)
    ensures r.Json? ==> r.status in {200, 400, 404, 500}
    ensures r.Json? && r.status == 400 <==>
      Truthy(geminiKey) && (!Truthy(link) || VideoId.ExtractVideoId(link.value).None?)
    ensures Truthy(geminiKey) && !Truthy(link) ==> r == Json(400, ErrorBody(LinkRequired))
    ensures Truthy(geminiKey) && Truthy(link) && VideoId.ExtractVideoId(link.value).None? ==>
      r == Json(400, ErrorBody(InvalidLink))
    ensures r.Json? && r.status == 404 <==>
      && Truthy(geminiKey) && Truthy(link) && VideoId.ExtractVideoId(link.value).Some?
      && fetchSubtitles(VideoId.ExtractVideoId(link.value).value) == Success([])
    ensures r.Json? && r.status == 404 ==> r.body == ErrorBody(NoSubtitles)
    ensures r.Json? && r.status == 500 ==> r.body == ErrorBody(ProcessingFailed)
    ensures r.Json? && r.status == 500 <==>
      && Truthy(geminiKey) && Truthy(link) && VideoId.ExtractVideoId(link.value).Some?
      && var subs := fetchSubtitles(VideoId.ExtractVideoId(link.value).value);
         || subs.Failure?
         || (|subs.value| > 0 && summarise(Prompt(SubtitleText(subs.value, decode))).Rejected?)
    ensures r.Json? && r.status == 200 ==>
      && Truthy(link)
      && r.body.SummaryBody?
      && VideoId.ExtractVideoId(link.value) == Some(r.body.videoId)
      && var subs := fetchSubtitles(r.body.videoId);
         && subs.Success? && |subs.value| > 0
         && var reply := summarise(Prompt(SubtitleText(subs.value, decode)));
            reply.Resolved? && r.body == SummaryBody(r.body.videoId, CleanMarkdown(reply.value))
  {
    if !Truthy(geminiKey) then RouteNotLoaded
    else if !Truthy(link) then Json(400, ErrorBody(LinkRequired))
    else
      var videoId := VideoId.ExtractVideoId(link.value);
      if !Truthy(videoId) then Json(400, ErrorBody(InvalidLink))
      else
        match fetchSubtitles(videoId.value)
        case Failure(_) => Json(500, ErrorBody(ProcessingFailed))
        case Success(subtitles) =>
          if |subtitles| == 0 then Json(404, ErrorBody(NoSubtitles))
          else
            match summarise(Prompt(SubtitleText(subtitles, decode)))
            case Rejected => Json(500, ErrorBody(ProcessingFailed))
            case Resolved(reply) => Json(200, SummaryBody(videoId.value, CleanMarkdown(reply)))
  }

  /** A successful response carries a non-empty id taken from the link and
      a summary with no markdown marks and no whitespace at either end. */
  lemma SuccessShape(geminiKey: Option<string>, link: Option<string>,
                     fetchSubtitles: string -> Result<seq<SubtitleFetcher.Subtitle>, SubtitleFetcher.FetchError>,
                     summarise: string -> Reply<string>, decode: string -> string)
    requires HandleGet(geminiKey, link, fetchSubtitles, summarise, decode).Json?
    requires HandleGet(geminiKey, link, fetchSubtitles, summarise, decode).status == 200
    ensures var b := HandleGet(geminiKey, link, fetchSubtitles, summarise, decode).body;
      && b.SummaryBody?
      && |b.videoId| > 0 && VideoId.IsSubstring(b.videoId, link.value)
      && NoMarks(b.summary) && Text.IsTrimmed(b.summary)
  {
  }

  /** Without a link nothing downstream is consulted: the response is the
      same whatever the fetcher and the model would do. */
  lemma MissingLinkConsultsNothing(geminiKey: Option<string>, link: Option<string>,
    f1: string -> Result<seq<SubtitleFetcher.Subtitle>, SubtitleFetcher.FetchError>,
    f2: string -> Result<seq<SubtitleFetcher.Subtitle>, SubtitleFetcher.FetchError>,
    s1: string -> Reply<string>, s2: string -> Reply<string>,
    d1: string -> string, d2: string -> string)
    requires !Truthy(link)
    ensures HandleGet(geminiKey, link, f1, s1, d1) == HandleGet(geminiKey, link, f2, s2, d2)
  {
  }

  /** With a link that yields no id the fetcher is never consulted. */
  lemma InvalidLinkSkipsFetcher(geminiKey: Option<string>, link: Option<string>,
    f1: string -> Result<seq<SubtitleFetcher.Subtitle>, SubtitleFetcher.FetchError>,
    f2: string -> Result<seq<SubtitleFetcher.Subtitle>, SubtitleFetcher.FetchError>,
    s1: string -> Reply<string>, s2: string -> Reply<string>,
    d1: string -> string, d2: string -> string)
    requires Truthy(link) && VideoId.ExtractVideoId(link.value).None?
    ensures HandleGet(geminiKey, link, f1, s1, d1) == HandleGet(geminiKey, link, f2, s2, d2)
  {
  }

  /** When no subtitles come back the model is never consulted. */
  lemma NoSubtitlesSkipsModel(geminiKey: Option<string>, link: Option<string>,
    fetchSubtitles: string -> Result<seq<SubtitleFetcher.Subtitle>, SubtitleFetcher.FetchError>,
    s1: string -> Reply<string>, s2: string -> Reply<string>,
    d1: string -> string, d2: string -> string)
    requires Truthy(link) && VideoId.ExtractVideoId(link.value).Some?
    requires fetchSubtitles(VideoId.ExtractVideoId(link.value).value) == Success([])
    ensures HandleGet(geminiKey, link, fetchSubtitles, s1, d1)
         == HandleGet(geminiKey, link, fetchSubtitles, s2, d2)
  {
  }

  // ---------------------------------------------------------------------
  // the handler wired to the subtitle fetcher

  /** `getSubtitles(videoId)` as the route calls it: no language argument. */
  function RouteFetcher(youtubeKey: Option<string>,
                        requestPlayer: (string, string) -> Reply<SubtitleFetcher.PlayerData>,
                        fetchDocument: string -> Reply<string>,
                        decode: string -> string, stripTags: string -> string)
    : string -> Result<seq<SubtitleFetcher.Subtitle>, SubtitleFetcher.FetchError>
  {
    (videoId: string) =>
      SubtitleFetcher.GetSubtitles(youtubeKey, videoId, None, requestPlayer, fetchDocument, decode, stripTags)
  }

  /** Without the platform key every request with a usable link ends in a
      500: the fetcher throws before any request is made. */
  lemma MissingYoutubeKeyGives500(geminiKey: Option<string>, link: Option<string>,
                                  youtubeKey: Option<string>,
                                  requestPlayer: (string, string) -> Reply<SubtitleFetcher.PlayerData>,
                                  fetchDocument: string -> Reply<string>,
                                  decode: string -> string, stripTags: string -> string,
                                  summarise: string -> Reply<string>)
    requires Truthy(geminiKey) && Truthy(link) && VideoId.ExtractVideoId(link.value).Some?
    requires !Truthy(youtubeKey)
    ensures HandleGet(geminiKey, link, RouteFetcher(youtubeKey, requestPlayer, fetchDocument, decode, stripTags),
                      summarise, decode)
         == Json(500, ErrorBody(ProcessingFailed))
  {
  }

  /** A player response without caption tracks is "no subtitles" (404),
      not an error: the caption step's failure is absorbed into `[]`. */
  lemma NoCaptionTracksGives404(geminiKey: Option<string>, link: Option<string>,
                                youtubeKey: Option<string>,
                                requestPlayer: (string, string) -> Reply<SubtitleFetcher.PlayerData>,
                                fetchDocument: string -> Reply<string>,
                                decode: string -> string, stripTags: string -> string,
                                summarise: string -> Reply<string>)
    requires Truthy(geminiKey) && Truthy(link) && VideoId.ExtractVideoId(link.value).Some?
    requires Truthy(youtubeKey)
    requires var reply := requestPlayer(youtubeKey.value, VideoId.ExtractVideoId(link.value).value);
      reply.Resolved? && SubtitleFetcher.CaptionTracks(reply.value).None?
    ensures HandleGet(geminiKey, link, RouteFetcher(youtubeKey, requestPlayer, fetchDocument, decode, stripTags),
                      summarise, decode)
         == Json(404, ErrorBody(NoSubtitles))
  {
  }

  /** A failed player request is a 500, not "no subtitles": the platform
      being unreachable is told apart from a video without captions. */
  lemma PlayerFailureGives500(geminiKey: Option<string>, link: Option<string>,
                              youtubeKey: Option<string>,
                              requestPlayer: (string, string) -> Reply<SubtitleFetcher.PlayerData>,
                              fetchDocument: string -> Reply<string>,
                              decode: string -> string, stripTags: string -> string,
                              summarise: string -> Reply<string>)
    requires Truthy(geminiKey) && Truthy(link) && VideoId.ExtractVideoId(link.value).Some?
    requires Truthy(youtubeKey)
    requires requestPlayer(youtubeKey.value, VideoId.ExtractVideoId(link.value).value).Rejected?
    ensures HandleGet(geminiKey, link, RouteFetcher(youtubeKey, requestPlayer, fetchDocument, decode, stripTags),
                      summarise, decode)
         == Json(500, ErrorBody(ProcessingFailed))
  {
  }
}
