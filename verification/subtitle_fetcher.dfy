/** `getSubtitles(videoId, lang = "en")`: refuses to run without the
    platform API key, asks the player endpoint for the video's data, then,
    inside a `try`, picks a caption track, downloads its timed-text
    document and turns every cue into a `Subtitle`. Any failure inside the
    `try` yields `[]`; a failure of the player request propagates.

    The two network requests are oracle parameters: `requestPlayer(key,
    videoId)` settles with the parsed player response (or rejects, when the
    request or the JSON parse fails) and `fetchDocument(url)` settles with
    the body of the caption document. `he.decode` and `striptags` are the
    parameters `decode` and `stripTags`. */
module SubtitleFetcher {

  import opened Outcomes
  import CuePattern

  /** One cue of the caption document. `start` and `dur` hold the captured
      attribute text; `getSubtitles` converts them with `parseFloat`. */
  datatype Subtitle = Subtitle(start: string, dur: string, text: string)

  /** A caption track entry; both fields may be missing from the JSON. */
  datatype CaptionTrack = CaptionTrack(languageCode: Option<string>, baseUrl: Option<string>)

  /** The part of the player response the caption step reads:
      `captions?.playerCaptionsTracklistRenderer?.captionTracks`. A null
      or non-object response behaves like one without `captions`. */
  datatype PlayerData = PlayerData(captions: Option<Captions>)
  datatype Captions = Captions(playerCaptionsTracklistRenderer: Option<TracklistRenderer>)
  datatype TracklistRenderer = TracklistRenderer(captionTracks: Option<seq<CaptionTrack>>)

  /** Errors `getSubtitles` lets escape. */
  datatype FetchError =
    | MissingApiKey         // "YOUTUBE_API key is not set in env"
    | PlayerRequestFailed   // the player request or its JSON parse rejected

  /** Errors thrown inside the `try`, all turned into `[]` by its `catch`. */
  datatype CaptionFailure =
    | NoCaptionTracks       // "No caption tracks found"
    | NoCaptionUrl          // "No valid caption URL"
    | CaptionRequestFailed  // the document request or `text()` rejected

  /** The language used when the caller passes none. */
  const DefaultLang: string := "en"

  /** The value of the `lang` parameter once the default applies. */
  function EffectiveLang(lang: Option<string>): (l: string)
    ensures lang.None? ==> l == DefaultLang
    ensures lang.Some? ==> l == lang.value
  {
    if lang.Some? then lang.value else DefaultLang
  }

  /** The optional chain down to the caption track list. */
  function CaptionTracks(player: PlayerData): (r: Option<seq<CaptionTrack>>)
    ensures r.Some? <==>
      && player.captions.Some?
      && player.captions.value.playerCaptionsTracklistRenderer.Some?
      && player.captions.value.playerCaptionsTracklistRenderer.value.captionTracks.Some?
    ensures r.Some? ==>
      r == player.captions.value.playerCaptionsTracklistRenderer.value.captionTracks
  {
    match player.captions
    case None => None
    case Some(c) =>
      match c.playerCaptionsTracklistRenderer
      case None => None
      case Some(r) => r.captionTracks
  }

  // ---------------------------------------------------------------------
  // track selection

  predicate HasLanguage(track: CaptionTrack, lang: string)
  {
    track.languageCode == Some(lang)
  }

  /** `k` is the track `find(... languageCode === lang) || captionTracks[0]`
      yields: the first track in `lang` if there is one, else the first. */
  ghost predicate IsChosenTrack(tracks: seq<CaptionTrack>, lang: string, k: int)
  {
    && 0 <= k < |tracks|
    && if exists j :: 0 <= j < |tracks| && HasLanguage(tracks[j], lang) then
         HasLanguage(tracks[k], lang) && forall j :: 0 <= j < k ==> !HasLanguage(tracks[j], lang)
       else k == 0
  }

  /** `Array.prototype.find` for the language test, from index `from` on. */
  function FindLanguage(tracks: seq<CaptionTrack>, lang: string, from: nat): (r: Option<nat>)
    ensures r.Some? ==> from <= r.value < |tracks| && HasLanguage(tracks[r.value], lang)
    ensures r.Some? ==> forall j :: from <= j < r.value ==> !HasLanguage(tracks[j], lang)
    ensures r.None? ==> forall j :: from <= j < |tracks| ==> !HasLanguage(tracks[j], lang)
    decreases |tracks| - from
  {
    if from >= |tracks| then None
    else if HasLanguage(tracks[from], lang) then Some(from)
    else FindLanguage(tracks, lang, from + 1)
  }

  /** The index of the selected track; `None` when the list is empty
      (`captionTracks[0]` is then `undefined`). */
  function SelectTrack(tracks: seq<CaptionTrack>, lang: string): (r: Option<nat>)
    ensures r.None? <==> |tracks| == 0
    ensures r.Some? ==> IsChosenTrack(tracks, lang, r.value)
  {
    match FindLanguage(tracks, lang, 0)
    case Some(k) => Some(k)
    case None => if |tracks| == 0 then None else Some(0)
  }

  /** Only one index meets the selection rule. */
  lemma ChosenTrackUnique(tracks: seq<CaptionTrack>, lang: string, k: int, k': int)
    requires IsChosenTrack(tracks, lang, k) && IsChosenTrack(tracks, lang, k')
    ensures k == k'
  {
  }

  // ---------------------------------------------------------------------
  // cue parsing

  /** The `Subtitle` built from one match of the cue pattern. */
  function Record(doc: string, m: CuePattern.CueMatch, decode: string -> string,
                  stripTags: string -> string): (sub: Subtitle)
    requires CuePattern.InDoc(doc, m)
    ensures sub.start == CuePattern.StartText(doc, m) && sub.dur == CuePattern.DurText(doc, m)
    ensures sub.text == decode(stripTags(CuePattern.InnerText(doc, m)))
  {
    Subtitle(CuePattern.StartText(doc, m), CuePattern.DurText(doc, m),
             decode(stripTags(CuePattern.InnerText(doc, m))))
  }

  /** `subs` holds, in order, one record per match of the global scan of
      `doc`: start and duration from the match's attribute groups, text the
      decoded, tag-stripped inner group. */
  ghost predicate IsParseOf(doc: string, subs: seq<Subtitle>, decode: string -> string,
                            stripTags: string -> string)
  {
    exists ms :: CuePattern.IsScanFrom(doc, 0, ms) && RecordsOf(doc, ms, subs, decode, stripTags)
  }

  ghost predicate RecordsOf(doc: string, ms: seq<CuePattern.CueMatch>, subs: seq<Subtitle>,
                            decode: string -> string, stripTags: string -> string)
  {
    && |subs| == |ms|
    && forall i :: 0 <= i < |ms| ==>
         && CuePattern.InDoc(doc, ms[i])
         && subs[i].start == CuePattern.StartText(doc, ms[i])
         && subs[i].dur == CuePattern.DurText(doc, ms[i])
         && subs[i].text == decode(stripTags(CuePattern.InnerText(doc, ms[i])))
  }

  /** `matches.map(m => ({ start, dur, text }))` over the cue scan. */
  function ParseCaptions(doc: string, decode: string -> string, stripTags: string -> string)
    : (subs: seq<Subtitle>)
    ensures IsParseOf(doc, subs, decode, stripTags)
  {
    var ms := CuePattern.Scan(doc, 0);
    assert forall i :: 0 <= i < |ms| ==> CuePattern.InDoc(doc, ms[i]) by {
      forall i | 0 <= i < |ms| ensures CuePattern.InDoc(doc, ms[i]) {
        assert CuePattern.LazyMatch(doc, ms[i].at, ms[i].s, ms[i].y, ms[i].z);
      }
    }
    var subs := seq(|ms|, i requires 0 <= i < |ms| => Record(doc, ms[i], decode, stripTags));
    assert RecordsOf(doc, ms, subs, decode, stripTags);
    subs
  }

  /** The parse is determined by the document: whatever meets `IsParseOf`
      is what `ParseCaptions` returns. */
  lemma ParseUnique(doc: string, subs: seq<Subtitle>, decode: string -> string,
                    stripTags: string -> string)
    requires IsParseOf(doc, subs, decode, stripTags)
    ensures subs == ParseCaptions(doc, decode, stripTags)
  {
    ParseDetermined(doc, subs, ParseCaptions(doc, decode, stripTags), decode, stripTags);
  }

  /** Two parses of the same document agree. */
  lemma ParseDetermined(doc: string, subs: seq<Subtitle>, subs': seq<Subtitle>,
                        decode: string -> string, stripTags: string -> string)
    requires IsParseOf(doc, subs, decode, stripTags) && IsParseOf(doc, subs', decode, stripTags)
    ensures subs == subs'
  {
    var ms :| CuePattern.IsScanFrom(doc, 0, ms) && RecordsOf(doc, ms, subs, decode, stripTags);
    var ms' :| CuePattern.IsScanFrom(doc, 0, ms') && RecordsOf(doc, ms', subs', decode, stripTags);
    CuePattern.ScanUnique(doc, 0, ms, ms');
    RecordsUnique(doc, ms, subs, subs', decode, stripTags);
  }

  /** The records of one sequence of matches are determined by it. */
  lemma RecordsUnique(doc: string, ms: seq<CuePattern.CueMatch>, subs: seq<Subtitle>,
                      subs': seq<Subtitle>, decode: string -> string, stripTags: string -> string)
    requires RecordsOf(doc, ms, subs, decode, stripTags)
    requires RecordsOf(doc, ms, subs', decode, stripTags)
    ensures subs == subs'
  {
    forall i | 0 <= i < |subs| ensures subs[i] == subs'[i] {
      assert subs[i].start == subs'[i].start && subs[i].dur == subs'[i].dur;
      assert subs[i].text == subs'[i].text;
    }
  }

  // ---------------------------------------------------------------------
  // the caption step and the whole function

  /** The body of the `try`: what it returns, or the error it throws. */
  function CaptionStep(player: PlayerData, lang: string, fetchDocument: string -> Reply<string>,
                       decode: string -> string, stripTags: string -> string)
    : (r: Result<seq<Subtitle>, CaptionFailure>)
    ensures r == Failure(NoCaptionTracks) <==>
      CaptionTracks(player).None? || |CaptionTracks(player).value| == 0
    ensures r == Failure(NoCaptionUrl) <==>
      && CaptionTracks(player).Some?
      && exists k :: IsChosenTrack(CaptionTracks(player).value, lang, k)
                     && !Truthy(CaptionTracks(player).value[k].baseUrl)
    ensures r.Success? || r == Failure(CaptionRequestFailed) ==>
      && CaptionTracks(player).Some?
      && exists k :: IsChosenTrack(CaptionTracks(player).value, lang, k)
           && Truthy(CaptionTracks(player).value[k].baseUrl)
           && match fetchDocument(CaptionTracks(player).value[k].baseUrl.value)
              case Rejected => r == Failure(CaptionRequestFailed)
              case Resolved(doc) => r.Success? && IsParseOf(doc, r.value, decode, stripTags)
  {
    match CaptionTracks(player)
    case None => Failure(NoCaptionTracks)
    case Some(tracks) =>
      if |tracks| == 0 then Failure(NoCaptionTracks)
      else
        var k := SelectTrack(tracks, lang).value;
        var track := tracks[k];
        assert forall k' :: IsChosenTrack(tracks, lang, k') ==> k' == k by {
          forall k' | IsChosenTrack(tracks, lang, k') ensures k' == k {
            ChosenTrackUnique(tracks, lang, k, k');
          }
        }
        if !Truthy(track.baseUrl) then Failure(NoCaptionUrl)
        else
          match fetchDocument(track.baseUrl.value)
          case Rejected => Failure(CaptionRequestFailed)
          case Resolved(doc) => Success(ParseCaptions(doc, decode, stripTags))
  }

  /** `getSubtitles(videoId, lang)`; `lang == None` is an omitted argument. */
  function GetSubtitles(apiKey: Option<string>, videoId: string, lang: Option<string>,
                        requestPlayer: (string, string) -> Reply<PlayerData>,
                        fetchDocument: string -> Reply<string>,
                        decode: string -> string, stripTags: string -> string)
    : (r: Result<seq<Subtitle>, FetchError>)
    ensures !Truthy(apiKey) ==> r == Failure(MissingApiKey)
    ensures Truthy(apiKey) ==>
      (r.Failure? <==> requestPlayer(apiKey.value, videoId).Rejected?)
    ensures r.Failure? ==> r.error == MissingApiKey || r.error == PlayerRequestFailed
    ensures Truthy(apiKey) && requestPlayer(apiKey.value, videoId).Resolved? ==>
      var step := CaptionStep(requestPlayer(apiKey.value, videoId).value, EffectiveLang(lang),
                              fetchDocument, decode, stripTags);
      && r.Success?
      && (step.Success? ==> r.value == step.value)
      && (step.Failure? ==> r.value == [])
  {
    if !Truthy(apiKey) then Failure(MissingApiKey)
    else
      match requestPlayer(apiKey.value, videoId)
      case Rejected => Failure(PlayerRequestFailed)
      case Resolved(player) =>
        var step := CaptionStep(player, EffectiveLang(lang), fetchDocument, decode, stripTags);
        Success(step.GetOr([]))
  }

  /** Omitting `lang` is the same as passing `"en"`, whatever the requests
      answer. */
  lemma OmittedLangIsEnglish(apiKey: Option<string>, videoId: string,
                             requestPlayer: (string, string) -> Reply<PlayerData>,
                             fetchDocument: string -> Reply<string>,
                             decode: string -> string, stripTags: string -> string)
    ensures GetSubtitles(apiKey, videoId, None, requestPlayer, fetchDocument, decode, stripTags)
         == GetSubtitles(apiKey, videoId, Some("en"), requestPlayer, fetchDocument, decode, stripTags)
  {
  }

  /** Called without a language, `getSubtitles` reads the document of the
      first English track. */
  lemma DefaultLangReadsFirstEnglishTrack(apiKey: Option<string>, videoId: string,
                                          requestPlayer: (string, string) -> Reply<PlayerData>,
                                          fetchDocument: string -> Reply<string>,
                                          decode: string -> string, stripTags: string -> string,
                                          k: nat, doc: string)
    requires Truthy(apiKey) && requestPlayer(apiKey.value, videoId).Resolved?
    requires var tracks := CaptionTracks(requestPlayer(apiKey.value, videoId).value);
      && tracks.Some? && k < |tracks.value|
      && tracks.value[k].languageCode == Some("en")
      && (forall j :: 0 <= j < k ==> tracks.value[j].languageCode != Some("en"))
      && Truthy(tracks.value[k].baseUrl)
      && fetchDocument(tracks.value[k].baseUrl.value) == Resolved(doc)
    ensures GetSubtitles(apiKey, videoId, None, requestPlayer, fetchDocument, decode, stripTags)
         == Success(ParseCaptions(doc, decode, stripTags))
  {
    var player := requestPlayer(apiKey.value, videoId).value;
    var tracks := CaptionTracks(player).value;
    assert HasLanguage(tracks[k], DefaultLang);
    assert IsChosenTrack(tracks, DefaultLang, k);
    CaptionStepReadsChosen(player, DefaultLang, fetchDocument, decode, stripTags, k, doc);
  }

  /** When the chosen track has a URL whose request succeeds, the caption
      step returns the parse of that document. */
  lemma CaptionStepReadsChosen(player: PlayerData, lang: string, fetchDocument: string -> Reply<string>,
                               decode: string -> string, stripTags: string -> string,
                               k: nat, doc: string)
    requires CaptionTracks(player).Some?
    requires IsChosenTrack(CaptionTracks(player).value, lang, k)
    requires Truthy(CaptionTracks(player).value[k].baseUrl)
    requires fetchDocument(CaptionTracks(player).value[k].baseUrl.value) == Resolved(doc)
    ensures CaptionStep(player, lang, fetchDocument, decode, stripTags)
         == Success(ParseCaptions(doc, decode, stripTags))
  {
    var tracks := CaptionTracks(player).value;
    ChosenTrackUnique(tracks, lang, k, SelectTrack(tracks, lang).value);
  }

  /** Tracks `[es, en]` with `lang = "en"` select the English one; a lone
      French track is selected when English is asked for. */
  lemma SelectTrackExamples(esUrl: string, enUrl: string, frUrl: string)
    ensures SelectTrack([CaptionTrack(Some("es"), Some(esUrl)), CaptionTrack(Some("en"), Some(enUrl))], "en")
         == Some(1)
    ensures SelectTrack([CaptionTrack(Some("fr"), Some(frUrl))], "en") == Some(0)
  {
    var two := [CaptionTrack(Some("es"), Some(esUrl)), CaptionTrack(Some("en"), Some(enUrl))];
    assert HasLanguage(two[1], "en") && !HasLanguage(two[0], "en");
    ChosenTrackUnique(two, "en", 1, SelectTrack(two, "en").value);
    var one := [CaptionTrack(Some("fr"), Some(frUrl))];
    assert !HasLanguage(one[0], "en");
  }
}
