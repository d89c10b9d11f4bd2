/** `extractVideoId`: pulls the video id out of a pasted link with two
    regular expressions tried in order, `[?&]v=([^&#]+)` and then
    `youtu\.be\/([^?&#]+)`, and yields `null` when neither matches. Each
    expression takes its leftmost match, and its greedy capture runs until
    a stop character or the end of the link. */
module VideoId {

  import opened Outcomes
  import Text

  /** The two patterns, in the order they are tried. */
  datatype Rule = QueryParam | ShortLink

  /** Length of the literal part before the capture group. */
  function PrefixLength(rule: Rule): nat
  {
    match rule
    case QueryParam => 3   // one of `?` `&`, then `v=`
    case ShortLink => 9    // `youtu.be/`
  }

  /** The characters the capture group `[^...]+` refuses. */
  predicate IsStop(rule: Rule, c: char)
  {
    match rule
    case QueryParam => c == '&' || c == '#'
    case ShortLink => c == '?' || c == '&' || c == '#'
  }

  /** The literal part of `rule` occurs at index `i`. */
  predicate PrefixAt(rule: Rule, url: string, i: int)
  {
    && 0 <= i
    && i + PrefixLength(rule) <= |url|
    && match rule
       case QueryParam => (url[i] == '?' || url[i] == '&') && url[i + 1] == 'v' && url[i + 2] == '='
       case ShortLink => url[i..i + 9] == "youtu.be/"
  }

  /** The whole pattern of `rule` matches at index `i`: the literal part,
      then at least one character the capture accepts. */
  predicate MatchesAt(rule: Rule, url: string, i: int)
  {
    && PrefixAt(rule, url, i)
    && i + PrefixLength(rule) < |url|
    && !IsStop(rule, url[i + PrefixLength(rule)])
  }

  /** The least index at or after `from` where `rule` matches. */
  function FirstMatch(rule: Rule, url: string, from: nat): (r: Option<nat>)
    ensures r.Some? ==> from <= r.value && MatchesAt(rule, url, r.value)
    ensures r.Some? ==> forall j :: from <= j < r.value ==> !MatchesAt(rule, url, j)
    ensures r.None? ==> forall j :: from <= j ==> !MatchesAt(rule, url, j)
    decreases |url| - from
  {
    if from >= |url| then None
    else if MatchesAt(rule, url, from) then Some(from)
    else FirstMatch(rule, url, from + 1)
  }

  /** Where the greedy capture that starts at `from` stops: the first stop
      character at or after `from`, or the end of the link. */
  function RunEnd(rule: Rule, url: string, from: nat): (e: nat)
    requires from <= |url|
    ensures from <= e <= |url|
    ensures forall k :: from <= k < e ==> !IsStop(rule, url[k])
    ensures e == |url| || IsStop(rule, url[e])
    decreases |url| - from
  {
    if from == |url| || IsStop(rule, url[from]) then from
    else RunEnd(rule, url, from + 1)
  }

  /** The text of capture group 1 for the match of `rule` at `i`. */
  function Capture(rule: Rule, url: string, i: nat): (id: string)
    requires MatchesAt(rule, url, i)
    ensures |id| > 0
    ensures forall k :: 0 <= k < |id| ==> !IsStop(rule, id[k])
    ensures IsSubstring(id, url)
  {
    var start := i + PrefixLength(rule);
    var e := RunEnd(rule, url, start);
    var id := url[start..e];
    assert Text.OccursAt(url, id, start);
    id
  }

  /** `id` is a contiguous part of `url`. */
  ghost predicate IsSubstring(id: string, url: string)
  {
    exists k :: Text.OccursAt(url, id, k)
  }

  ghost predicate Matches(rule: Rule, url: string)
  {
    exists i :: MatchesAt(rule, url, i)
  }

  /** `extractVideoId(url)`; `None` stands for `null`. */
  function ExtractVideoId(url: string): (r: Option<string>)
    ensures r.Some? <==> Matches(QueryParam, url) || Matches(ShortLink, url)
    ensures r.Some? ==> |r.value| > 0 && IsSubstring(r.value, url)
    ensures Matches(QueryParam, url) ==>
      r.Some? && forall k :: 0 <= k < |r.value| ==> r.value[k] != '&' && r.value[k] != '#'
    ensures !Matches(QueryParam, url) && r.Some? ==>
      forall k :: 0 <= k < |r.value| ==> r.value[k] != '?' && r.value[k] != '&' && r.value[k] != '#'
  {
    match FirstMatch(QueryParam, url, 0)
    case Some(i) => Some(Capture(QueryParam, url, i))
    case None =>
      match FirstMatch(ShortLink, url, 0)
      case Some(i) => Some(Capture(ShortLink, url, i))
      case None => None
  }

  // ---------------------------------------------------------------------
  // The regular-expression semantics, stated without reference to the
  // search above, and the proof that the search meets it.

  /** `i` is where `String.prototype.match` reports the match of `rule`:
      the pattern matches there and nowhere to the left. */
  ghost predicate LeftmostAt(rule: Rule, url: string, i: int)
  {
    MatchesAt(rule, url, i) && forall j :: 0 <= j < i ==> !MatchesAt(rule, url, j)
  }

  /** `id` is capture group 1 of the match of `rule`: it starts right after
      the literal part at the leftmost match and is the longest run of
      characters the capture accepts. */
  ghost predicate IsCaptureOf(rule: Rule, url: string, id: string)
  {
    exists i, e :: CaptureBetween(rule, url, id, i, e)
  }

  /** The promise of `extractVideoId`: the `v=` rule when it matches, else
      the short-link rule when it matches, else `null`. */
  ghost predicate IsExtraction(url: string, r: Option<string>)
  {
    if Matches(QueryParam, url) then r.Some? && IsCaptureOf(QueryParam, url, r.value)
    else if Matches(ShortLink, url) then r.Some? && IsCaptureOf(ShortLink, url, r.value)
    else r.None?
  }

  /** The body of `IsCaptureOf` for one choice of match index and end. */
  ghost predicate CaptureBetween(rule: Rule, url: string, id: string, i: int, e: int)
  {
    && LeftmostAt(rule, url, i)
    && i + PrefixLength(rule) <= e <= |url|
    && id == url[i + PrefixLength(rule)..e]
    && (forall k :: i + PrefixLength(rule) <= k < e ==> !IsStop(rule, url[k]))
    && (e == |url| || IsStop(rule, url[e]))
  }

  lemma CaptureIsCaptureOf(rule: Rule, url: string, i: nat)
    requires LeftmostAt(rule, url, i)
    ensures IsCaptureOf(rule, url, Capture(rule, url, i))
  {
    var e := RunEnd(rule, url, i + PrefixLength(rule));
    assert CaptureBetween(rule, url, Capture(rule, url, i), i, e);
  }

  /** `ExtractVideoId` meets the regular-expression semantics. */
  lemma ExtractVideoIdIsExtraction(url: string)
    ensures IsExtraction(url, ExtractVideoId(url))
  {
    match FirstMatch(QueryParam, url, 0)
    case Some(i) =>
      CaptureIsCaptureOf(QueryParam, url, i);
    case None =>
      match FirstMatch(ShortLink, url, 0)
      case Some(i) =>
        CaptureIsCaptureOf(ShortLink, url, i);
      case None =>
  }

  /** Two leftmost matches are the same match. */
  lemma LeftmostUnique(rule: Rule, url: string, i: int, i': int)
    requires LeftmostAt(rule, url, i) && LeftmostAt(rule, url, i')
    ensures i == i'
  {
  }

  /** Two maximal runs from the same start end at the same place. */
  lemma RunEndUnique(rule: Rule, url: string, start: int, e: int, e': int)
    requires 0 <= start <= e <= |url| && start <= e' <= |url|
    requires forall k :: start <= k < e ==> !IsStop(rule, url[k])
    requires e == |url| || IsStop(rule, url[e])
    requires forall k :: start <= k < e' ==> !IsStop(rule, url[k])
    requires e' == |url| || IsStop(rule, url[e'])
    ensures e == e'
  {
  }

  /** A pattern has at most one leftmost match and one capture. */
  lemma CaptureUnique(rule: Rule, url: string, a: string, b: string)
    requires IsCaptureOf(rule, url, a) && IsCaptureOf(rule, url, b)
    ensures a == b
  {
    var i, e :| CaptureBetween(rule, url, a, i, e);
    var i', e' :| CaptureBetween(rule, url, b, i', e');
    LeftmostUnique(rule, url, i, i');
    RunEndUnique(rule, url, i + PrefixLength(rule), e, e');
  }

  /** The semantics determines the result: whatever meets it is what
      `ExtractVideoId` returns. */
  lemma IsExtractionDeterminesResult(url: string, r: Option<string>)
    requires IsExtraction(url, r)
    ensures r == ExtractVideoId(url)
  {
    ExtractVideoIdIsExtraction(url);
    var x := ExtractVideoId(url);
    if Matches(QueryParam, url) {
      CaptureUnique(QueryParam, url, r.value, x.value);
    } else if Matches(ShortLink, url) {
      CaptureUnique(ShortLink, url, r.value, x.value);
    }
  }
}
