/** The cue scan of the caption document:
    `captionXml.matchAll(/<text start="(.*?)" dur="(.*?)">(.*?)<\/text>/g)`.

    A match is fixed by four positions in the document: where `<text start="`
    begins (`at`), where `" dur="` begins (`s`), where `">` begins (`y`) and
    where `</text>` begins (`z`). The groups are the text between them. As
    the expression has no `s` flag, `.` refuses line terminators, so the
    whole match lies on one line. The three lazy groups make the regular
    expression engine settle, at a given start, on the lexicographically
    least `(s, y, z)` that completes a match; the global flag resumes the
    search where the previous match ended. */
module CuePattern {

  import opened Outcomes
  import Text

  const Open: string := "<text start=\""
  const DurAttr: string := "\" dur=\""
  const TagEnd: string := "\">"
  const Close: string := "</text>"

  /** One match of the cue pattern, by its delimiter positions. */
  datatype CueMatch = CueMatch(at: nat, s: nat, y: nat, z: nat) {
    /** Index just past the closing `</text>`, where the next search resumes. */
    function End(): nat { z + |Close| }
  }

  /** The delimiters of `m` are in order and inside `doc`. */
  predicate InDoc(doc: string, m: CueMatch)
  {
    m.at + |Open| <= m.s && m.s + |DurAttr| <= m.y && m.y + |TagEnd| <= m.z && m.End() <= |doc|
  }

  /** Capture group 1, the `start` attribute text. */
  function StartText(doc: string, m: CueMatch): string
    requires InDoc(doc, m)
  {
    doc[m.at + |Open|..m.s]
  }

  /** Capture group 2, the `dur` attribute text. */
  function DurText(doc: string, m: CueMatch): string
    requires InDoc(doc, m)
  {
    doc[m.s + |DurAttr|..m.y]
  }

  /** Capture group 3, the raw cue text between the tags. */
  function InnerText(doc: string, m: CueMatch): string
    requires InDoc(doc, m)
  {
    doc[m.y + |TagEnd|..m.z]
  }

  /** No line terminator in `doc[a..b]`. */
  ghost predicate OneLine(doc: string, a: int, b: int)
    requires 0 <= a <= b <= |doc|
  {
    forall k :: a <= k < b ==> !Text.IsLineTerminator(doc[k])
  }

  /** The delimiters sit at `p`, `s`, `y`, `z` in order, and the pattern
      with groups `doc[p+13..s]`, `doc[s+7..y]`, `doc[y+2..z]` matches there. */
  ghost predicate CueShape(doc: string, p: int, s: int, y: int, z: int)
  {
    && Text.OccursAt(doc, Open, p)
    && p + |Open| <= s && Text.OccursAt(doc, DurAttr, s)
    && s + |DurAttr| <= y && Text.OccursAt(doc, TagEnd, y)
    && y + |TagEnd| <= z && Text.OccursAt(doc, Close, z)
    && OneLine(doc, p, z + |Close|)
  }

  /** The pattern can match at `p` at all. */
  ghost predicate HasCueAt(doc: string, p: int)
  {
    exists s, y, z :: CueShape(doc, p, s, y, z)
  }

  /** `(s, y, z)` is the completion the lazy groups settle on at `p`:
      the lexicographically least one. */
  ghost predicate LazyMatch(doc: string, p: int, s: int, y: int, z: int)
  {
    && CueShape(doc, p, s, y, z)
    && forall s', y', z' :: CueShape(doc, p, s', y', z') ==>
         s < s' || (s == s' && (y < y' || (y == y' && z <= z')))
  }

  /** The first line terminator at or after `p`, or the end of the document. */
  function LineEnd(doc: string, p: nat): (e: nat)
    requires p <= |doc|
    ensures p <= e <= |doc|
    ensures forall k :: p <= k < e ==> !Text.IsLineTerminator(doc[k])
    ensures e == |doc| || Text.IsLineTerminator(doc[e])
    decreases |doc| - p
  {
    if p == |doc| || Text.IsLineTerminator(doc[p]) then p else LineEnd(doc, p + 1)
  }

  /** A shape at `p` lies before the end of `p`'s line. */
  lemma ShapeWithinLine(doc: string, p: nat, s: int, y: int, z: int)
    requires p <= |doc| && CueShape(doc, p, s, y, z)
    ensures z + |Close| <= LineEnd(doc, p)
  {
  }

  /** The match the engine reports when it tries start `p`: each delimiter
      is the first one after the previous, all on `p`'s line. */
  function MatchAt(doc: string, p: nat): (r: Option<CueMatch>)
    requires p <= |doc|
    ensures r.Some? ==> r.value.at == p && LazyMatch(doc, p, r.value.s, r.value.y, r.value.z)
    ensures r.None? ==> !HasCueAt(doc, p)
  {
    if !Text.OccursAt(doc, Open, p) then None
    else
      var line := LineEnd(doc, p);
      if line < p + |Open| then
        NoShapeAt(doc, p);
        None
      else
        match Text.FindFrom(doc, DurAttr, p + |Open|, line)
        case None =>
          NoShapeAt(doc, p);
          None
        case Some(s) =>
          match Text.FindFrom(doc, TagEnd, s + |DurAttr|, line)
          case None =>
            NoShapeAt(doc, p);
            None
          case Some(y) =>
            match Text.FindFrom(doc, Close, y + |TagEnd|, line)
            case None =>
              NoShapeAt(doc, p);
              None
            case Some(z) =>
              FoundIsLazy(doc, p, s, y, z);
              Some(CueMatch(p, s, y, z))
  }

  /** When one of the delimiter searches of `MatchAt` fails, no completion
      exists at `p`. */
  lemma NoShapeAt(doc: string, p: nat)
    requires p <= |doc|
    requires MatchFails(doc, p)
    ensures !HasCueAt(doc, p)
  {
    if HasCueAt(doc, p) {
      var s', y', z' :| CueShape(doc, p, s', y', z');
      ShapeWithinLine(doc, p, s', y', z');
    }
  }

  /** The delimiter searches of `MatchAt`, one of which comes back empty. */
  ghost predicate MatchFails(doc: string, p: nat)
    requires p <= |doc|
  {
    var line := LineEnd(doc, p);
    || !Text.OccursAt(doc, Open, p)
    || line < p + |Open|
    || match Text.FindFrom(doc, DurAttr, p + |Open|, line)
       case None => true
       case Some(s) =>
         match Text.FindFrom(doc, TagEnd, s + |DurAttr|, line)
         case None => true
         case Some(y) => Text.FindFrom(doc, Close, y + |TagEnd|, line).None?
  }

  /** The first-occurrence delimiters are the lazy completion. */
  lemma FoundIsLazy(doc: string, p: nat, s: nat, y: nat, z: nat)
    requires p <= |doc| && Text.OccursAt(doc, Open, p)
    requires LineEnd(doc, p) >= p + |Open|
    requires Text.FindFrom(doc, DurAttr, p + |Open|, LineEnd(doc, p)) == Some(s)
    requires Text.FindFrom(doc, TagEnd, s + |DurAttr|, LineEnd(doc, p)) == Some(y)
    requires Text.FindFrom(doc, Close, y + |TagEnd|, LineEnd(doc, p)) == Some(z)
    ensures LazyMatch(doc, p, s, y, z)
  {
    forall s', y', z' | CueShape(doc, p, s', y', z')
      ensures s < s' || (s == s' && (y < y' || (y == y' && z <= z')))
    {
      ShapeWithinLine(doc, p, s', y', z');
    }
  }

  /** The pattern matches nowhere in `[a, b)`. */
  ghost predicate NoCueBetween(doc: string, a: int, b: int)
  {
    forall p :: a <= p < b ==> !HasCueAt(doc, p)
  }

  /** The pattern matches nowhere at or after `a`. */
  ghost predicate NoCueFrom(doc: string, a: int)
  {
    forall p :: a <= p ==> !HasCueAt(doc, p)
  }

  /** `ms` is what a global scan starting at `q` reports: every element is
      the lazy match at its start, they come in document order without
      overlapping, and the scan skipped no place where the pattern could
      have matched (before the first, between neighbours, after the last). */
  ghost predicate IsScanFrom(doc: string, q: nat, ms: seq<CueMatch>)
  {
    && (|ms| > 0 ==> q <= ms[0].at)
    && (forall i :: 0 <= i < |ms| ==> LazyMatch(doc, ms[i].at, ms[i].s, ms[i].y, ms[i].z))
    && (forall i :: 0 <= i < |ms| - 1 ==> ms[i].End() <= ms[i + 1].at)
    && (|ms| == 0 ==> NoCueFrom(doc, q))
    && (|ms| > 0 ==> NoCueBetween(doc, q, ms[0].at))
    && (forall i :: 0 <= i < |ms| - 1 ==> NoCueBetween(doc, ms[i].End(), ms[i + 1].at))
    && (|ms| > 0 ==> NoCueFrom(doc, ms[|ms| - 1].End()))
  }

  /** All matches `matchAll` reports when the search starts at `q`. */
  function Scan(doc: string, q: nat): (ms: seq<CueMatch>)
    requires q <= |doc|
    ensures IsScanFrom(doc, q, ms)
    decreases |doc| - q
  {
    if q == |doc| then
      []
    else
      match MatchAt(doc, q)
      case None =>
        var ms := Scan(doc, q + 1);
        ScanSkip(doc, q, ms);
        ms
      case Some(m) =>
        var rest := Scan(doc, m.End());
        ScanTake(doc, q, m, rest);
        [m] + rest
  }

  /** A start where the pattern cannot match may be skipped. */
  lemma ScanSkip(doc: string, q: nat, ms: seq<CueMatch>)
    requires !HasCueAt(doc, q) && IsScanFrom(doc, q + 1, ms)
    ensures IsScanFrom(doc, q, ms)
  {
  }

  /** A lazy match at the start is reported, and the scan resumes at its end. */
  lemma ScanTake(doc: string, q: nat, m: CueMatch, rest: seq<CueMatch>)
    requires m.at == q && LazyMatch(doc, q, m.s, m.y, m.z)
    requires IsScanFrom(doc, m.End(), rest)
    ensures IsScanFrom(doc, q, [m] + rest)
  {
    var ms := [m] + rest;
    assert forall i :: 0 < i < |ms| ==> ms[i] == rest[i - 1];
    if |rest| > 0 {
      assert NoCueBetween(doc, ms[0].End(), ms[1].at);
    }
  }

  /** The lazy completion at a start is unique. */
  lemma LazyUnique(doc: string, p: int, s: int, y: int, z: int, s': int, y': int, z': int)
    requires LazyMatch(doc, p, s, y, z) && LazyMatch(doc, p, s', y', z')
    ensures s == s' && y == y' && z == z'
  {
  }

  /** After the first reported match, the rest is a scan from its end. */
  lemma ScanTail(doc: string, q: nat, ms: seq<CueMatch>)
    requires IsScanFrom(doc, q, ms) && |ms| > 0
    ensures IsScanFrom(doc, ms[0].End(), ms[1..])
  {
    var rest := ms[1..];
    assert forall i :: 0 <= i < |rest| ==> rest[i] == ms[i + 1];
    if |rest| > 0 {
      assert NoCueBetween(doc, ms[0].End(), ms[1].at);
      assert rest[|rest| - 1] == ms[|ms| - 1];
    }
  }

  /** A scan is determined by the document and the starting index: every
      sequence meeting `IsScanFrom` is the one `Scan` computes. */
  lemma {:induction false} ScanUnique(doc: string, q: nat, ms: seq<CueMatch>, ms': seq<CueMatch>)
    requires IsScanFrom(doc, q, ms) && IsScanFrom(doc, q, ms')
    ensures ms == ms'
    decreases |ms|
  {
    ScanHeadUnique(doc, q, ms, ms');
    if |ms| > 0 {
      ScanTail(doc, q, ms);
      ScanTail(doc, q, ms');
      ScanUnique(doc, ms[0].End(), ms[1..], ms'[1..]);
      assert ms == [ms[0]] + ms[1..] && ms' == [ms'[0]] + ms'[1..];
    }
  }

  /** Two scans from the same place are both empty or start with the same
      match. */
  lemma ScanHeadUnique(doc: string, q: nat, ms: seq<CueMatch>, ms': seq<CueMatch>)
    requires IsScanFrom(doc, q, ms) && IsScanFrom(doc, q, ms')
    ensures |ms| == 0 <==> |ms'| == 0
    ensures |ms| > 0 ==> ms[0] == ms'[0]
  {
    if |ms| > 0 {
      var m := ms[0];
      assert CueShape(doc, m.at, m.s, m.y, m.z);
      assert HasCueAt(doc, m.at);
    }
    if |ms'| > 0 {
      var m := ms'[0];
      assert CueShape(doc, m.at, m.s, m.y, m.z);
      assert HasCueAt(doc, m.at);
    }
    if |ms| > 0 && |ms'| > 0 {
      var m, m' := ms[0], ms'[0];
      assert m.at == m'.at;
      LazyUnique(doc, m.at, m.s, m.y, m.z, m'.s, m'.y, m'.z);
    }
  }
}
