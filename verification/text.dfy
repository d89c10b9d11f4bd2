/** String primitives of the JavaScript runtime that the model relies on:
    the whitespace class (`\s`, `String.prototype.trim`), line terminators
    (what `.` in a regular expression refuses), substring search,
    `Array.prototype.join`, and the whitespace-run collapse performed by
    `replace(/\s+/g, " ")`. */
module Text {

  import opened Outcomes

  /** The WhiteSpace and LineTerminator code points of ECMAScript: exactly
      the characters matched by `\s` and removed by `trim`. */
  predicate IsSpace(c: char)
  {
    || c == '\t' || c == '\n' || c == '\U{000B}' || c == '\U{000C}' || c == '\r'
    || c == ' ' || c == '\U{00A0}' || c == '\U{1680}'
    || ('\U{2000}' <= c <= '\U{200A}')
    || c == '\U{2028}' || c == '\U{2029}' || c == '\U{202F}' || c == '\U{205F}'
    || c == '\U{3000}' || c == '\U{FEFF}'
  }

  /** The characters a regular-expression `.` does not match (no `s` flag). */
  predicate IsLineTerminator(c: char)
  {
    c == '\n' || c == '\r' || c == '\U{2028}' || c == '\U{2029}'
  }

  predicate AllSpace(s: string)
  {
    forall i :: 0 <= i < |s| ==> IsSpace(s[i])
  }

  predicate NoSpace(s: string)
  {
    forall i :: 0 <= i < |s| ==> !IsSpace(s[i])
  }

  /** Neither end of `s` is whitespace. */
  predicate IsTrimmed(s: string)
  {
    |s| == 0 || (!IsSpace(s[0]) && !IsSpace(s[|s| - 1]))
  }

  /** Cutting `s` at `i` and `j` removes exactly its whitespace ends:
      everything before `i` and from `j` on is whitespace, and the part
      kept neither starts nor ends with whitespace. */
  ghost predicate TrimsTo(s: string, i: int, j: int)
  {
    && 0 <= i <= j <= |s|
    && (forall m :: 0 <= m < i ==> IsSpace(s[m]))
    && (forall m :: j <= m < |s| ==> IsSpace(s[m]))
    && (i < j ==> !IsSpace(s[i]) && !IsSpace(s[j - 1]))
  }

  // ---------------------------------------------------------------------
  // trim

  /** The first index at or after `i` that holds no whitespace (or `|s|`). */
  function SkipSpaces(s: string, i: nat): (k: nat)
    requires i <= |s|
    ensures i <= k <= |s|
    ensures forall m :: i <= m < k ==> IsSpace(s[m])
    ensures k == |s| || !IsSpace(s[k])
    decreases |s| - i
  {
    if i < |s| && IsSpace(s[i]) then SkipSpaces(s, i + 1) else i
  }

  /** The least index `k` in `[lo, j]` such that `s[k..j]` is all whitespace. */
  function SkipSpacesBack(s: string, lo: nat, j: nat): (k: nat)
    requires lo <= j <= |s|
    ensures lo <= k <= j
    ensures forall m :: k <= m < j ==> IsSpace(s[m])
    ensures k == lo || !IsSpace(s[k - 1])
    decreases j - lo
  {
    if lo < j && IsSpace(s[j - 1]) then SkipSpacesBack(s, lo, j - 1) else j
  }

  /** `String.prototype.trim`: cuts the leading and the trailing whitespace. */
  function Trim(s: string): (r: string)
    ensures exists i, j :: TrimsTo(s, i, j) && r == s[i..j]
    ensures IsTrimmed(r)
  {
    var i := SkipSpaces(s, 0);
    var j := SkipSpacesBack(s, i, |s|);
    assert TrimsTo(s, i, j);
    s[i..j]
  }

  /** Any two ways of cutting off the whitespace ends keep the same part. */
  lemma TrimCutsAgree(s: string, i: int, j: int, i': int, j': int)
    requires TrimsTo(s, i, j) && TrimsTo(s, i', j')
    ensures s[i..j] == s[i'..j']
  {
    if i < j || i' < j' {
      assert i == i' && j == j';
    }
  }

  /** The trimmed part of a string is unique, and it is `Trim(s)`. */
  lemma TrimUnique(s: string, i: int, j: int)
    requires TrimsTo(s, i, j)
    ensures s[i..j] == Trim(s)
  {
    var i', j' :| TrimsTo(s, i', j') && Trim(s) == s[i'..j'];
    TrimCutsAgree(s, i, j, i', j');
  }

  /** A string whose ends are not whitespace is left alone by `trim`. */
  lemma TrimOfTrimmed(s: string)
    requires IsTrimmed(s)
    ensures Trim(s) == s
  {
    assert s[0..|s|] == s;
    TrimUnique(s, 0, |s|);
  }

  /** Trimming twice is trimming once. */
  lemma TrimIdempotent(s: string)
    ensures Trim(Trim(s)) == Trim(s)
  {
    TrimOfTrimmed(Trim(s));
  }

  // ---------------------------------------------------------------------
  // substring search

  /** `pat` occurs in `s` starting at index `k`. */
  predicate OccursAt(s: string, pat: string, k: int)
  {
    0 <= k && k + |pat| <= |s| && s[k..k + |pat|] == pat
  }

  /** The least index `k >= from` at which `pat` occurs entirely before
      `limit`, if there is one. */
  function FindFrom(s: string, pat: string, from: nat, limit: nat): (r: Option<nat>)
    requires limit <= |s|
    ensures r.Some? ==> from <= r.value && r.value + |pat| <= limit && OccursAt(s, pat, r.value)
    ensures r.Some? ==> forall k :: from <= k < r.value ==> !OccursAt(s, pat, k)
    ensures r.None? ==> forall k :: from <= k && k + |pat| <= limit ==> !OccursAt(s, pat, k)
    decreases limit - from
  {
    if from + |pat| > limit then None
    else if s[from..from + |pat|] == pat then Some(from)
    else FindFrom(s, pat, from + 1, limit)
  }

  // ---------------------------------------------------------------------
  // Array.prototype.join

  /** `parts.join(sep)`: the parts in order with `sep` between neighbours. */
  function Join(parts: seq<string>, sep: string): (r: string)
    ensures |parts| == 0 ==> r == []
    ensures |parts| == 1 ==> r == parts[0]
    ensures |parts| > 0 ==> parts[0] <= r
  {
    if |parts| == 0 then []
    else if |parts| == 1 then parts[0]
    else parts[0] + sep + Join(parts[1..], sep)
  }

  /** The joined text ends with the last part. */
  lemma {:induction false} JoinEndsWithLast(parts: seq<string>, sep: string)
    requires |parts| > 0
    ensures var r, last := Join(parts, sep), parts[|parts| - 1];
      |last| <= |r| && r[|r| - |last|..] == last
    decreases |parts|
  {
    if |parts| > 1 {
      var tail := Join(parts[1..], sep);
      JoinEndsWithLast(parts[1..], sep);
      assert parts[1..][|parts| - 2] == parts[|parts| - 1];
      var r := parts[0] + sep + tail;
      assert r[|r| - |tail|..] == tail;
    }
  }

  /** Joining a list with one more part in front. */
  lemma JoinCons(p: string, ps: seq<string>, sep: string)
    ensures Join([p] + ps, sep) == if |ps| == 0 then p else p + sep + Join(ps, sep)
  {
    assert ([p] + ps)[1..] == ps;
  }

  /** Joining two non-empty lists: the two joins with one separator
      between them. */
  lemma {:induction false} JoinAppend(a: seq<string>, b: seq<string>, sep: string)
    requires |a| > 0 && |b| > 0
    ensures Join(a + b, sep) == Join(a, sep) + sep + Join(b, sep)
    decreases |a|
  {
    if |a| == 1 {
      assert a + b == [a[0]] + b;
      JoinCons(a[0], b, sep);
    } else {
      var p, a' := a[0], a[1..];
      calc {
        Join(a + b, sep);
      ==  { assert a + b == [p] + (a' + b); }
        Join([p] + (a' + b), sep);
      ==  { JoinCons(p, a' + b, sep); }
        p + sep + Join(a' + b, sep);
      ==  { JoinAppend(a', b, sep); }
        p + sep + (Join(a', sep) + sep + Join(b, sep));
      ==
        (p + sep + Join(a', sep)) + sep + Join(b, sep);
      ==  { JoinCons(p, a', sep); assert [p] + a' == a; }
        Join(a, sep) + sep + Join(b, sep);
      }
    }
  }

  /** Words joined by single spaces neither start nor end with whitespace. */
  lemma JoinOfWordsTrimmed(ws: seq<string>)
    requires forall i :: 0 <= i < |ws| ==> |ws[i]| > 0 && NoSpace(ws[i])
    ensures IsTrimmed(Join(ws, " "))
  {
    if |ws| > 0 {
      var r := Join(ws, " ");
      var first, last := ws[0], ws[|ws| - 1];
      JoinEndsWithLast(ws, " ");
      assert r[0] == r[..|first|][0] == first[0];
      assert r[|r| - 1] == r[|r| - |last|..][|last| - 1] == last[|last| - 1];
    }
  }

  // ---------------------------------------------------------------------
  // words and whitespace collapse

  /** The longest prefix of `s` free of whitespace. */
  function TakeWord(s: string): (w: string)
    ensures |w| <= |s| && w == s[..|w|]
    ensures NoSpace(w)
    ensures |w| == |s| || IsSpace(s[|w|])
  {
    if |s| == 0 || IsSpace(s[0]) then []
    else [s[0]] + TakeWord(s[1..])
  }

  /** `s` without its leading whitespace. */
  function DropSpaces(s: string): (r: string)
    ensures |r| <= |s| && r == s[|s| - |r|..]
    ensures forall m :: 0 <= m < |s| - |r| ==> IsSpace(s[m])
    ensures |r| == 0 || !IsSpace(r[0])
  {
    s[SkipSpaces(s, 0)..]
  }

  /** The maximal whitespace-free runs of `s`, in order. */
  function Words(s: string): (ws: seq<string>)
    decreases |s|
  {
    if |s| == 0 then []
    else if IsSpace(s[0]) then Words(s[1..])
    else
      var w := TakeWord(s);
      [w] + Words(s[|w|..])
  }

  /** Every whitespace character is a plain space and no two are adjacent. */
  predicate SingleSpaced(r: string)
  {
    && (forall k :: 0 <= k < |r| && IsSpace(r[k]) ==> r[k] == ' ')
    && (forall k :: 0 <= k < |r| - 1 ==> !(IsSpace(r[k]) && IsSpace(r[k + 1])))
  }

  lemma SingleSpacedAppend(a: string, b: string)
    requires SingleSpaced(a) && SingleSpaced(b)
    requires |a| == 0 || |b| == 0 || !IsSpace(a[|a| - 1]) || !IsSpace(b[0])
    ensures SingleSpaced(a + b)
  {
    var r := a + b;
    forall k | 0 <= k < |r| - 1
      ensures !(IsSpace(r[k]) && IsSpace(r[k + 1]))
    {
      if k + 1 < |a| {
        assert r[k] == a[k] && r[k + 1] == a[k + 1];
      } else if k + 1 == |a| {
        assert r[k] == a[|a| - 1] && r[k + 1] == b[0];
      } else {
        assert r[k] == b[k - |a|] && r[k + 1] == b[k - |a| + 1];
      }
    }
  }

  /** `s.replace(/\s+/g, " ")`: every maximal whitespace run becomes one space. */
  function Collapse(s: string): (r: string)
    ensures SingleSpaced(r)
    ensures |r| == 0 <==> |s| == 0
    ensures |r| > 0 ==> (IsSpace(r[0]) <==> IsSpace(s[0]))
    decreases |s|
  {
    if |s| == 0 then []
    else if IsSpace(s[0]) then
      var c := Collapse(DropSpaces(s));
      SingleSpacedAppend([' '], c);
      [' '] + c
    else
      var w := TakeWord(s);
      var c := Collapse(s[|w|..]);
      assert SingleSpaced(w);
      SingleSpacedAppend(w, c);
      w + c
  }

  /** Dropping leading whitespace does not change the words. */
  lemma {:induction false} WordsDropSpaces(s: string)
    ensures Words(DropSpaces(s)) == Words(s)
    decreases |s|
  {
    if |s| > 0 && IsSpace(s[0]) {
      assert DropSpaces(s) == DropSpaces(s[1..]);
      WordsDropSpaces(s[1..]);
    }
  }

  /** A word running into whitespace (or the end) is cut exactly there. */
  lemma {:induction false} TakeWordAppend(a: string, b: string)
    requires NoSpace(a) && (|b| == 0 || IsSpace(b[0]))
    ensures TakeWord(a + b) == a
    decreases |a|
  {
    if |a| == 0 {
      assert a + b == b;
    } else {
      assert (a + b)[1..] == a[1..] + b;
      TakeWordAppend(a[1..], b);
      assert [a[0]] + a[1..] == a;
    }
  }

  /** The leading word of `a + b` is that of `a` unless `a` is one whole
      word glued to a word of `b`. */
  lemma {:induction false} TakeWordSplit(a: string, b: string)
    requires |a| > 0
    requires IsSpace(a[|a| - 1]) || |b| == 0 || IsSpace(b[0])
    ensures TakeWord(a + b) == TakeWord(a)
    decreases |a|
  {
    if !IsSpace(a[0]) {
      assert (a + b)[0] == a[0];
      assert (a + b)[1..] == a[1..] + b;
      if |a| == 1 {
        assert a[1..] + b == b;
      } else {
        TakeWordSplit(a[1..], b);
      }
    }
  }

  /** Words of a concatenation are the words of the parts, provided the
      seam falls on whitespace or at an end. */
  lemma {:induction false} WordsAppend(a: string, b: string)
    requires |a| == 0 || IsSpace(a[|a| - 1]) || |b| == 0 || IsSpace(b[0])
    ensures Words(a + b) == Words(a) + Words(b)
    decreases |a|
  {
    if |a| == 0 {
      assert a + b == b;
    } else if IsSpace(a[0]) {
      WordsAppendSpaceHead(a, b);
    } else {
      WordsAppendWordHead(a, b);
    }
  }

  lemma {:induction false} WordsAppendSpaceHead(a: string, b: string)
    requires |a| > 0 && IsSpace(a[0])
    requires IsSpace(a[|a| - 1]) || |b| == 0 || IsSpace(b[0])
    ensures Words(a + b) == Words(a) + Words(b)
    decreases |a|, 0
  {
    var ab := a + b;
    assert ab[0] == a[0];
    assert ab[1..] == a[1..] + b;
    assert Words(ab) == Words(a[1..] + b);
    WordsAppend(a[1..], b);
  }

  lemma {:induction false} WordsAppendWordHead(a: string, b: string)
    requires |a| > 0 && !IsSpace(a[0])
    requires IsSpace(a[|a| - 1]) || |b| == 0 || IsSpace(b[0])
    ensures Words(a + b) == Words(a) + Words(b)
    decreases |a|, 0
  {
    var w := TakeWord(a);
    var a' := a[|w|..];
    calc {
      Words(a + b);
    ==  { WordsOfWordHead(a, b); }
      [w] + Words(a' + b);
    ==  { WordTailSeam(a, b); WordsAppend(a', b); }
      [w] + (Words(a') + Words(b));
    ==
      ([w] + Words(a')) + Words(b);
    ==  { WordsOfWordHead(a, b); }
      Words(a) + Words(b);
    }
  }

  /** What follows the leading word of `a` is shorter than `a` and still
      meets `b` at whitespace or at an end. */
  lemma WordTailSeam(a: string, b: string)
    requires |a| > 0 && !IsSpace(a[0])
    requires IsSpace(a[|a| - 1]) || |b| == 0 || IsSpace(b[0])
    ensures 0 < |TakeWord(a)|
    ensures var a' := a[|TakeWord(a)|..];
      |a'| == 0 || IsSpace(a'[|a'| - 1]) || |b| == 0 || IsSpace(b[0])
  {
  }

  /** Unfolding `Words` once on both `a + b` and `a`, when `a` starts
      with a word that does not run into `b`. */
  lemma {:induction false} WordsOfWordHead(a: string, b: string)
    requires |a| > 0 && !IsSpace(a[0])
    requires IsSpace(a[|a| - 1]) || |b| == 0 || IsSpace(b[0])
    ensures Words(a + b) == [TakeWord(a)] + Words(a[|TakeWord(a)|..] + b)
    ensures Words(a) == [TakeWord(a)] + Words(a[|TakeWord(a)|..])
  {
    var w := TakeWord(a);
    TakeWordSplit(a, b);
    WordsOfWord(a);
    WordsOfWord(a + b);
    DropAppend(a, b, |w|);
  }

  /** `Words` on a text that starts with a word. */
  lemma WordsOfWord(s: string)
    requires |s| > 0 && !IsSpace(s[0])
    ensures Words(s) == [TakeWord(s)] + Words(s[|TakeWord(s)|..])
  {
  }

  lemma DropAppend(a: string, b: string, k: nat)
    requires k <= |a|
    ensures (a + b)[k..] == a[k..] + b
  {
  }

  /** Collapsing whitespace runs keeps every word, in order. */
  lemma {:induction false} CollapseKeepsWords(s: string)
    ensures Words(Collapse(s)) == Words(s)
    decreases |s|
  {
    if |s| == 0 {
    } else if IsSpace(s[0]) {
      var rest := DropSpaces(s);
      CollapseKeepsWords(rest);
      WordsDropSpaces(s);
      assert ([' '] + Collapse(rest))[1..] == Collapse(rest);
    } else {
      var w := TakeWord(s);
      var rest := s[|w|..];
      var c := Collapse(rest);
      CollapseKeepsWords(rest);
      WordsAppend(w, c);
      assert Words(w) == [w] + Words(w[|w|..]) by {
        TakeWordAppend(w, []);
        assert w + [] == w;
      }
      assert w[|w|..] == [];
    }
  }

  /** Every word is non-empty and holds no whitespace. */
  lemma {:induction false} WordsAreWords(s: string)
    ensures forall i :: 0 <= i < |Words(s)| ==> |Words(s)[i]| > 0 && NoSpace(Words(s)[i])
    decreases |s|
  {
    if |s| > 0 && IsSpace(s[0]) {
      WordsAreWords(s[1..]);
    } else if |s| > 0 {
      var w := TakeWord(s);
      WordsAreWords(s[|w|..]);
    }
  }

  /** A text without words is all whitespace. */
  lemma {:induction false} NoWordsAllSpace(s: string)
    requires |Words(s)| == 0
    ensures AllSpace(s)
    decreases |s|
  {
    if |s| > 0 {
      NoWordsAllSpace(s[1..]);
    }
  }

  /** The single space `replace(/\s+/g, " ")` leaves at the start of `s`. */
  function Lead(s: string): string
  {
    if |s| > 0 && IsSpace(s[0]) then " " else ""
  }

  /** The single space the collapse leaves at the end of `s`, unless the
      whole of `s` is whitespace (then `Lead` is the only one). */
  function Trail(s: string): string
  {
    if |s| > 0 && |Words(s)| > 0 && IsSpace(s[|s| - 1]) then " " else ""
  }

  /** The collapsed text is the words joined by single spaces, with one
      space in front when `s` starts with whitespace and one behind when it
      ends with whitespace after a word. */
  lemma {:induction false} CollapseShape(s: string)
    ensures Collapse(s) == Lead(s) + Join(Words(s), " ") + Trail(s)
    decreases |s|, 1
  {
    if |s| == 0 {
      assert Collapse(s) == [] == "" + [] + "";
    } else if IsSpace(s[0]) {
      CollapseShapeSpaceHead(s);
    } else {
      CollapseShapeWordHead(s);
    }
  }

  lemma {:induction false} CollapseShapeSpaceHead(s: string)
    requires |s| > 0 && IsSpace(s[0])
    ensures Collapse(s) == Lead(s) + Join(Words(s), " ") + Trail(s)
    decreases |s|, 0
  {
    var d := DropSpaces(s);
    var j := Join(Words(s), " ");
    CollapseShape(d);
    WordsDropSpaces(s);
    TrailOfSuffix(s, d);
    CollapseOfSpaceHead(s);
    assert Lead(d) == "";
    ShapeAfterSpace(Collapse(s), Collapse(d), Lead(d), Lead(s), j, Trail(s));
  }

  lemma {:induction false} CollapseShapeWordHead(s: string)
    requires |s| > 0 && !IsSpace(s[0])
    ensures Collapse(s) == Lead(s) + Join(Words(s), " ") + Trail(s)
    decreases |s|, 0
  {
    var w := TakeWord(s);
    var rest := s[|w|..];
    WordsOfWord(s);
    JoinCons(w, Words(rest), " ");
    CollapseOfWordHead(s);
    if |rest| == 0 {
      CollapseShapeWholeWord(s);
    } else {
      CollapseShape(rest);
      assert Lead(rest) == " ";
      if |Words(rest)| == 0 {
        NoWordsAllSpace(rest);
        CollapseShapeTrailingSpace(s);
      } else {
        TrailOfSuffix(s, rest);
        var jr := Join(Words(rest), " ");
        assert Join(Words(s), " ") == w + " " + jr;
        ShapeAfterWord(w, jr, Trail(s), Collapse(rest), Collapse(s), Join(Words(s), " "));
      }
    }
  }

  /** The concatenation step behind the word case of `CollapseShape`. */
  lemma ShapeAfterWord(w: string, jr: string, t: string, c: string, cs: string, j: string)
    requires c == " " + jr + t && cs == w + c && j == w + " " + jr
    ensures cs == "" + j + t
  {
  }

  /** `s` is one word and nothing else. */
  lemma CollapseShapeWholeWord(s: string)
    requires |s| > 0 && !IsSpace(s[0]) && |TakeWord(s)| == |s|
    ensures Collapse(s) == Lead(s) + Join(Words(s), " ") + Trail(s)
  {
    var w := TakeWord(s);
    assert w == s;
    WordsOfWord(s);
    assert s[|w|..] == [];
    assert Words(s) == [s];
    CollapseOfWordHead(s);
    assert Collapse(s) == s;
  }

  /** `s` is one word followed by whitespace. */
  lemma CollapseShapeTrailingSpace(s: string)
    requires |s| > 0 && !IsSpace(s[0])
    requires var rest := s[|TakeWord(s)|..]; |rest| > 0 && AllSpace(rest)
    ensures Collapse(s) == Lead(s) + Join(Words(s), " ") + Trail(s)
  {
    var w := TakeWord(s);
    var rest := s[|w|..];
    assert rest[|rest| - 1] == s[|s| - 1];
    WordsOfWord(s);
    NoWordsOfSpace(rest);
    assert Words(s) == [w];
    CollapseOfWordHead(s);
    CollapseOfSpaces(rest);
    JoinCons(w, [], " ");
    assert [w] + [] == [w];
    assert Lead(s) == "" && Trail(s) == " ";
    ShapeWordThenSpace(Collapse(s), w, Collapse(rest), Join(Words(s), " "), Lead(s), Trail(s));
  }

  /** The concatenation step behind `CollapseShapeTrailingSpace`. */
  lemma ShapeWordThenSpace(cs: string, w: string, c: string, j: string, l: string, t: string)
    requires cs == w + c && c == " " && j == w && l == "" && t == " "
    ensures cs == l + j + t
  {
  }

  /** The concatenation step behind the whitespace case of `CollapseShape`. */
  lemma ShapeAfterSpace(cs: string, cd: string, ld: string, ls: string, j: string, t: string)
    requires cs == " " + cd && cd == ld + j + t && ld == "" && ls == " "
    ensures cs == ls + j + t
  {
  }

  /** A whitespace-only text has no words. */
  lemma {:induction false} NoWordsOfSpace(s: string)
    requires AllSpace(s)
    ensures Words(s) == []
    decreases |s|
  {
    if |s| > 0 {
      NoWordsOfSpace(s[1..]);
    }
  }

  /** A non-empty whitespace-only text collapses to one space. */
  lemma CollapseOfSpaces(s: string)
    requires |s| > 0 && AllSpace(s)
    ensures Collapse(s) == " "
  {
    CollapseOfSpaceHead(s);
    assert |DropSpaces(s)| == 0;
  }

  /** `Collapse` on a text that starts with whitespace. */
  lemma CollapseOfSpaceHead(s: string)
    requires |s| > 0 && IsSpace(s[0])
    ensures Collapse(s) == " " + Collapse(DropSpaces(s))
  {
  }

  /** `Collapse` on a text that starts with a word. */
  lemma CollapseOfWordHead(s: string)
    requires |s| > 0 && !IsSpace(s[0])
    ensures Collapse(s) == TakeWord(s) + Collapse(s[|TakeWord(s)|..])
  {
  }

  /** A suffix with words exactly when `s` has them leaves the same
      trailing space. */
  lemma TrailOfSuffix(s: string, d: string)
    requires |d| <= |s| && d == s[|s| - |d|..]
    requires |Words(d)| > 0 <==> |Words(s)| > 0
    ensures Trail(d) == Trail(s)
  {
    if |Words(d)| > 0 {
      assert |d| > 0;
      assert d[|d| - 1] == s[|s| - 1];
    }
  }

  /** The collapsed text ends with whitespace exactly when `s` does. */
  lemma {:induction false} CollapseKeepsLastSpace(s: string)
    ensures |Collapse(s)| > 0 ==>
      (IsSpace(Collapse(s)[|Collapse(s)| - 1]) <==> IsSpace(s[|s| - 1]))
    decreases |s|
  {
    if |s| > 0 && IsSpace(s[0]) {
      var d := DropSpaces(s);
      var c := Collapse(d);
      CollapseOfSpaceHead(s);
      CollapseKeepsLastSpace(d);
      if |c| == 0 {
        assert IsSpace(s[|s| - 1]);
      } else {
        LastOfAppend(" ", c);
        assert d[|d| - 1] == s[|s| - 1];
      }
    } else if |s| > 0 {
      var w := TakeWord(s);
      var rest := s[|w|..];
      var c := Collapse(rest);
      CollapseOfWordHead(s);
      CollapseKeepsLastSpace(rest);
      if |c| == 0 {
        assert w == s;
        assert Collapse(s) == w + c == s;
      } else {
        LastOfAppend(w, c);
        assert rest[|rest| - 1] == s[|s| - 1];
      }
    }
  }

  lemma LastOfAppend(a: string, b: string)
    requires |b| > 0
    ensures (a + b)[|a + b| - 1] == b[|b| - 1]
  {
  }

  /** `parts.join(" ").replace(/\s+/g, " ")`. */
  function JoinCollapsed(parts: seq<string>): (t: string)
    ensures SingleSpaced(t)
    ensures Words(t) == FlattenWords(parts)
    ensures Trim(t) == Join(FlattenWords(parts), " ")
  {
    var joined := Join(parts, " ");
    var t := Collapse(joined);
    assert Words(t) == FlattenWords(parts) by {
      CollapseKeepsWords(joined);
      WordsOfJoin(parts);
    }
    assert Trim(t) == Join(FlattenWords(parts), " ") by {
      TrimOfCollapse(joined);
      WordsOfJoin(parts);
    }
    t
  }

  /** The joined-and-collapsed text keeps the ends of the plain join. */
  lemma JoinCollapsedEnds(parts: seq<string>)
    ensures CollapseKeepsEnds(Join(parts, " "), JoinCollapsed(parts))
  {
    CollapseEnds(Join(parts, " "));
  }

  /** `t` is empty exactly when `s` is, and starts and ends with whitespace
      exactly when `s` does. */
  predicate CollapseKeepsEnds(s: string, t: string)
  {
    && (|t| == 0 <==> |s| == 0)
    && (|t| > 0 ==> (IsSpace(t[0]) <==> IsSpace(s[0])))
    && (|t| > 0 ==> (IsSpace(t[|t| - 1]) <==> IsSpace(s[|s| - 1])))
  }

  /** The collapse keeps both ends of the text whitespace or not. */
  lemma CollapseEnds(s: string)
    ensures CollapseKeepsEnds(s, Collapse(s))
  {
    CollapseKeepsLastSpace(s);
  }

  /** Whitespace, then a trimmed text, then whitespace, trims to that text. */
  lemma TrimAround(a: string, m: string, b: string)
    requires AllSpace(a) && IsTrimmed(m) && AllSpace(b)
    ensures Trim(a + m + b) == m
  {
    var x := a + m + b;
    assert TrimsTo(x, |a|, |a| + |m|);
    assert x[|a|..|a| + |m|] == m;
    TrimUnique(x, |a|, |a| + |m|);
  }

  /** Trimming the collapsed text leaves exactly the words joined by single
      spaces. */
  lemma TrimOfCollapse(s: string)
    ensures Trim(Collapse(s)) == Join(Words(s), " ")
  {
    CollapseShape(s);
    WordsAreWords(s);
    JoinOfWordsTrimmed(Words(s));
    TrimAround(Lead(s), Join(Words(s), " "), Trail(s));
  }

  /** The words of each part, concatenated in order. */
  function FlattenWords(parts: seq<string>): seq<string>
  {
    if |parts| == 0 then [] else Words(parts[0]) + FlattenWords(parts[1..])
  }

  /** Joining with a single space concatenates the words of the parts. */
  lemma {:induction false} WordsOfJoin(parts: seq<string>)
    ensures Words(Join(parts, " ")) == FlattenWords(parts)
    decreases |parts|
  {
    if |parts| == 1 {
      assert FlattenWords(parts[1..]) == [];
    } else if |parts| > 1 {
      var tail := Join(parts[1..], " ");
      WordsOfJoin(parts[1..]);
      assert parts[0] + " " + tail == parts[0] + (" " + tail);
      WordsAppend(parts[0], " " + tail);
      assert (" " + tail)[1..] == tail;
    }
  }
}
