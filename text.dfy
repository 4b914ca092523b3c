/**
 * Python's whitespace class and the three string operations the client
 * builds on it: str.strip(), str.split() with no separator, and " ".join().
 * Runs and Span are stated for an arbitrary character class so that the
 * keyword extractor's regular-expression split can reuse them.
 */
module Text {

  /** str.isspace(): the characters str.strip() and str.split() treat as whitespace. */
  predicate IsSpace(c: char) {
    var n := c as int;
    (0x09 <= n <= 0x0D) || (0x1C <= n <= 0x20) || n == 0x85 || n == 0xA0 || n == 0x1680 ||
    (0x2000 <= n <= 0x200A) || n == 0x2028 || n == 0x2029 || n == 0x202F || n == 0x205F ||
    n == 0x3000
  }

  /** The characters str.split() keeps inside words. */
  predicate IsWordChar(c: char) {
    !IsSpace(c)
  }

  /** Every character of s is whitespace. */
  predicate AllSpace(s: string) {
    forall i :: 0 <= i < |s| ==> IsSpace(s[i])
  }

  /** Every character of s is in the class keep. */
  predicate All(s: string, keep: char -> bool) {
    forall i :: 0 <= i < |s| ==> keep(s[i])
  }

  /** No character of s is in the class keep. */
  predicate NoneOf(s: string, keep: char -> bool) {
    forall i :: 0 <= i < |s| ==> !keep(s[i])
  }

  /** The number of whitespace characters at the front of s. */
  function LeadingSpaces(s: string): (k: nat)
    ensures k <= |s|
    ensures forall i :: 0 <= i < k ==> IsSpace(s[i])
    ensures k < |s| ==> !IsSpace(s[k])
  {
    if s != [] && IsSpace(s[0]) then 1 + LeadingSpaces(s[1..]) else 0
  }

  /** The number of whitespace characters at the end of s. */
  function TrailingSpaces(s: string): (k: nat)
    ensures k <= |s|
    ensures forall i :: |s| - k <= i < |s| ==> IsSpace(s[i])
    ensures k < |s| ==> !IsSpace(s[|s| - k - 1])
  {
    if s != [] && IsSpace(s[|s| - 1]) then 1 + TrailingSpaces(s[..|s| - 1]) else 0
  }

  /** str.lstrip(): drops the leading whitespace, and only that. */
  function StripLeft(s: string): (r: string)
    ensures r != [] ==> !IsSpace(r[0])
  {
    s[LeadingSpaces(s)..]
  }

  /** str.rstrip(): drops the trailing whitespace, and only that. */
  function StripRight(s: string): (r: string)
    ensures r != [] ==> !IsSpace(r[|r| - 1])
  {
    s[..|s| - TrailingSpaces(s)]
  }

  /** str.strip(): no whitespace is left at either end. */
  function Strip(s: string): (r: string)
    ensures |r| <= |s|
    ensures r != [] ==> !IsSpace(r[0]) && !IsSpace(r[|r| - 1])
  {
    StripRight(StripLeft(s))
  }

  /** The whitespace str.strip() removes in front. */
  function StrippedLead(s: string): (lead: string)
    ensures AllSpace(lead)
  {
    s[..LeadingSpaces(s)]
  }

  /** The whitespace str.strip() removes behind. */
  function StrippedTrail(s: string): (trail: string)
    ensures AllSpace(trail)
  {
    var l := StripLeft(s);
    l[|l| - TrailingSpaces(l)..]
  }

  /** str.strip() removes whitespace and nothing else. */
  lemma {:induction false} StripFrames(s: string)
    ensures s == StrippedLead(s) + Strip(s) + StrippedTrail(s)
  {
    var k := LeadingSpaces(s);
    var l := s[k..];
    var m := |l| - TrailingSpaces(l);
    CutThree(s, k, m);
  }

  /** Cutting a string at two points and gluing the pieces back gives the string. */
  lemma {:induction false} CutThree(s: string, k: nat, m: nat)
    requires k <= |s| && m <= |s| - k
    ensures s == s[..k] + s[k..][..m] + s[k..][m..]
  {
    assert s[k..] == s[k..][..m] + s[k..][m..];
  }

  /** A string with no whitespace at either end is left alone by str.strip(). */
  lemma {:induction false} StripUntrimmed(s: string)
    requires s != [] ==> !IsSpace(s[0]) && !IsSpace(s[|s| - 1])
    ensures Strip(s) == s
  {
  }

  /** The length of the longest prefix of s whose characters c all have keep(c) == want. */
  function Span(s: string, keep: char -> bool, want: bool): (k: nat)
    ensures k <= |s|
    ensures forall i :: 0 <= i < k ==> keep(s[i]) == want
    ensures k < |s| ==> keep(s[k]) != want
  {
    if s == [] || keep(s[0]) != want then 0 else 1 + Span(s[1..], keep, want)
  }

  /** Span is determined by the prefix it measures. */
  lemma {:induction false} SpanUnique(s: string, keep: char -> bool, want: bool, k: nat)
    requires k <= |s|
    requires forall i :: 0 <= i < k ==> keep(s[i]) == want
    requires k < |s| ==> keep(s[k]) != want
    ensures Span(s, keep, want) == k
  {
  }

  /** The maximal non-empty runs of characters of the class keep, left to right. */
  function Runs(s: string, keep: char -> bool): (r: seq<string>)
    ensures forall i :: 0 <= i < |r| ==> r[i] != [] && All(r[i], keep)
    decreases |s|
  {
    if s == [] then []
    else if !keep(s[0]) then Runs(s[1..], keep)
    else
      var k := Span(s, keep, true);
      [s[..k]] + Runs(s[k..], keep)
  }

  /** str.split() with no separator: the maximal runs of non-whitespace characters. */
  function Words(s: string): (r: seq<string>)
    ensures IsWordList(r)
  {
    Runs(s, IsWordChar)
  }

  /** " ".join(ws). */
  function Join(ws: seq<string>): (r: string)
    ensures ws != [] ==> ws[0] <= r
  {
    if ws == [] then []
    else if |ws| == 1 then ws[0]
    else ws[0] + " " + Join(ws[1..])
  }

  /** The string f(s[0]) f(s[1]) ... : a per-character mapping such as str.lower(). */
  function MapChars(f: char -> char, s: string): (r: string)
    ensures |r| == |s|
  {
    seq(|s|, i requires 0 <= i < |s| => f(s[i]))
  }

  /** MapChars applied to every string of a list. */
  function MapEach(f: char -> char, ws: seq<string>): (r: seq<string>) {
    seq(|ws|, i requires 0 <= i < |ws| => MapChars(f, ws[i]))
  }

  /** A run-separated word list: every element a non-empty run of non-whitespace characters. */
  predicate IsWordList(ws: seq<string>) {
    forall i :: 0 <= i < |ws| ==> ws[i] != [] && All(ws[i], IsWordChar)
  }

  /**
   * The shape " ".join() gives to a word list: every whitespace character is a
   * single ' ' with a non-whitespace character on each side of it.
   */
  predicate SingleSpaced(s: string) {
    forall i :: 0 <= i < |s| && IsSpace(s[i]) ==>
      s[i] == ' ' && 0 < i < |s| - 1 && !IsSpace(s[i - 1]) && !IsSpace(s[i + 1])
  }

  /** Characters outside keep in front of s add no run. */
  lemma {:induction false} RunsSkipLeading(gap: string, s: string, keep: char -> bool)
    requires NoneOf(gap, keep)
    ensures Runs(gap + s, keep) == Runs(s, keep)
    decreases |gap|
  {
    if gap != [] {
      assert (gap + s)[1..] == gap[1..] + s;
      RunsSkipLeading(gap[1..], s, keep);
    } else {
      assert gap + s == s;
    }
  }

  /** Characters outside keep behind s add no run. */
  lemma {:induction false} RunsSkipTrailing(s: string, gap: string, keep: char -> bool)
    requires NoneOf(gap, keep)
    ensures Runs(s + gap, keep) == Runs(s, keep)
    decreases |s|
  {
    if s == [] {
      assert s + gap == gap + s;
      RunsSkipLeading(gap, s, keep);
    } else if !keep(s[0]) {
      assert (s + gap)[1..] == s[1..] + gap;
      RunsSkipTrailing(s[1..], gap, keep);
    } else {
      var k := Span(s, keep, true);
      SpanUnique(s + gap, keep, true, k);
      assert (s + gap)[..k] == s[..k];
      assert (s + gap)[k..] == s[k..] + gap;
      RunsSkipTrailing(s[k..], gap, keep);
    }
  }

  /** A class-preserving per-character map commutes with cutting into runs. */
  lemma {:induction false} RunsMapChars(f: char -> char, s: string, keep: char -> bool)
    requires forall c :: keep(f(c)) == keep(c)
    ensures Runs(MapChars(f, s), keep) == MapEach(f, Runs(s, keep))
    decreases |s|
  {
    var m := MapChars(f, s);
    if s == [] {
    } else if !keep(s[0]) {
      MapCharsSplit(f, s, 1);
      RunsPastGap(s, keep);
      RunsPastGap(m, keep);
      RunsMapChars(f, s[1..], keep);
    } else {
      var k := Span(s, keep, true);
      SpanUnique(m, keep, true, k);
      MapCharsSplit(f, s, k);
      RunsPastFirst(s, keep);
      RunsPastFirst(m, keep);
      RunsMapChars(f, s[k..], keep);
      MapEachCons(f, s[..k], Runs(s[k..], keep));
    }
  }

  /** MapChars commutes with cutting a string in two. */
  lemma {:induction false} MapCharsSplit(f: char -> char, s: string, k: nat)
    requires k <= |s|
    ensures MapChars(f, s)[..k] == MapChars(f, s[..k])
    ensures MapChars(f, s)[k..] == MapChars(f, s[k..])
  {
  }

  /** MapEach maps the head and the tail separately. */
  lemma {:induction false} MapEachCons(f: char -> char, w: string, ws: seq<string>)
    ensures MapEach(f, [w] + ws) == [MapChars(f, w)] + MapEach(f, ws)
  {
  }



  /** The runs of s are empty exactly when s has no character of the class. */
  lemma {:induction false} RunsEmpty(s: string, keep: char -> bool)
    ensures Runs(s, keep) == [] <==> NoneOf(s, keep)
    decreases |s|
  {
    if s != [] && !keep(s[0]) {
      RunsEmpty(s[1..], keep);
      if NoneOf(s[1..], keep) {
        assert forall i :: 1 <= i < |s| ==> s[i] == s[1..][i - 1];
      }
    }
  }

  /** str.split() undoes " ".join() on a word list. */
  lemma {:induction false} WordsOfJoin(ws: seq<string>)
    requires IsWordList(ws)
    ensures Words(Join(ws)) == ws
  {
    if |ws| == 1 {
      var w := ws[0];
      assert Join(ws) == w && IsWordChar(w[0]);
      SpanUnique(w, IsWordChar, true, |w|);
      assert w[..|w|] == w && w[|w|..] == [];
      assert Runs(w, IsWordChar) == [w[..|w|]] + Runs(w[|w|..], IsWordChar);
      assert ws == [w];
    } else if |ws| > 1 {
      var w, rest := ws[0], Join(ws[1..]);
      var s := w + " " + rest;
      assert Join(ws) == s;
      SpanUnique(s, IsWordChar, true, |w|);
      assert s[..|w|] == w;
      var t := s[|w|..];
      assert t[0] == ' ' && t[1..] == rest;
      assert Runs(t, IsWordChar) == Runs(rest, IsWordChar);
      assert IsWordList(ws[1..]);
      WordsOfJoin(ws[1..]);
      assert ws == [w] + ws[1..];
    }
  }

  /** " ".join() of a word list is single-spaced, and empty only for the empty list. */
  lemma {:induction false} JoinSingleSpaced(ws: seq<string>)
    requires IsWordList(ws)
    ensures SingleSpaced(Join(ws))
    ensures Join(ws) == [] <==> ws == []
    ensures Join(ws) != [] ==> !IsSpace(Join(ws)[0]) && !IsSpace(Join(ws)[|Join(ws)| - 1])
  {
    if |ws| > 1 {
      var w, rest := ws[0], Join(ws[1..]);
      JoinSingleSpaced(ws[1..]);
      var s := w + " " + rest;
      assert s == Join(ws);
      forall i | 0 <= i < |s| && IsSpace(s[i])
        ensures s[i] == ' ' && 0 < i < |s| - 1 && !IsSpace(s[i - 1]) && !IsSpace(s[i + 1])
      {
        if i > |w| {
          assert s[i] == rest[i - |w| - 1];
          if i - |w| - 1 > 0 {
            assert s[i - 1] == rest[i - |w| - 2];
          }
          assert s[i + 1] == rest[i - |w|];
        } else {
          assert i == |w|;
          assert s[i + 1] == rest[0];
        }
      }
    }
  }

  /** A per-character map distributes over " ".join() when it fixes ' '. */
  lemma {:induction false} MapCharsJoin(f: char -> char, ws: seq<string>)
    requires f(' ') == ' '
    ensures MapChars(f, Join(ws)) == Join(MapEach(f, ws))
  {
    if |ws| > 1 {
      MapCharsJoin(f, ws[1..]);
      assert MapEach(f, ws)[1..] == MapEach(f, ws[1..]);
      var w, rest := ws[0], Join(ws[1..]);
      assert MapChars(f, w + " " + rest) == MapChars(f, w) + " " + MapChars(f, rest);
    }
  }

  /** A run of class characters with a boundary on each side: s[i..j] is one maximal run. */
  predicate IsMaximalRun(s: string, keep: char -> bool, i: int, j: int) {
    && 0 <= i < j <= |s|
    && All(s[i..j], keep)
    && (i == 0 || !keep(s[i - 1]))
    && (j == |s| || !keep(s[j]))
  }

  /** A maximal run of a suffix s[d..] that does not start the suffix, or follows a boundary, is one of s. */
  lemma {:induction false} MaximalRunShift(s: string, keep: char -> bool, d: nat, i: int, j: int)
    requires d <= |s| && IsMaximalRun(s[d..], keep, i, j)
    requires i == 0 ==> d == 0 || !keep(s[d - 1])
    ensures IsMaximalRun(s, keep, i + d, j + d) && s[i + d..j + d] == s[d..][i..j]
  {
    assert s[i + d..j + d] == s[d..][i..j];
  }

  /** Every listed run is a maximal run of s. */
  lemma {:induction false} RunsAreMaximal(s: string, keep: char -> bool, w: string)
    requires w in Runs(s, keep)
    ensures exists i, j :: IsMaximalRun(s, keep, i, j) && s[i..j] == w
    decreases |s|
  {
    if !keep(s[0]) {
      RunsAreMaximal(s[1..], keep, w);
      var i, j :| IsMaximalRun(s[1..], keep, i, j) && s[1..][i..j] == w;
      MaximalRunShift(s, keep, 1, i, j);
    } else {
      var k := Span(s, keep, true);
      if w == s[..k] {
        assert IsMaximalRun(s, keep, 0, k) && s[0..k] == w;
      } else {
        RunsAreMaximal(s[k..], keep, w);
        var i, j :| IsMaximalRun(s[k..], keep, i, j) && s[k..][i..j] == w;
        MaximalRunShift(s, keep, k, i, j);
      }
    }
  }

  /** Every maximal run of s is listed. */
  lemma {:induction false} MaximalRunIsListed(s: string, keep: char -> bool, i: int, j: int)
    requires IsMaximalRun(s, keep, i, j)
    ensures s[i..j] in Runs(s, keep)
    decreases |s|
  {
    if i == 0 && keep(s[0]) {
      MaximalRunFirst(s, keep, j);
    } else {
      var t, i', j' := MaximalRunInRest(s, keep, i, j);
      MaximalRunIsListed(t, keep, i', j');
    }
  }

  /** A maximal run at the front of s is the first listed run. */
  lemma {:induction false} MaximalRunFirst(s: string, keep: char -> bool, j: int)
    requires IsMaximalRun(s, keep, 0, j)
    ensures s[0..j] in Runs(s, keep)
  {
    SpanUnique(s, keep, true, j);
    assert Runs(s, keep) == [s[..j]] + Runs(s[j..], keep);
    assert s[0..j] == s[..j];
  }

  /**
   * A maximal run that is not the first run of s is a maximal run of the
   * shorter string t on which Runs(s) continues, and listed there only if listed in s.
   */
  lemma {:induction false} MaximalRunInRest(s: string, keep: char -> bool, i: int, j: int)
    returns (t: string, i': int, j': int)
    requires IsMaximalRun(s, keep, i, j) && !(i == 0 && keep(s[0]))
    ensures |t| < |s| && IsMaximalRun(t, keep, i', j')
    ensures t[i'..j'] in Runs(t, keep) ==> s[i..j] in Runs(s, keep)
  {
    if !keep(s[0]) {
      t, i', j' := s[1..], i - 1, j - 1;
      MaximalRunPastGap(s, keep, i, j);
    } else {
      var k := Span(s, keep, true);
      t, i', j' := s[k..], i - k, j - k;
      MaximalRunPastFirst(s, keep, i, j);
    }
  }

  /** Past a leading character outside the class, a maximal run is one of the rest, and listed there only if listed in s. */
  lemma {:induction false} MaximalRunPastGap(s: string, keep: char -> bool, i: int, j: int)
    requires IsMaximalRun(s, keep, i, j) && !keep(s[0])
    ensures IsMaximalRun(s[1..], keep, i - 1, j - 1)
    ensures s[1..][i - 1..j - 1] in Runs(s[1..], keep) ==> s[i..j] in Runs(s, keep)
  {
    MaximalRunUnshift(s, keep, 1, i, j);
    RunsPastGap(s, keep);
  }

  /** Past the first run, a later maximal run is one of the rest, and listed there only if listed in s. */
  lemma {:induction false} MaximalRunPastFirst(s: string, keep: char -> bool, i: int, j: int)
    requires IsMaximalRun(s, keep, i, j) && 0 < i && keep(s[0])
    ensures var k := Span(s, keep, true);
      && 0 < k <= i
      && IsMaximalRun(s[k..], keep, i - k, j - k)
      && (s[k..][i - k..j - k] in Runs(s[k..], keep) ==> s[i..j] in Runs(s, keep))
  {
    var k := Span(s, keep, true);
    SpanBelowGap(s, keep, i - 1);
    MaximalRunUnshift(s, keep, k, i, j);
    RunsPastFirst(s, keep);
  }

  /** A leading character outside the class adds no run. */
  lemma {:induction false} RunsPastGap(s: string, keep: char -> bool)
    requires s != [] && !keep(s[0])
    ensures Runs(s, keep) == Runs(s[1..], keep)
  {
  }

  /** A non-empty string made only of class characters is a single run. */
  lemma {:induction false} RunsWhole(s: string, keep: char -> bool)
    requires s != [] && Span(s, keep, true) == |s|
    ensures Runs(s, keep) == [s]
  {
    RunsPastFirst(s, keep);
    assert s[..|s|] == s;
    assert s[|s|..] == [];
  }

  /** Runs goes on, behind the first run (if any), past the gap of non-class characters that ends it. */
  lemma {:induction false} RunsStep(s: string, keep: char -> bool)
    requires Span(s, keep, true) < |s|
    ensures var k := Span(s, keep, true);
      var g := Span(s[k..], keep, false);
      Runs(s, keep) == (if k > 0 then [s[..k]] else []) + Runs(s[k..][g..], keep)
  {
    var k := Span(s, keep, true);
    var t := s[k..];
    var g := Span(t, keep, false);
    var rest := t[g..];
    assert t == t[..g] + rest;
    RunsSkipLeading(t[..g], rest, keep);
    if k > 0 {
      RunsPastFirst(s, keep);
    } else {
      assert s == t;
    }
  }

  /** The first listed run of s is its leading span of class characters. */
  lemma {:induction false} RunsPastFirst(s: string, keep: char -> bool)
    requires s != [] && keep(s[0])
    ensures var k := Span(s, keep, true); 0 < k && Runs(s, keep) == [s[..k]] + Runs(s[k..], keep)
  {
  }


  /** The first run of class characters ends at or before the first character outside the class. */
  lemma {:induction false} SpanBelowGap(s: string, keep: char -> bool, g: int)
    requires 0 <= g < |s| && !keep(s[g])
    ensures Span(s, keep, true) <= g
  {
  }

  /** A maximal run of s starting at or after d is one of s[d..]. */
  lemma {:induction false} MaximalRunUnshift(s: string, keep: char -> bool, d: nat, i: int, j: int)
    requires IsMaximalRun(s, keep, i, j) && d <= i
    ensures IsMaximalRun(s[d..], keep, i - d, j - d) && s[d..][i - d..j - d] == s[i..j]
  {
    assert s[d..][i - d..j - d] == s[i..j];
  }

}
