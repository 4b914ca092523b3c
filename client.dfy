/**
 * The client's own text handling: the keyword extractor used when no
 * keywords are given on the command line, and the default document id.
 */
module Client {
  import opened Wrappers
  import opened Text

  /** The class [0-9A-Za-z一-鿿] of the extractor's regular expression. */
  predicate IsKeywordChar(c: char) {
    var n := c as int;
    (0x30 <= n <= 0x39) || (0x41 <= n <= 0x5A) || (0x61 <= n <= 0x7A) || (0x4E00 <= n <= 0x9FFF)
  }

  /**
   * re.split on one or more characters outside the class keep: the pieces
   * between separators, with an empty first or last piece when the text
   * starts or ends with a separator, and [""] for the empty text.
   */
  function SplitParts(s: string, keep: char -> bool): (parts: seq<string>)
    ensures |parts| >= 1
    ensures forall i :: 0 <= i < |parts| ==> All(parts[i], keep)
    decreases |s|
  {
    var k := Span(s, keep, true);
    if k == |s| then [s]
    else
      var g := Span(s[k..], keep, false);
      [s[..k]] + SplitParts(s[k..][g..], keep)
  }

  /** The parts of at least two characters, in order. */
  function KeepLong(ws: seq<string>): (r: seq<string>)
    ensures |r| <= |ws|
    ensures forall i :: 0 <= i < |r| ==> |r[i]| >= 2 && r[i] in ws
  {
    if ws == [] then []
    else
      var w := ws[|ws| - 1];
      KeepLong(ws[..|ws| - 1]) + (if |w| >= 2 then [w] else [])
  }

  lemma {:induction false} KeepLongAppend(a: seq<string>, b: seq<string>)
    ensures KeepLong(a + b) == KeepLong(a) + KeepLong(b)
  {
    if b == [] {
      assert a + b == a;
    } else {
      var init := b[..|b| - 1];
      assert (a + b)[..|a + b| - 1] == a + init;
      KeepLongAppend(a, init);
    }
  }

  /** The filter keeps the first part exactly when it is long enough. */
  lemma {:induction false} KeepLongCons(w: string, ws: seq<string>)
    ensures KeepLong([w] + ws) == (if |w| >= 2 then [w] else []) + KeepLong(ws)
  {
    KeepLongAppend([w], ws);
    assert KeepLong([w]) == KeepLong([]) + (if |w| >= 2 then [w] else []);
  }

  /** A part is kept exactly when it is one of the input and has two or more characters. */
  lemma {:induction false} KeepLongMembers(ws: seq<string>, w: string)
    ensures w in KeepLong(ws) <==> w in ws && |w| >= 2
  {
    if ws != [] {
      var init := ws[..|ws| - 1];
      assert ws == init + [ws[|ws| - 1]];
      KeepLongMembers(init, w);
    }
  }

  /** The extractor's result as a function of the text: the maximal keyword-class runs of length two or more. */
  function Keywords(text: string): (r: seq<string>)
    ensures forall i :: 0 <= i < |r| ==> |r[i]| >= 2 && All(r[i], IsKeywordChar)
  {
    KeepLong(Runs(text, IsKeywordChar))
  }

  /** Cutting at separators and listing the maximal runs agree once the short pieces are dropped. */
  lemma {:induction false} PartsAreRuns(s: string, keep: char -> bool)
    ensures KeepLong(SplitParts(s, keep)) == KeepLong(Runs(s, keep))
    decreases |s|
  {
    var k := Span(s, keep, true);
    if k == |s| {
      if s != [] {
        RunsWhole(s, keep);
      }
      KeepLongCons(s, []);
      assert [s] + [] == [s];
    } else {
      var rest := s[k..][Span(s[k..], keep, false)..];
      RunsStep(s, keep);
      PartsAreRuns(rest, keep);
      KeepLongStep(s[..k], SplitParts(rest, keep), Runs(rest, keep), Runs(s, keep));
    }
  }

  /** One step of PartsAreRuns: a short head piece is dropped on both sides, a long one kept on both. */
  lemma {:induction false} KeepLongStep(w: string, parts: seq<string>, runs: seq<string>, all: seq<string>)
    requires KeepLong(parts) == KeepLong(runs)
    requires all == (if w != [] then [w] else []) + runs
    ensures KeepLong([w] + parts) == KeepLong(all)
  {
    KeepLongCons(w, parts);
    if w != [] {
      KeepLongCons(w, runs);
    } else {
      assert all == runs;
    }
  }


  /** A keyword is exactly a maximal run of keyword-class characters, two or more long. */
  lemma {:induction false} KeywordsMembers(text: string, w: string)
    ensures w in Keywords(text) <==>
      |w| >= 2 && exists i, j :: IsMaximalRun(text, IsKeywordChar, i, j) && text[i..j] == w
  {
    KeepLongMembers(Runs(text, IsKeywordChar), w);
    if w in Runs(text, IsKeywordChar) {
      RunsAreMaximal(text, IsKeywordChar, w);
    }
    if exists i, j :: IsMaximalRun(text, IsKeywordChar, i, j) && text[i..j] == w {
      var i, j :| IsMaximalRun(text, IsKeywordChar, i, j) && text[i..j] == w;
      MaximalRunIsListed(text, IsKeywordChar, i, j);
    }
  }

  /** Text without a maximal run of two or more keyword characters, the empty text among them, has no keywords. */
  lemma {:induction false} KeywordsEmpty(text: string)
    ensures Keywords(text) == [] <==>
      forall i, j :: IsMaximalRun(text, IsKeywordChar, i, j) ==> j - i < 2
    ensures Keywords([]) == []
  {
    if Keywords(text) != [] {
      var w := Keywords(text)[0];
      KeywordsMembers(text, w);
      var i, j :| IsMaximalRun(text, IsKeywordChar, i, j) && text[i..j] == w;
    }
    if exists i, j :: IsMaximalRun(text, IsKeywordChar, i, j) && j - i >= 2 {
      var i, j :| IsMaximalRun(text, IsKeywordChar, i, j) && j - i >= 2;
      KeywordsMembers(text, text[i..j]);
    }
  }

  /** str.strip() leaves every piece of the split as it is: no whitespace character is in the keyword class. */
  lemma {:induction false} StripKeepsParts(s: string)
    ensures forall p :: p in SplitParts(s, IsKeywordChar) ==> Strip(p) == p
  {
    var parts := SplitParts(s, IsKeywordChar);
    forall p | p in parts ensures Strip(p) == p {
      var i :| 0 <= i < |parts| && parts[i] == p;
      assert p != [] ==> IsKeywordChar(p[0]) && IsKeywordChar(p[|p| - 1]);
      StripUntrimmed(p);
    }
  }

  /**
   * simple_extract_keywords: each piece of the split is stripped and kept
   * when it has at least two characters.
   */
  method ExtractKeywords(text: string) returns (kws: seq<string>)
    ensures kws == Keywords(text)
    ensures forall i :: 0 <= i < |kws| ==> |kws[i]| >= 2 && All(kws[i], IsKeywordChar)
  {
    var parts := SplitParts(text, IsKeywordChar);
    StripKeepsParts(text);
    kws := [];
    for i := 0 to |parts|
      invariant kws == KeepLong(parts[..i])
    {
      assert parts[..i + 1][..i] == parts[..i];
      var p := Strip(parts[i]);
      if |p| >= 2 {
        kws := kws + [p];
      }
    }
    assert parts[..|parts|] == parts;
    PartsAreRuns(text, IsKeywordChar);
    forall i | 0 <= i < |kws| ensures |kws[i]| >= 2 && All(kws[i], IsKeywordChar) {
      KeepLongMembers(Runs(text, IsKeywordChar), kws[i]);
      assert kws[i] in Runs(text, IsKeywordChar);
    }
  }

  /**
   * os.path.basename on a POSIX path: everything after the last sep, or the
   * whole string when there is none.
   */
  function AfterLast(s: string, sep: char): (r: string)
    ensures |r| <= |s| && r == s[|s| - |r|..]
    ensures sep !in r
  {
    if s == [] || s[|s| - 1] == sep then []
    else AfterLast(s[..|s| - 1], sep) + [s[|s| - 1]]
  }

  /** What AfterLast drops ends with sep: the suffix it keeps is the longest one without sep. */
  lemma {:induction false} AfterLastBoundary(s: string, sep: char)
    ensures var r := AfterLast(s, sep); |r| < |s| ==> s[|s| - |r| - 1] == sep
  {
    if s != [] && s[|s| - 1] != sep {
      var init := s[..|s| - 1];
      AfterLastBoundary(init, sep);
      assert |AfterLast(s, sep)| == |AfterLast(init, sep)| + 1;
    }
  }

  /** os.path.basename(path): the last component of a POSIX path, which holds no '/'. */
  function Basename(path: string): (r: string)
    ensures '/' !in r
    ensures |r| <= |path| && r == path[|path| - |r|..]
  {
    AfterLast(path, '/')
  }

  function DigitChar(d: nat): (c: char)
    requires d < 10
  {
    ('0' as int + d) as char
  }

  /** str(n) for a non-negative integer: its decimal digits, most significant first. */
  function Decimal(n: nat): (s: string)
    ensures s != [] && forall i :: 0 <= i < |s| ==> '0' <= s[i] <= '9'
    ensures n > 0 ==> s[0] != '0'
    ensures |s| > 1 ==> s[0] != '0'
  {
    if n < 10 then [DigitChar(n)] else Decimal(n / 10) + [DigitChar(n % 10)]
  }

  /** The value of a non-empty string of decimal digits. */
  function DecimalValue(s: string): (v: Option<nat>)
    ensures s == [] ==> v == None
  {
    if s == [] then None
    else
      var c := s[|s| - 1];
      if !('0' <= c <= '9') then None
      else if |s| == 1 then Some((c as int - '0' as int) as nat)
      else match DecimalValue(s[..|s| - 1])
        case None => None
        case Some(high) => Some(10 * high + (c as int - '0' as int))
  }

  /** str(n) reads back as n. */
  lemma {:induction false} DecimalValueDecimal(n: nat)
    ensures DecimalValue(Decimal(n)) == Some(n)
  {
    if n >= 10 {
      var s := Decimal(n);
      assert s[..|s| - 1] == Decimal(n / 10);
      DecimalValueDecimal(n / 10);
    }
  }

  /** The doc_id cmd_upload sends: the one given, or "<basename>-<plaintext length>" when none is. */
  function UploadDocId(given: string, path: string, plaintextLength: nat): (docId: string)
    ensures docId != []
    ensures given != [] ==> docId == given
  {
    if given != [] then given else Basename(path) + "-" + Decimal(plaintextLength)
  }

  /** A default doc_id splits back, at its last '-', into the file's basename and the plaintext length. */
  lemma {:induction false} DefaultDocIdParts(path: string, plaintextLength: nat)
    ensures var docId := UploadDocId([], path, plaintextLength);
      var tail := AfterLast(docId, '-');
      && |tail| < |docId|
      && DecimalValue(tail) == Some(plaintextLength)
      && docId[..|docId| - |tail| - 1] == Basename(path)
  {
    var digits := Decimal(plaintextLength);
    assert UploadDocId([], path, plaintextLength) == Basename(path) + "-" + digits;
    SplitAtLastDash(Basename(path), digits);
    DecimalValueDecimal(plaintextLength);
  }

  /** base + "-" + digits splits back, at its last '-', into base and digits. */
  lemma {:induction false} SplitAtLastDash(base: string, digits: string)
    requires forall i :: 0 <= i < |digits| ==> '0' <= digits[i] <= '9'
    ensures var docId := base + "-" + digits;
      && AfterLast(docId, '-') == digits
      && docId[..|docId| - |digits| - 1] == base
  {
    var prefix := base + "-";
    assert base + "-" + digits == prefix + digits;
    AfterLastDigits(prefix, digits);
    assert (prefix + digits)[..|base|] == base;
  }

  /** Appending characters other than sep extends what follows the last sep by exactly those. */
  lemma {:induction false} AfterLastDigits(prefix: string, digits: string)
    requires forall i :: 0 <= i < |digits| ==> '0' <= digits[i] <= '9'
    requires prefix != [] && prefix[|prefix| - 1] == '-'
    ensures AfterLast(prefix + digits, '-') == digits
  {
    if digits != [] {
      var init := digits[..|digits| - 1];
      assert (prefix + digits)[..|prefix + digits| - 1] == prefix + init;
      AfterLastDigits(prefix, init);
    } else {
      assert prefix + digits == prefix;
    }
  }
}
