/** `fullStorySource.match(/^(import)(?:.*?(as))?(?:.*?(as))?(?:.*?(from))*.*$/gm)`:
    with the multiline flag `^` holds at the start of the text and after each
    line terminator, `.` matches anything but a line terminator and `$` holds
    before one, and the optional groups never prevent a match; so each match
    is a whole line that begins with `import`. */
module ImportRegex {
  import opened Wrappers
  import opened JsString
  import opened JsArray

  const ImportKeyword := "import"

  /** The characters JavaScript regular expressions treat as line terminators:
      line feed, carriage return, line separator, paragraph separator. */
  predicate IsLineTerminator(c: char) {
    c == '\n' || c == '\r' || c == '\U{2028}' || c == '\U{2029}'
  }

  /** Position `p` of `s` satisfies `^` in multiline mode. */
  predicate AtLineStart(s: string, p: nat) {
    p == 0 || (0 < p <= |s| && IsLineTerminator(s[p - 1]))
  }

  /** The first position at or after `p` that holds a line terminator, or the
      end of `s`: where `.*$` stops. */
  function LineEnd(s: string, p: nat): (e: nat)
    requires p <= |s|
    decreases |s| - p
    ensures p <= e <= |s|
    ensures forall q :: p <= q < e ==> !IsLineTerminator(s[q])
    ensures e < |s| ==> IsLineTerminator(s[e])
  {
    if p == |s| || IsLineTerminator(s[p]) then p else LineEnd(s, p + 1)
  }

  /** The global search from index `p`: try a match at each position in turn;
      after a match, resume where it ended. */
  function MatchFrom(s: string, p: nat): seq<string>
    requires p <= |s|
    decreases |s| - p
  {
    if p == |s| then []
    else if AtLineStart(s, p) && StartsWith(s[p..], ImportKeyword) then
      var e := LineEnd(s, p);
      assert p < e by {
        assert s[p..][..|ImportKeyword|] == ImportKeyword;
        assert s[p] == s[p..][0] == 'i';
      }
      [s[p..e]] + MatchFrom(s, e)
    else MatchFrom(s, p + 1)
  }

  /** `String.prototype.match` with the global flag: every match, or `null`
      (here `None`) when there is none. */
  function MatchImports(s: string): Option<seq<string>> {
    var found := MatchFrom(s, 0);
    if found == [] then None else Some(found)
  }

  /** The only line terminator `s` uses is the line feed. */
  predicate LineFeedOnly(s: string) {
    forall q :: 0 <= q < |s| && IsLineTerminator(s[q]) ==> s[q] == '\n'
  }

  /** The lines of `s` from line start `p` on, split at every line terminator. */
  function LinesFrom(s: string, p: nat): (lines: seq<string>)
    requires p <= |s|
    decreases |s| - p
    ensures |lines| >= 1
  {
    var e := LineEnd(s, p);
    if e == |s| then [s[p..]] else [s[p..e]] + LinesFrom(s, e + 1)
  }

  /** The lines of `s`, as the multiline flag of a regular expression sees them. */
  function Lines(s: string): seq<string> {
    LinesFrom(s, 0)
  }

  /** An import statement as the regular expression finds it: a line that
      begins with `import`. */
  predicate IsImportLine(line: string) {
    StartsWith(line, ImportKeyword)
  }

  /** Inside a line, the search finds nothing until the next line begins. */
  lemma {:induction false} SkipRestOfLine(s: string, p: nat)
    requires 0 < p <= |s|
    requires !IsLineTerminator(s[p - 1])
    decreases |s| - p
    ensures MatchFrom(s, p) == if LineEnd(s, p) == |s| then [] else MatchFrom(s, LineEnd(s, p) + 1)
  {
    if p < |s| && !IsLineTerminator(s[p]) {
      SkipRestOfLine(s, p + 1);
    }
  }

  /** `import` holds no line terminator, so a line that begins with it runs
      past its last letter. */
  lemma ImportLineAtLineStart(s: string, p: nat)
    requires p <= |s|
    ensures StartsWith(s[p..], ImportKeyword) ==> p + |ImportKeyword| <= LineEnd(s, p)
    ensures IsImportLine(s[p..LineEnd(s, p)]) <==> StartsWith(s[p..], ImportKeyword)
  {
    var e := LineEnd(s, p);
    var n := |ImportKeyword|;
    if StartsWith(s[p..], ImportKeyword) {
      assert s[p..e][..n] == s[p..][..n];
    }
    if IsImportLine(s[p..e]) {
      assert s[p..e][..n] == s[p..][..n];
    }
  }

  /** Filtering the lines from `p` keeps or drops the first one and goes on
      with the lines after it. */
  lemma FilterLinesFrom(s: string, p: nat)
    requires p <= |s|
    ensures var e := LineEnd(s, p);
            Filter(LinesFrom(s, p), IsImportLine) ==
              (if IsImportLine(s[p..e]) then [s[p..e]] else []) +
              (if e == |s| then [] else Filter(LinesFrom(s, e + 1), IsImportLine))
  {
    var e := LineEnd(s, p);
    var line := s[p..e];
    if e == |s| {
      FilterCons(line, [], IsImportLine);
      assert s[p..] == line;
      assert LinesFrom(s, p) == [line] + [];
    } else {
      FilterCons(line, LinesFrom(s, e + 1), IsImportLine);
      assert LinesFrom(s, p) == [line] + LinesFrom(s, e + 1);
    }
  }

  /** At the start of a line that begins with `import`, the search matches
      the whole line and goes on at the next line. */
  lemma MatchAtImportLine(s: string, p: nat)
    requires p < |s| && AtLineStart(s, p) && StartsWith(s[p..], ImportKeyword)
    ensures var e := LineEnd(s, p);
            MatchFrom(s, p) == [s[p..e]] + (if e == |s| then [] else MatchFrom(s, e + 1))
  {
    var e := LineEnd(s, p);
    ImportLineAtLineStart(s, p);
    if e < |s| {
      SkipRestOfLine(s, e);
    }
  }

  /** At the start of any other line, the search matches nothing before the
      next line. */
  lemma MatchAtOtherLine(s: string, p: nat)
    requires p < |s| && AtLineStart(s, p) && !StartsWith(s[p..], ImportKeyword)
    ensures var e := LineEnd(s, p);
            MatchFrom(s, p) == if e == |s| then [] else MatchFrom(s, e + 1)
  {
    if !IsLineTerminator(s[p]) {
      SkipRestOfLine(s, p + 1);
    }
  }

  /** From a line start inside the text, the search yields the line when it
      begins with `import`, then goes on at the next line. */
  lemma MatchFromStep(s: string, p: nat)
    requires p < |s| && AtLineStart(s, p)
    ensures var e := LineEnd(s, p);
            MatchFrom(s, p) == (if IsImportLine(s[p..e]) then [s[p..e]] else []) +
                               (if e == |s| then [] else MatchFrom(s, e + 1))
  {
    ImportLineAtLineStart(s, p);
    if StartsWith(s[p..], ImportKeyword) {
      MatchAtImportLine(s, p);
    } else {
      MatchAtOtherLine(s, p);
    }
  }

  /** From a line start, the search yields the lines that begin with `import`. */
  lemma {:induction false} MatchFromLineStart(s: string, p: nat)
    requires p <= |s|
    requires AtLineStart(s, p)
    decreases |s| - p
    ensures MatchFrom(s, p) == Filter(LinesFrom(s, p), IsImportLine)
  {
    FilterLinesFrom(s, p);
    if p == |s| {
      assert !IsImportLine(s[p..LineEnd(s, p)]);
    } else {
      MatchFromStep(s, p);
      if LineEnd(s, p) < |s| {
        MatchFromLineStart(s, LineEnd(s, p) + 1);
      }
    }
  }

  /** The statements `match` finds are exactly the lines of the text that
      begin with `import`, in text order; there are none (`null`) exactly
      when no line begins with `import`. */
  lemma MatchImportsAreImportLines(s: string)
    ensures MatchImports(s) == (if Filter(Lines(s), IsImportLine) == [] then None
                                else Some(Filter(Lines(s), IsImportLine)))
  {
    MatchFromLineStart(s, 0);
  }

  /** No line contains a line terminator. */
  lemma {:induction false} LinesHaveNoTerminator(s: string, p: nat)
    requires p <= |s|
    decreases |s| - p
    ensures forall k, q :: 0 <= k < |LinesFrom(s, p)| && 0 <= q < |LinesFrom(s, p)[k]| ==>
              !IsLineTerminator(LinesFrom(s, p)[k][q])
  {
    var e := LineEnd(s, p);
    if e < |s| {
      LinesHaveNoTerminator(s, e + 1);
    }
  }

  /** In text whose only line terminator is the line feed, a line that does
      not run to the end of the text is followed by a line feed. */
  lemma LineFeedAtLineEnd(s: string, p: nat)
    requires p <= |s|
    requires LineFeedOnly(s)
    requires LineEnd(s, p) < |s|
    ensures s[p..] == s[p..LineEnd(s, p)] + "\n" + s[LineEnd(s, p) + 1..]
  {
    var e := LineEnd(s, p);
    assert s[e..e + 1] == "\n" by {
      assert IsLineTerminator(s[e]);
    }
    ThreeParts(s[p..], e - p, e - p + 1);
    assert s[p..][..e - p] == s[p..e] && s[p..][e - p..e - p + 1] == s[e..e + 1] && s[p..][e - p + 1..] == s[e + 1..];
  }

  /** In text whose only line terminator is the line feed, joining the
      lines from `p` on with line feeds gives back the text from `p` on. */
  lemma {:induction false} JoinLinesFrom(s: string, p: nat)
    requires p <= |s|
    requires LineFeedOnly(s)
    decreases |s| - p
    ensures Join(LinesFrom(s, p), "\n") == s[p..]
  {
    var e := LineEnd(s, p);
    if e < |s| {
      JoinLinesFrom(s, e + 1);
      JoinCons(s[p..e], LinesFrom(s, e + 1), "\n");
      assert LinesFrom(s, p) == [s[p..e]] + LinesFrom(s, e + 1);
      LineFeedAtLineEnd(s, p);
    }
  }

  /** For text whose only line terminator is the line feed, the lines are
      the pieces of `split('\n')`. */
  lemma LinesOfLfText(s: string)
    requires LineFeedOnly(s)
    ensures Lines(s) == Split(s, "\n")
  {
    var lines := Lines(s);
    JoinLinesFrom(s, 0);
    assert s[0..] == s;
    LinesHaveNoTerminator(s, 0);
    forall k | 0 <= k < |lines| ensures '\n' !in lines[k] {
      assert forall q :: 0 <= q < |lines[k]| ==> !IsLineTerminator(lines[k][q]);
    }
    SplitJoin(lines, '\n');
  }
}
