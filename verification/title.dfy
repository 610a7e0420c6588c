/** The title rule of the map window (`title_changed_cb`): the canvas
    reports a new map title, the window folds it onto one line, shows at
    most 27 characters of it in its title bar, and passes the folded title
    on to its listeners. */
module Title {

  import opened Strings

  /** The title of a map whose title text is empty (untranslated). */
  const UntitledMap: string := "Untitled Map"

  /** The characters at which Python 2's `str.splitlines` breaks a line;
      "\r\n" counts as one break. */
  const LineBreaks: set<char> := {'\n', '\r'}

  /** The longest title the title bar shows uncut. */
  const WindowTitleLimit: nat := 27

  const Ellipsis: string := "..."

  /** The index of the first line break in `s`, or `|s|` when there is none. */
  function FirstBreak(s: string): (r: nat)
    ensures r <= |s|
    ensures r < |s| ==> s[r] in LineBreaks
  {
    if s == [] then 0
    else if s[0] in LineBreaks then 0
    else 1 + FirstBreak(s[1..])
  }

  /** No line break comes before `FirstBreak(s)`. */
  lemma {:induction false} FirstBreakIsFirst(s: string)
    ensures Avoids(s[..FirstBreak(s)], LineBreaks)
  {
    if s != [] && s[0] !in LineBreaks {
      FirstBreakIsFirst(s[1..]);
      assert s[..FirstBreak(s)] == [s[0]] + s[1..][..FirstBreak(s[1..])];
    }
  }

  /** The length of the line terminator that starts at `i`: two for
      "\r\n", one for a lone '\r' or '\n'. */
  function TerminatorLength(s: string, i: nat): (n: nat)
    requires i < |s|
    ensures 1 <= n <= 2 && i + n <= |s|
  {
    if s[i] == '\r' && i + 1 < |s| && s[i + 1] == '\n' then 2 else 1
  }

  /** Where the second line of `s` starts: just past the first
      terminator, or the end of `s` when it holds no break. */
  function NextStart(s: string): (j: nat)
    requires s != []
    ensures FirstBreak(s) <= j <= |s| && 1 <= j
    ensures FirstBreak(s) < |s| ==> FirstBreak(s) < j
  {
    var i := FirstBreak(s);
    if i == |s| then |s| else i + TerminatorLength(s, i)
  }

  /** Python 2's `str.splitlines()`: the lines of `s` without their
      terminators. A terminator at the very end opens no further line, and
      the empty string has no lines at all. */
  function SplitLines(s: string): (lines: seq<string>)
    ensures lines == [] <==> s == []
    decreases |s|
  {
    if s == [] then [] else [s[..FirstBreak(s)]] + SplitLines(s[NextStart(s)..])
  }

  /** No line of `SplitLines(s)` holds a line break. */
  lemma {:induction false} LinesHaveNoBreaks(s: string)
    ensures forall i :: 0 <= i < |SplitLines(s)| ==> Avoids(SplitLines(s)[i], LineBreaks)
    decreases |s|
  {
    if s != [] {
      FirstBreakIsFirst(s);
      LinesHaveNoBreaks(s[NextStart(s)..]);
    }
  }

  /** True if `t` is one whole line terminator. */
  predicate IsTerminator(t: string) {
    t == "\n" || t == "\r" || t == "\r\n"
  }

  /** The terminator that ended each line of `SplitLines(s)`, in the same
      order; the last line has none ("") when `s` does not end in a break. */
  function LineTerminators(s: string): (ts: seq<string>)
    ensures |ts| == |SplitLines(s)|
    decreases |s|
  {
    if s == [] then [] else [s[FirstBreak(s)..NextStart(s)]] + LineTerminators(s[NextStart(s)..])
  }

  /** Each line followed by its terminator, all concatenated. */
  function Interleave(lines: seq<string>, ts: seq<string>): string
    requires |lines| == |ts|
  {
    if lines == [] then "" else lines[0] + ts[0] + Interleave(lines[1..], ts[1..])
  }

  /** One step of `SplitLines` and `LineTerminators`: the first line and its
      terminator, then those of the rest. */
  lemma SplitStep(s: string)
    requires s != []
    ensures var i, j := FirstBreak(s), NextStart(s);
            && SplitLines(s)[0] == s[..i] && SplitLines(s)[1..] == SplitLines(s[j..])
            && LineTerminators(s)[0] == s[i..j] && LineTerminators(s)[1..] == LineTerminators(s[j..])
  {
  }

  /** Line `k` and terminator `k` of `s`, past the first, are line and
      terminator `k - 1` of the rest. */
  lemma SplitShift(s: string, k: nat)
    requires 0 < k < |LineTerminators(s)|
    ensures var rest := s[NextStart(s)..];
            && LineTerminators(s)[k] == LineTerminators(rest)[k - 1]
            && SplitLines(s)[k] == SplitLines(rest)[k - 1]
  {
    SplitStep(s);
  }

  /** Putting the lines back together with their terminators gives the
      original text: `splitlines` drops exactly the line breaks. */
  lemma {:induction false} SplitLinesRoundTrip(s: string)
    ensures Interleave(SplitLines(s), LineTerminators(s)) == s
    decreases |s|
  {
    if s != [] {
      var i, j := FirstBreak(s), NextStart(s);
      assert s[..i] + s[i..j] + s[j..] == s;
      var tail := Interleave(SplitLines(s[j..]), LineTerminators(s[j..]));
      assert Interleave(SplitLines(s), LineTerminators(s)) == s[..i] + s[i..j] + tail by {
        SplitStep(s);
      }
      assert tail == s[j..] by {
        SplitLinesRoundTrip(s[j..]);
      }
    }
  }

  /** The first terminator of `s` is a whole line break, or "" when `s`
      holds no break; then `s` is all one line. */
  lemma FirstTerminator(s: string)
    requires s != []
    ensures var t := s[FirstBreak(s)..NextStart(s)];
            IsTerminator(t) || (t == "" && NextStart(s) == |s| && s[..FirstBreak(s)] == s)
  {
    var i, j := FirstBreak(s), NextStart(s);
    if i < |s| {
      if TerminatorLength(s, i) == 2 {
        assert s[i..j] == "\r\n" by { assert s[i..j] == [s[i], s[i + 1]]; }
      } else if s[i] == '\n' {
        assert s[i..j] == "\n" by { assert s[i..j] == [s[i]]; }
      } else {
        assert s[i..j] == "\r" by { assert s[i..j] == [s[i]]; }
      }
    }
  }

  /** Every terminator is a whole line break; only the last line may lack
      one, and then that line is not empty (a break at the very end opens
      no further line). */
  lemma {:induction false} TerminatorIsBreak(s: string, k: nat)
    requires k < |LineTerminators(s)|
    ensures IsTerminator(LineTerminators(s)[k])
            || (k == |LineTerminators(s)| - 1 && LineTerminators(s)[k] == "" && SplitLines(s)[k] != "")
    decreases k
  {
    if k == 0 {
      FirstTerminator(s);
    } else {
      SplitShift(s, k);
      TerminatorIsBreak(s[NextStart(s)..], k - 1);
    }
  }

  /** "\r\n" is one break: a lone "\r" is never followed by an empty
      line that ends in "\n". */
  lemma {:induction false} CrLfIsOneBreak(s: string, k: nat)
    requires k + 1 < |LineTerminators(s)|
    requires LineTerminators(s)[k] == "\r" && SplitLines(s)[k + 1] == ""
    ensures LineTerminators(s)[k + 1] != "\n"
    decreases k
  {
    if k == 0 {
      CrThenEmptyLine(s);
    } else {
      SplitShift(s, k);
      SplitShift(s, k + 1);
      CrLfIsOneBreak(s[NextStart(s)..], k - 1);
    }
  }

  /** The base case: after a lone '\r', an empty line starts with a break
      other than '\n'. */
  lemma CrThenEmptyLine(s: string)
    requires 1 < |LineTerminators(s)|
    requires LineTerminators(s)[0] == "\r" && SplitLines(s)[1] == ""
    ensures LineTerminators(s)[1] != "\n"
  {
    var i, j := FirstBreak(s), NextStart(s);
    var rest := s[j..];
    SplitStep(s);
    assert s[i..j] == "\r";
    assert j == i + 1 && s[i] == '\r';
    assert rest != [] && rest[..FirstBreak(rest)] == "";
    assert rest[0] == s[i + 1] != '\n';
    assert LineTerminators(rest)[0] == rest[0..NextStart(rest)];
  }

  /** The title the window keeps (`title_cp`) and passes on: "Untitled Map"
      for an empty title, otherwise the title's lines joined by single
      spaces. */
  function NormalTitle(title: string): (r: string)
    ensures title == "" ==> r == UntitledMap
    ensures Avoids(r, LineBreaks)
  {
    if title == "" then UntitledMap
    else
      var split := SplitLines(title);
      if split != [] then
        LinesHaveNoBreaks(title);
        JoinWithAvoids(split, ' ', LineBreaks);
        JoinWith(split, ' ')
      else
        ""
  }

  /** The text of the title bar: the title itself when it fits in 27
      characters, otherwise its first 27 characters followed by "...". */
  function WindowTitle(title: string): (w: string)
    ensures |w| <= WindowTitleLimit + |Ellipsis|
    ensures |title| <= WindowTitleLimit ==> w == title
    ensures |title| > WindowTitleLimit ==>
              |w| == 30 && w[..WindowTitleLimit] == title[..WindowTitleLimit] && w[WindowTitleLimit..] == Ellipsis
  {
    if |title| > WindowTitleLimit then title[..WindowTitleLimit] + Ellipsis else title
  }

  /** The callback as the window runs it: pop the last line, append every
      other line followed by a space, then append the last line; cut the
      result for the title bar and emit it uncut. */
  method TitleChanged(newTitle: string) returns (windowTitle: string, emitted: string)
    ensures emitted == NormalTitle(newTitle)
    ensures windowTitle == WindowTitle(emitted)
    ensures |emitted| > WindowTitleLimit ==> |windowTitle| == 30
  {
    var titleCp := "";
    if newTitle == "" {
      titleCp := UntitledMap;
    } else {
      var split := SplitLines(newTitle);
      if split != [] {
        var last := |split| - 1;
        var i := 0;
        while i < last
          invariant 0 <= i <= last
          invariant titleCp + JoinWith(split[i..], ' ') == JoinWith(split, ' ')
        {
          assert split[i..][1..] == split[i + 1..];
          titleCp := titleCp + split[i] + " ";
          i := i + 1;
        }
        assert split[last..] == [split[last]];
        titleCp := titleCp + split[last];
      }
    }
    if |titleCp| > WindowTitleLimit {
      windowTitle := titleCp[0..WindowTitleLimit] + Ellipsis;
    } else {
      windowTitle := titleCp;
    }
    emitted := titleCp;
  }

  /** A title with no line break is kept as it is. */
  lemma FlatTitleUnchanged(title: string)
    requires title != ""
    requires Avoids(title, LineBreaks)
    ensures NormalTitle(title) == title
  {
    assert FirstBreak(title) == |title|;
  }

  /** Folding a title a second time changes nothing, unless the first
      fold left it empty (which turns into "Untitled Map"). */
  lemma NormalTitleIdempotent(title: string)
    requires NormalTitle(title) != ""
    ensures NormalTitle(NormalTitle(title)) == NormalTitle(title)
  {
    FlatTitleUnchanged(NormalTitle(title));
  }

  /** The folded title is empty exactly when the title is a single line
      terminator: "\n", "\r" or "\r\n". */
  lemma BlankTitleIff(title: string)
    ensures NormalTitle(title) == "" <==> title == "\n" || title == "\r" || title == "\r\n"
  {
    if title != "" {
      var lines := SplitLines(title);
      JoinWithLength(lines, ' ');
      if NormalTitle(title) == "" {
        assert |lines| == 1 && lines[0] == "";
        var i := FirstBreak(title);
        assert i == 0;
        var rest := title[TerminatorLength(title, 0)..];
        assert SplitLines(rest) == [];
        assert title == title[..TerminatorLength(title, 0)] + rest;
      }
    }
  }

  /** The folded title is as long as the title's lines together plus one
      space per gap between them. */
  lemma {:induction false} NormalTitleLength(title: string)
    requires title != ""
    ensures |NormalTitle(title)| == TotalLength(SplitLines(title)) + |SplitLines(title)| - 1
  {
    JoinWithLength(SplitLines(title), ' ');
  }

  /** The folded title holds the title's lines in order, with exactly one
      space between consecutive lines: line `i` starts after the earlier
      lines and one space per earlier line, and every line but the last is
      followed by a space. */
  lemma {:induction false} NormalTitleJoinsLines(title: string)
    requires title != ""
    ensures LaidOut(NormalTitle(title), SplitLines(title), ' ')
  {
    JoinWithLayoutAll(SplitLines(title), ' ');
  }

  /** When no line holds a space, splitting the folded title on spaces
      gives the title's lines back. */
  lemma {:induction false} NormalTitleSplitsBack(title: string)
    requires title != ""
    requires forall i :: 0 <= i < |SplitLines(title)| ==> ' ' !in SplitLines(title)[i]
    ensures SplitOn(NormalTitle(title), ' ') == SplitLines(title)
  {
    SplitOnJoinWith(SplitLines(title), ' ');
  }
}
