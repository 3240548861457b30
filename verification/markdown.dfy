/** Context that travels with a figure to the description model: the name
    of the section the figure sits in and the paragraphs around it, all
    read off the analysed markdown by literal string scanning. */
module Markdown {
  import opened Wrappers
  import opened PyStr

  /* ---------------------------------------------------------------------
     Character-level positions, independent of find/rfind
     --------------------------------------------------------------------- */

  /** `i` is the last index below `hi` holding `c`. */
  predicate LastBelow(s: string, c: char, hi: nat, i: int) {
    0 <= i < hi <= |s| && s[i] == c && forall j :: i < j < hi ==> s[j] != c
  }

  /** No index below `hi` holds `c`. */
  predicate NoneBelow(s: string, c: char, hi: nat) {
    forall j :: 0 <= j < hi && j < |s| ==> s[j] != c
  }

  /** `i` is the first index at or after `lo` holding `c`. */
  predicate FirstFrom(s: string, c: char, lo: nat, i: int) {
    lo <= i < |s| && s[i] == c && forall j :: lo <= j < i ==> s[j] != c
  }

  /** No index at or after `lo` holds `c`. */
  predicate NoneFrom(s: string, c: char, lo: nat) {
    forall j :: lo <= j < |s| ==> s[j] != c
  }

  lemma OccursAtChar(s: string, c: char, i: int)
    ensures OccursAt(s, [c], i) <==> 0 <= i < |s| && s[i] == c
  {
    if 0 <= i < |s| {
      assert s[i..i + 1] == [s[i]];
    }
  }

  /** `rfind` of a one-character pattern finds the last such character. */
  lemma RFindChar(s: string, c: char, end: int)
    ensures var hi := ClampIndex(end, |s|);
            var r := RFind(s, [c], end);
            (r == -1 ==> NoneBelow(s, c, hi)) && (r != -1 ==> LastBelow(s, c, hi, r))
  {
    var hi := ClampIndex(end, |s|);
    forall j | 0 <= j < |s| ensures OccursAt(s, [c], j) <==> s[j] == c {
      OccursAtChar(s, c, j);
    }
  }

  /** `find` of a one-character pattern finds the first such character. */
  lemma FindChar(s: string, c: char, start: int)
    ensures var lo := NormStart(start, |s|);
            var r := FindFrom(s, [c], start);
            (r == -1 ==> NoneFrom(s, c, lo)) && (r != -1 ==> FirstFrom(s, c, lo, r))
  {
    forall j | 0 <= j < |s| ensures OccursAt(s, [c], j) <==> s[j] == c {
      OccursAtChar(s, c, j);
    }
  }

  /* ---------------------------------------------------------------------
     Section name
     --------------------------------------------------------------------- */

  /** The most recent level-1 to level-4 heading names seen so far. */
  datatype Headings = Headings(h1: Option<string>, h2: Option<string>,
                               h3: Option<string>, h4: Option<string>)

  const NoHeadings: Headings := Headings(None, None, None, None)

  function Level(h: Headings, k: nat): Option<string>
    requires 1 <= k <= 4
  {
    if k == 1 then h.h1 else if k == 2 then h.h2 else if k == 3 then h.h3 else h.h4
  }

  /** `line` begins with exactly `level` hashes followed by a space. */
  predicate IsHeadingPrefix(line: string, level: nat) {
    1 <= level <= 4 && |line| > level
    && (forall i :: 0 <= i < level ==> line[i] == '#') && line[level] == ' '
  }

  /** The heading level a line sets, by the literal prefixes `# ` to `#### `. */
  function HeadingLevel(line: string): (r: Option<nat>)
    ensures r.Some? ==> IsHeadingPrefix(line, r.value)
    ensures r.None? ==> forall k :: !IsHeadingPrefix(line, k)
  {
    if StartsWith(line, "# ") then Some(1)
    else if StartsWith(line, "## ") then Some(2)
    else if StartsWith(line, "### ") then Some(3)
    else if StartsWith(line, "#### ") then Some(4)
    else
      assert forall k :: !IsHeadingPrefix(line, k) by {
        forall k | 1 <= k <= 4 && |line| > k ensures !IsHeadingPrefix(line, k) {
          if k == 1 { assert line[..2] == [line[0], line[1]]; }
          else if k == 2 { assert line[..3] == [line[0], line[1], line[2]]; }
          else if k == 3 { assert line[..4] == [line[0], line[1], line[2], line[3]]; }
          else { assert line[..5] == [line[0], line[1], line[2], line[3], line[4]]; }
        }
      }
      None
  }

  /** The heading name carried by a heading line: the rest of the line
      after the prefix, stripped. */
  function HeadingName(line: string, k: nat): string
    requires IsHeadingPrefix(line, k)
  {
    Strip(line[k + 1..])
  }

  /** One step of the heading scan. */
  function ApplyHeadingLine(h: Headings, line: string): (h': Headings)
    ensures forall k :: 1 <= k <= 4 && HeadingLevel(line) != Some(k) ==> Level(h', k) == Level(h, k)
    ensures HeadingLevel(line).Some? ==>
              Level(h', HeadingLevel(line).value) == Some(HeadingName(line, HeadingLevel(line).value))
  {
    match HeadingLevel(line)
    case Some(k) => SetLevel(h, k, HeadingName(line, k))
    case None => h
  }

  /** `h` with level `k` set to `name`. */
  function SetLevel(h: Headings, k: nat, name: string): (h': Headings)
    requires 1 <= k <= 4
    ensures Level(h', k) == Some(name)
    ensures forall j :: 1 <= j <= 4 && j != k ==> Level(h', j) == Level(h, j)
  {
    if k == 1 then h.(h1 := Some(name))
    else if k == 2 then h.(h2 := Some(name))
    else if k == 3 then h.(h3 := Some(name))
    else h.(h4 := Some(name))
  }

  /** The heading state after every line of `lines`. */
  function FoldHeadings(h: Headings, lines: seq<string>): Headings
    decreases |lines|
  {
    if |lines| == 0 then h else FoldHeadings(ApplyHeadingLine(h, lines[0]), lines[1..])
  }

  /** The name of the last level-`k` heading among `lines`, if any. */
  function LastHeading(lines: seq<string>, k: nat): Option<string>
    requires 1 <= k <= 4
    decreases |lines|
  {
    if |lines| == 0 then None
    else
      var later := LastHeading(lines[1..], k);
      if later.Some? then later
      else if IsHeadingPrefix(lines[0], k) then Some(HeadingName(lines[0], k))
      else None
  }

  /** Levels are never reset: each level holds the last heading of that
      level seen, whatever higher-level headings came after it. */
  lemma {:induction false} FoldKeepsLastHeading(h: Headings, lines: seq<string>, k: nat)
    requires 1 <= k <= 4
    ensures LastHeading(lines, k).Some? ==> Level(FoldHeadings(h, lines), k) == LastHeading(lines, k)
    ensures LastHeading(lines, k).None? ==> Level(FoldHeadings(h, lines), k) == Level(h, k)
    decreases |lines|
  {
    if |lines| > 0 {
      var h' := ApplyHeadingLine(h, lines[0]);
      FoldKeepsLastHeading(h', lines[1..], k);
      if IsHeadingPrefix(lines[0], k) {
        assert HeadingLevel(lines[0]) == Some(k);
      }
    }
  }

  /** A line that is not a `#`..`####` heading line changes nothing. */
  lemma NonHeadingLineIgnored(h: Headings, line: string)
    requires forall k :: !IsHeadingPrefix(line, k)
    ensures ApplyHeadingLine(h, line) == h
  {
  }

  /** Total length of the lines, newlines not counted. */
  function TotalLength(lines: seq<string>): nat
    decreases |lines|
  {
    if |lines| == 0 then 0 else |lines[0]| + TotalLength(lines[1..])
  }

  /** The heading scan over the lines of the document, stopping after the
      first line at which the running length total reaches `offset`. */
  function ScanHeadings(lines: seq<string>, offset: int, counter: int, h: Headings): Headings
    decreases |lines|
  {
    if |lines| == 0 then h
    else
      var h' := ApplyHeadingLine(h, lines[0]);
      var c := counter + |lines[0]|;
      if c >= offset then h' else ScanHeadings(lines[1..], offset, c, h')
  }

  /** The scan reads exactly the first `k` lines, where `k` is the first
      line count whose total length reaches the offset (at least one line,
      all of them if the offset is never reached). */
  lemma {:induction false} ScanIsPrefixFold(lines: seq<string>, offset: int, counter: int, h: Headings, k: nat)
    requires 1 <= k <= |lines|
    requires forall j :: 1 <= j < k ==> counter + TotalLength(lines[..j]) < offset
    requires k < |lines| ==> counter + TotalLength(lines[..k]) >= offset
    ensures ScanHeadings(lines, offset, counter, h) == FoldHeadings(h, lines[..k])
    decreases |lines|
  {
    var h' := ApplyHeadingLine(h, lines[0]);
    var c := counter + |lines[0]|;
    assert lines[..1][1..] == [];
    assert TotalLength(lines[..1]) == |lines[0]| by {
      assert lines[..1][0] == lines[0];
    }
    if k == 1 {
      assert FoldHeadings(h, lines[..1]) == FoldHeadings(h', lines[..1][1..]);
      if 1 < |lines| {
        assert c >= offset;
      } else {
        assert |lines| == 1;
      }
    } else {
      assert c < offset;
      assert |lines| > 1;
      var rest := lines[1..];
      forall j | 1 <= j < k - 1 ensures c + TotalLength(rest[..j]) < offset {
        assert lines[..j + 1][1..] == rest[..j];
        assert lines[..j + 1][0] == lines[0];
      }
      if k - 1 < |rest| {
        assert lines[..k][1..] == rest[..k - 1];
        assert lines[..k][0] == lines[0];
      }
      ScanIsPrefixFold(rest, offset, c, h', k - 1);
      assert lines[..k][1..] == rest[..k - 1];
    }
  }

  /** Appends one captured name: it begins the string while the string is
      still empty and is joined with " / " otherwise. */
  function AppendName(acc: string, name: Option<string>): string {
    match name
    case None => acc
    case Some(n) => if |acc| == 0 then n else acc + " / " + n
  }

  lemma {:induction false} AppendAllConcat(acc: string, a: seq<string>, b: seq<string>)
    ensures AppendAll(acc, a + b) == AppendAll(AppendAll(acc, a), b)
    decreases |a|
  {
    if |a| > 0 {
      assert (a + b)[0] == a[0];
      assert (a + b)[1..] == a[1..] + b;
      AppendAllConcat(AppendName(acc, Some(a[0])), a[1..], b);
    } else {
      assert a + b == b;
    }
  }

  function OptionSeq(o: Option<string>): seq<string> {
    if o.Some? then [o.value] else []
  }

  lemma AppendAllOption(acc: string, o: Option<string>)
    ensures AppendAll(acc, OptionSeq(o)) == AppendName(acc, o)
  {
    if o.Some? {
      assert AppendAll(acc, [o.value]) == AppendAll(AppendName(acc, o), []);
    }
  }

  /** The section name made from the captured h1..h4 names, in order. */
  function JoinSectionName(h: Headings): string {
    var s1 := if h.h1.Some? then h.h1.value else "";
    var s2 := AppendName(s1, h.h2);
    var s3 := AppendName(s2, h.h3);
    AppendName(s3, h.h4)
  }

  /** The captured names, h1 first. */
  function Present(h: Headings): seq<string> {
    OptionSeq(h.h1) + OptionSeq(h.h2) + OptionSeq(h.h3) + OptionSeq(h.h4)
  }

  function DropLeadingEmpty(names: seq<string>): (r: seq<string>)
    ensures |r| > 0 ==> |r[0]| > 0
    decreases |names|
  {
    if |names| > 0 && |names[0]| == 0 then DropLeadingEmpty(names[1..]) else names
  }

  /** Names joined by " / ". */
  function JoinSlash(names: seq<string>): string
    decreases |names|
  {
    if |names| == 0 then ""
    else if |names| == 1 then names[0]
    else names[0] + " / " + JoinSlash(names[1..])
  }

  function AppendAll(acc: string, names: seq<string>): string
    decreases |names|
  {
    if |names| == 0 then acc else AppendAll(AppendName(acc, Some(names[0])), names[1..])
  }

  lemma {:induction false} AppendAllNonEmpty(acc: string, names: seq<string>)
    requires |acc| > 0
    ensures AppendAll(acc, names) == if |names| == 0 then acc else acc + " / " + JoinSlash(names)
    decreases |names|
  {
    if |names| > 0 {
      var acc' := acc + " / " + names[0];
      AppendAllNonEmpty(acc', names[1..]);
      if |names| > 1 {
        assert acc' + " / " + JoinSlash(names[1..]) == acc + " / " + (names[0] + " / " + JoinSlash(names[1..]));
      }
    }
  }

  lemma {:induction false} AppendAllFromEmpty(names: seq<string>)
    ensures AppendAll("", names) == JoinSlash(DropLeadingEmpty(names))
    decreases |names|
  {
    if |names| > 0 {
      if |names[0]| == 0 {
        assert AppendName("", Some(names[0])) == "";
        AppendAllFromEmpty(names[1..]);
      } else {
        AppendAllNonEmpty(names[0], names[1..]);
      }
    }
  }

  /** The section name is the captured names, leading empty ones dropped,
      joined by " / "; with no heading captured it is empty. */
  lemma SectionNameJoinsPresentNames(h: Headings)
    ensures JoinSectionName(h) == JoinSlash(DropLeadingEmpty(Present(h)))
    ensures h == NoHeadings ==> JoinSectionName(h) == ""
  {
    var o1, o2, o3, o4 := OptionSeq(h.h1), OptionSeq(h.h2), OptionSeq(h.h3), OptionSeq(h.h4);
    AppendAllConcat("", o1 + o2 + o3, o4);
    AppendAllConcat("", o1 + o2, o3);
    AppendAllConcat("", o1, o2);
    AppendAllOption("", h.h1);
    AppendAllOption(AppendName("", h.h1), h.h2);
    AppendAllOption(AppendName(AppendName("", h.h1), h.h2), h.h3);
    AppendAllOption(AppendName(AppendName(AppendName("", h.h1), h.h2), h.h3), h.h4);
    assert JoinSectionName(h) == AppendAll("", Present(h));
    AppendAllFromEmpty(Present(h));
  }

  /** Python's `determine_section_name_at_offset`. */
  function SectionNameAt(markdown: string, offset: int): string {
    JoinSectionName(ScanHeadings(Split(markdown, '\n'), offset, 0, NoHeadings))
  }

  /** The section name is built from the last heading of each level among
      the first `k` lines, where `k` is fixed by the offset as in
      `ScanIsPrefixFold`. */
  lemma SectionNameFromScannedLines(markdown: string, offset: int, k: nat, level: nat)
    requires var lines := Split(markdown, '\n');
             1 <= k <= |lines|
             && (forall j :: 1 <= j < k ==> TotalLength(lines[..j]) < offset)
             && (k < |lines| ==> TotalLength(lines[..k]) >= offset)
    requires 1 <= level <= 4
    ensures var lines := Split(markdown, '\n');
            var h := ScanHeadings(lines, offset, 0, NoHeadings);
            SectionNameAt(markdown, offset) == JoinSlash(DropLeadingEmpty(Present(h)))
            && Level(h, level) == LastHeading(lines[..k], level)
  {
    var lines := Split(markdown, '\n');
    ScanIsPrefixFold(lines, offset, 0, NoHeadings, k);
    FoldKeepsLastHeading(NoHeadings, lines[..k], level);
    SectionNameJoinsPresentNames(ScanHeadings(lines, offset, 0, NoHeadings));
  }

  /* ---------------------------------------------------------------------
     Prior and post context
     --------------------------------------------------------------------- */

  /** Python's `find_prior_context`: from the second-to-last newline before
      the last space before `offset` (or the last newline, if there is only
      one) up to `offset`, stripped. */
  function PriorContext(markdown: string, offset: int): (c: string)
    ensures |c| <= |markdown|
    ensures |c| > 0 ==> !IsSpace(c[0]) && !IsSpace(c[|c| - 1])
  {
    var prevSpace := RFind(markdown, " ", offset);
    if prevSpace == -1 then ""
    else
      var prevNewline := RFind(markdown, "\n", prevSpace);
      if prevNewline == -1 then ""
      else
        var prevNewline2 := RFind(markdown, "\n", prevNewline);
        if prevNewline2 == -1 then Strip(Slice(markdown, prevNewline, offset))
        else Strip(Slice(markdown, prevNewline2, offset))
  }

  lemma LastBelowUnique(s: string, c: char, hi: nat, i: int, j: int)
    requires LastBelow(s, c, hi, i) && LastBelow(s, c, hi, j)
    ensures i == j
  {
  }

  /** A backward search for one character up to `end` lands on the last
      such character below the clamped end. */
  lemma FindLastChar(s: string, c: char, end: int, i: int)
    requires LastBelow(s, c, ClampIndex(end, |s|), i)
    ensures RFind(s, [c], end) == i
  {
    RFindChar(s, c, end);
    LastBelowUnique(s, c, ClampIndex(end, |s|), i, RFind(s, [c], end));
  }

  /** A backward search for a character that does not occur below the
      clamped end gives -1. */
  lemma FindNoChar(s: string, c: char, end: int)
    requires NoneBelow(s, c, ClampIndex(end, |s|))
    ensures RFind(s, [c], end) == -1
  {
    RFindChar(s, c, end);
  }

  /** No space before the offset: empty context. */
  lemma PriorContextNoSpace(markdown: string, offset: int)
    requires NoneBelow(markdown, ' ', ClampIndex(offset, |markdown|))
    ensures PriorContext(markdown, offset) == ""
  {
    FindNoChar(markdown, ' ', offset);
  }

  /** No newline before the last space: empty context. */
  lemma PriorContextNoNewline(markdown: string, offset: int, p: nat)
    requires LastBelow(markdown, ' ', ClampIndex(offset, |markdown|), p)
    requires NoneBelow(markdown, '\n', p)
    ensures PriorContext(markdown, offset) == ""
  {
    FindLastChar(markdown, ' ', offset, p);
    FindNoChar(markdown, '\n', p);
  }

  /** One newline before the last space: the context runs from it to the
      offset. */
  lemma PriorContextOneNewline(markdown: string, offset: int, p: nat, n1: nat)
    requires LastBelow(markdown, ' ', ClampIndex(offset, |markdown|), p)
    requires LastBelow(markdown, '\n', p, n1)
    requires NoneBelow(markdown, '\n', n1)
    ensures PriorContext(markdown, offset) == Strip(markdown[n1..ClampIndex(offset, |markdown|)])
  {
    FindLastChar(markdown, ' ', offset, p);
    FindLastChar(markdown, '\n', p, n1);
    FindNoChar(markdown, '\n', n1);
  }

  /** Two or more newlines before the last space: the context runs from the
      second-to-last of them to the offset. */
  lemma PriorContextTwoNewlines(markdown: string, offset: int, p: nat, n1: nat, n2: nat)
    requires LastBelow(markdown, ' ', ClampIndex(offset, |markdown|), p)
    requires LastBelow(markdown, '\n', p, n1)
    requires LastBelow(markdown, '\n', n1, n2)
    ensures PriorContext(markdown, offset) == Strip(markdown[n2..ClampIndex(offset, |markdown|)])
  {
    FindLastChar(markdown, ' ', offset, p);
    FindLastChar(markdown, '\n', p, n1);
    FindLastChar(markdown, '\n', n1, n2);
  }

  /** Python's `find_post_context`: from `offset` to the second newline
      after the first space at or after `offset` (or to the first such
      newline when there is no second), stripped. With no space at or after
      `offset` the newline search starts from index -1, which Python reads
      as the last character. */
  function PostContext(markdown: string, offset: int): (c: string)
    ensures |c| <= |markdown|
    ensures |c| > 0 ==> !IsSpace(c[0]) && !IsSpace(c[|c| - 1])
  {
    var nextSpace := FindFrom(markdown, " ", offset);
    var nextNewline := FindFrom(markdown, "\n", nextSpace);
    if nextNewline == -1 then "" else PostContextTo(markdown, offset, nextNewline)
  }

  /** The post context once the first newline after the space is known. */
  function PostContextTo(markdown: string, offset: int, nextNewline: int): (c: string)
    ensures |c| <= |markdown|
    ensures |c| > 0 ==> !IsSpace(c[0]) && !IsSpace(c[|c| - 1])
  {
    var nextNewline2 := FindFrom(markdown, "\n", nextNewline + 1);
    if nextNewline2 == -1 then Strip(Slice(markdown, offset, nextNewline))
    else Strip(Slice(markdown, offset, nextNewline2))
  }

  lemma FirstFromUnique(s: string, c: char, lo: nat, i: int, j: int)
    requires FirstFrom(s, c, lo, i) && FirstFrom(s, c, lo, j)
    ensures i == j
  {
  }

  /** No newline after the first space: empty context. */
  lemma PostContextNoNewline(markdown: string, offset: int, p: int)
    requires FirstFrom(markdown, ' ', NormStart(offset, |markdown|), p)
    requires NoneFrom(markdown, '\n', p)
    ensures PostContext(markdown, offset) == ""
  {
    FindChar(markdown, ' ', offset);
    FirstFromUnique(markdown, ' ', NormStart(offset, |markdown|), p, FindFrom(markdown, " ", offset));
    FindChar(markdown, '\n', p);
  }

  /** One newline after the first space: the context runs up to it. */
  lemma PostContextOneNewline(markdown: string, offset: int, p: int, n1: int)
    requires FirstFrom(markdown, ' ', NormStart(offset, |markdown|), p)
    requires FirstFrom(markdown, '\n', p, n1)
    requires NoneFrom(markdown, '\n', n1 + 1)
    ensures PostContext(markdown, offset) == Strip(Slice(markdown, offset, n1))
  {
    FindChar(markdown, ' ', offset);
    FirstFromUnique(markdown, ' ', NormStart(offset, |markdown|), p, FindFrom(markdown, " ", offset));
    FindChar(markdown, '\n', p);
    FirstFromUnique(markdown, '\n', p, n1, FindFrom(markdown, "\n", p));
    FindChar(markdown, '\n', n1 + 1);
  }

  /** Two newlines after the first space: the context runs up to the
      second. */
  lemma PostContextTwoNewlines(markdown: string, offset: int, p: int, n1: int, n2: int)
    requires FirstFrom(markdown, ' ', NormStart(offset, |markdown|), p)
    requires FirstFrom(markdown, '\n', p, n1)
    requires FirstFrom(markdown, '\n', n1 + 1, n2)
    ensures PostContext(markdown, offset) == Strip(Slice(markdown, offset, n2))
  {
    FindFirstChar(markdown, ' ', offset, p);
    FindFirstChar(markdown, '\n', p, n1);
    FindFirstChar(markdown, '\n', n1 + 1, n2);
    PostContextFromFinds(markdown, offset, p, n1, n2);
  }

  /** The post context in terms of the three searches it performs. */
  lemma PostContextFromFinds(markdown: string, offset: int, a: int, b: nat, c: nat)
    requires FindFrom(markdown, " ", offset) == a
    requires FindFrom(markdown, "\n", a) == b
    requires FindFrom(markdown, "\n", b + 1) == c
    ensures PostContext(markdown, offset) == Strip(Slice(markdown, offset, c))
  {
    assert PostContext(markdown, offset) == PostContextTo(markdown, offset, b);
  }

  /** A search for one character from `start` lands on the first such
      character at or after the normalised start. */
  lemma FindFirstChar(s: string, c: char, start: int, i: int)
    requires FirstFrom(s, c, NormStart(start, |s|), i)
    ensures FindFrom(s, [c], start) == i
  {
    FindChar(s, c, start);
    FirstFromUnique(s, c, NormStart(start, |s|), i, FindFrom(s, [c], start));
  }

  /** No space at or after the offset: the missing space is not checked, and
      the newline search inspects only the final character. */
  lemma PostContextWithoutSpace(markdown: string, offset: int)
    requires NoneFrom(markdown, ' ', NormStart(offset, |markdown|))
    ensures PostContext(markdown, offset) ==
              if |markdown| > 0 && markdown[|markdown| - 1] == '\n'
              then Strip(Slice(markdown, offset, |markdown| - 1)) else ""
  {
    FindChar(markdown, ' ', offset);
    FindChar(markdown, '\n', -1);
    FindChar(markdown, '\n', |markdown|);
  }
}
