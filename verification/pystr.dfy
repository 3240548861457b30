/** The few Python `str` operations the figure reconciliation is built
    from, with the index conventions of CPython: `find`/`rfind` answer -1
    when there is no match, and slice bounds are normalised (negative
    counts from the end, out-of-range clamps) instead of being rejected. */
module PyStr {

  /* ---------------------------------------------------------------------
     Occurrences
     --------------------------------------------------------------------- */

  /** `pat` occurs in `s` starting at index `i`. */
  predicate OccursAt(s: string, pat: string, i: int) {
    0 <= i && i + |pat| <= |s| && s[i..i + |pat|] == pat
  }

  /** Python's `pat in s`, as a specification. */
  ghost predicate Occurs(s: string, pat: string) {
    exists i :: OccursAt(s, pat, i)
  }

  /** Python's `s.startswith(p)`. */
  predicate StartsWith(s: string, p: string) {
    p <= s
  }

  /* ---------------------------------------------------------------------
     Index normalisation
     --------------------------------------------------------------------- */

  /** How CPython normalises a slice bound (and the `end` argument of
      `find`/`rfind`) against a string of length `n`. */
  function ClampIndex(i: int, n: nat): (r: nat)
    ensures r <= n
    ensures 0 <= i <= n ==> r == i
    ensures i > n ==> r == n
    ensures i < 0 && 0 <= i + n ==> r == n + i
    ensures i + n < 0 ==> r == 0
  {
    if i < 0 then (if i + n < 0 then 0 else i + n)
    else if i > n then n
    else i
  }

  /** How CPython normalises the `start` argument of `find`: a negative
      start counts from the end, a start past the end is kept (and then
      nothing is found). */
  function NormStart(i: int, n: nat): (r: nat)
    ensures 0 <= i ==> r == i
    ensures i < 0 && 0 <= i + n ==> r == n + i
    ensures i + n < 0 ==> r == 0
  {
    if i < 0 then (if i + n < 0 then 0 else i + n) else i
  }

  /** Python's `s[a:b]`. */
  function Slice(s: string, a: int, b: int): (r: string)
    ensures ClampIndex(a, |s|) <= ClampIndex(b, |s|) ==>
              r == s[ClampIndex(a, |s|)..ClampIndex(b, |s|)]
    ensures ClampIndex(b, |s|) < ClampIndex(a, |s|) ==> r == []
    ensures |r| <= |s|
  {
    var lo := ClampIndex(a, |s|);
    var hi := ClampIndex(b, |s|);
    if lo <= hi then s[lo..hi] else []
  }

  /* ---------------------------------------------------------------------
     find / rfind
     --------------------------------------------------------------------- */

  /** The first occurrence of `pat` at or after index `i`, or -1. */
  function FindAt(s: string, pat: string, i: nat): (r: int)
    ensures r == -1 || (i <= r && OccursAt(s, pat, r))
    ensures r == -1 ==> forall j :: i <= j ==> !OccursAt(s, pat, j)
    ensures r != -1 ==> forall j :: i <= j < r ==> !OccursAt(s, pat, j)
    decreases |s| - i
  {
    if i + |pat| > |s| then -1
    else if s[i..i + |pat|] == pat then i
    else FindAt(s, pat, i + 1)
  }

  /** Python's `s.find(pat, start)`. */
  function FindFrom(s: string, pat: string, start: int): (r: int)
    ensures r == -1 || (NormStart(start, |s|) <= r && OccursAt(s, pat, r))
    ensures r == -1 <==> forall j :: NormStart(start, |s|) <= j ==> !OccursAt(s, pat, j)
    ensures r != -1 ==> forall j :: NormStart(start, |s|) <= j < r ==> !OccursAt(s, pat, j)
  {
    FindAt(s, pat, NormStart(start, |s|))
  }

  /** Python's `s.find(pat)`. */
  function Find(s: string, pat: string): (r: int)
    ensures r == -1 <==> !Occurs(s, pat)
    ensures r != -1 ==> OccursAt(s, pat, r) && forall j :: 0 <= j < r ==> !OccursAt(s, pat, j)
  {
    FindFrom(s, pat, 0)
  }

  /** Python's `pat in s`, computed the way CPython does it. */
  predicate Contains(s: string, pat: string) {
    Find(s, pat) != -1
  }

  /** The last occurrence of `pat` that ends at or before `hi`, or -1. */
  function RFindBelow(s: string, pat: string, hi: nat): (r: int)
    requires hi <= |s|
    ensures r == -1 || (OccursAt(s, pat, r) && r + |pat| <= hi)
    ensures r == -1 ==> forall j :: 0 <= j && j + |pat| <= hi ==> !OccursAt(s, pat, j)
    ensures r != -1 ==> forall j :: r < j && j + |pat| <= hi ==> !OccursAt(s, pat, j)
    decreases hi
  {
    if |pat| > hi then -1
    else if s[hi - |pat|..hi] == pat then hi - |pat|
    else if hi == 0 then -1
    else RFindBelow(s, pat, hi - 1)
  }

  /** Python's `s.rfind(pat, 0, end)`. */
  function RFind(s: string, pat: string, end: int): (r: int)
    ensures r == -1 || (OccursAt(s, pat, r) && r + |pat| <= ClampIndex(end, |s|))
    ensures r == -1 <==> forall j :: 0 <= j && j + |pat| <= ClampIndex(end, |s|) ==> !OccursAt(s, pat, j)
    ensures r != -1 ==> forall j :: r < j && j + |pat| <= ClampIndex(end, |s|) ==> !OccursAt(s, pat, j)
  {
    RFindBelow(s, pat, ClampIndex(end, |s|))
  }

  /* ---------------------------------------------------------------------
     strip
     --------------------------------------------------------------------- */

  /** The characters for which Python's `str.isspace()` holds. */
  predicate IsSpace(c: char) {
    var n := c as int;
    (9 <= n <= 13) || (28 <= n <= 32) || n == 0x85 || n == 0xA0 || n == 0x1680
    || (0x2000 <= n <= 0x200A) || n == 0x2028 || n == 0x2029 || n == 0x202F
    || n == 0x205F || n == 0x3000
  }

  predicate AllSpace(s: string) {
    forall i :: 0 <= i < |s| ==> IsSpace(s[i])
  }

  /** Number of leading whitespace characters. */
  function LeadingSpace(s: string): (k: nat)
    ensures k <= |s|
    ensures AllSpace(s[..k])
    ensures k < |s| ==> !IsSpace(s[k])
  {
    if |s| == 0 || !IsSpace(s[0]) then 0
    else
      var k := 1 + LeadingSpace(s[1..]);
      assert forall i :: 1 <= i < k ==> s[..k][i] == s[1..][..k - 1][i - 1];
      k
  }

  /** End of `s` once trailing whitespace is dropped, never below `lo`. */
  function TrailingEnd(s: string, lo: nat): (j: nat)
    requires lo <= |s|
    ensures lo <= j <= |s|
    ensures AllSpace(s[j..])
    ensures j > lo ==> !IsSpace(s[j - 1])
    decreases |s|
  {
    if |s| == lo || !IsSpace(s[|s| - 1]) then |s|
    else
      var j := TrailingEnd(s[..|s| - 1], lo);
      assert forall i :: j <= i < |s| - 1 ==> s[i] == s[..|s| - 1][i];
      j
  }

  /** Python's `s.strip()` with no argument. */
  function Strip(s: string): (r: string)
    ensures |r| <= |s|
    ensures |r| > 0 ==> !IsSpace(r[0]) && !IsSpace(r[|r| - 1])
  {
    var i := LeadingSpace(s);
    var j := TrailingEnd(s, i);
    var r := s[i..j];
    assert |r| > 0 ==> r[0] == s[i] && r[|r| - 1] == s[j - 1];
    r
  }

  /** What `strip` removes is whitespace: the result is a contiguous
      piece of the input with only whitespace before and after it. */
  lemma StripPiece(s: string)
    ensures var r := Strip(s);
            exists i :: 0 <= i <= |s| - |r| && r == s[i..i + |r|] && AllSpace(s[..i]) && AllSpace(s[i + |r|..])
  {
    var i := LeadingSpace(s);
    var j := TrailingEnd(s, i);
    assert Strip(s) == s[i..j] && i + |s[i..j]| == j;
  }

  /** Stripping twice changes nothing more. */
  lemma StripIdempotent(s: string)
    ensures Strip(Strip(s)) == Strip(s)
  {
    var r := Strip(s);
    assert LeadingSpace(r) == 0;
    assert TrailingEnd(r, 0) == |r|;
  }

  /** Stripping a string made only of whitespace leaves nothing. */
  lemma StripAllSpace(s: string)
    requires AllSpace(s)
    ensures Strip(s) == []
  {
  }

  /* ---------------------------------------------------------------------
     split / join
     --------------------------------------------------------------------- */

  /** Index of the first `c` in `s`, or `|s|` when there is none. */
  function CharIndex(s: string, c: char): (k: nat)
    ensures k <= |s|
    ensures c !in s[..k]
    ensures k < |s| ==> s[k] == c
  {
    if |s| == 0 || s[0] == c then 0
    else
      var k := 1 + CharIndex(s[1..], c);
      assert s[..k] == [s[0]] + s[1..][..k - 1];
      k
  }

  /** Python's `s.split(sep)` for a one-character separator: every piece is
      kept, empty ones included. */
  function Split(s: string, sep: char): (parts: seq<string>)
    ensures |parts| >= 1
    ensures forall i :: 0 <= i < |parts| ==> sep !in parts[i]
    decreases |s|
  {
    var k := CharIndex(s, sep);
    if k == |s| then
      assert s[..k] == s;
      [s]
    else [s[..k]] + Split(s[k + 1..], sep)
  }

  /** The first piece is the text before the first separator, and the
      remaining pieces are those of the text after it. */
  lemma SplitHead(s: string, sep: char)
    ensures var parts := Split(s, sep);
            && parts[0] <= s
            && (|parts| == 1 <==> sep !in s)
            && (|parts| == 1 ==> parts[0] == s)
            && (|parts| > 1 ==> |parts[0]| < |s| && s[|parts[0]|] == sep
                                && parts[1..] == Split(s[|parts[0]| + 1..], sep))
  {
    var k := CharIndex(s, sep);
    var parts := Split(s, sep);
    if k == |s| {
      assert s[..k] == s;
      assert parts == [s];
    } else {
      var tail := Split(s[k + 1..], sep);
      assert parts == [s[..k]] + tail;
      assert parts[1..] == tail;
      assert |parts[0]| == k && s[k] == sep;
    }
  }

  lemma {:induction false} CharIndexAt(s: string, c: char, m: nat)
    requires m <= |s| && c !in s[..m] && (m < |s| ==> s[m] == c)
    ensures CharIndex(s, c) == m
    decreases m
  {
    if m > 0 {
      assert s[0] == s[..m][0];
      assert s[1..][..m - 1] == s[..m][1..];
      CharIndexAt(s[1..], c, m - 1);
    }
  }

  /** Splitting at a known first separator. */
  lemma SplitAt(s: string, sep: char, m: nat)
    requires m < |s| && s[m] == sep && sep !in s[..m]
    ensures Split(s, sep) == [s[..m]] + Split(s[m + 1..], sep)
  {
    CharIndexAt(s, sep, m);
  }

  /** A string without the separator is a single piece. */
  lemma SplitNone(s: string, sep: char)
    requires sep !in s
    ensures Split(s, sep) == [s]
  {
    assert s[..|s|] == s;
    CharIndexAt(s, sep, |s|);
  }

  /** Python's `sep.join(parts)`. */
  function Join(parts: seq<string>, sep: char): string
    requires |parts| >= 1
  {
    if |parts| == 1 then parts[0] else parts[0] + [sep] + Join(parts[1..], sep)
  }

  /** Splitting and joining back gives the original string. */
  lemma {:induction false} SplitJoin(s: string, sep: char)
    ensures Join(Split(s, sep), sep) == s
    decreases |s|
  {
    var k := CharIndex(s, sep);
    if k < |s| {
      var rest := s[k + 1..];
      var parts := Split(s, sep);
      assert parts[1..] == Split(rest, sep);
      SplitJoin(rest, sep);
      assert Join(parts, sep) == s[..k] + [sep] + rest;
      assert s == s[..k] + [sep] + rest;
    } else {
      assert s[..k] == s;
    }
  }

  /* ---------------------------------------------------------------------
     replace
     --------------------------------------------------------------------- */

  /** Python's `s.replace(pat, rep)` for a non-empty pattern: a left-to-right
      scan replacing non-overlapping occurrences. */
  function ReplaceAll(s: string, pat: string, rep: string): string
    requires |pat| > 0
    decreases |s|
  {
    if pat <= s then rep + ReplaceAll(s[|pat|..], pat, rep)
    else if |s| == 0 then []
    else [s[0]] + ReplaceAll(s[1..], pat, rep)
  }

  /** The two characters backslash and `n`, as they appear when a newline
      has been written out as an escape. */
  const EscapedNewline: string := ['\\', 'n']

  /** First character of a replaced string: either the replacement space or
      the original first character. */
  lemma {:induction false} ReplaceEscapesHead(s: string)
    requires |s| > 0
    ensures |ReplaceAll(s, EscapedNewline, " ")| > 0
    ensures var r := ReplaceAll(s, EscapedNewline, " ");
            r[0] == ' ' || (r[0] == s[0] && !(EscapedNewline <= s))
  {
  }

  lemma EscapedNewlineAt(s: string, i: int)
    ensures OccursAt(s, EscapedNewline, i) <==>
              0 <= i && i + 2 <= |s| && s[i] == '\\' && s[i + 1] == 'n'
  {
    if 0 <= i && i + 2 <= |s| {
      assert s[i..i + 2] == [s[i], s[i + 1]];
    }
  }

  /** After replacing every escaped newline by a space, none is left. */
  lemma {:induction false} ReplaceEscapesRemovesAll(s: string)
    ensures forall i :: !OccursAt(ReplaceAll(s, EscapedNewline, " "), EscapedNewline, i)
    decreases |s|
  {
    var r := ReplaceAll(s, EscapedNewline, " ");
    if |s| > 0 {
      var t := if EscapedNewline <= s then s[2..] else s[1..];
      ReplaceEscapesRemovesAll(t);
      var rt := ReplaceAll(t, EscapedNewline, " ");
      assert r == [r[0]] + rt;
      assert EscapedNewline <= s <==> |s| >= 2 && s[0] == '\\' && s[1] == 'n';
      forall i ensures !OccursAt(r, EscapedNewline, i) {
        EscapedNewlineAt(r, i);
        if i >= 1 && i + 2 <= |r| {
          EscapedNewlineAt(rt, i - 1);
          assert r[i] == rt[i - 1] && r[i + 1] == rt[i];
        } else if i == 0 && EscapedNewline <= s {
          assert r[0] == ' ';
        } else if i == 0 && |t| > 0 {
          assert r[0] == s[0] && t[0] == s[1];
          ReplaceEscapesHead(t);
          assert r[1] == rt[0];
        }
      }
    }
  }

  /** An occurrence in `s[1..]` is an occurrence in `s`, one index later. */
  lemma OccursShift(s: string, pat: string, k: nat)
    requires |s| > 0
    ensures OccursAt(s[1..], pat, k) <==> OccursAt(s, pat, k + 1)
  {
    if k + |pat| <= |s| - 1 {
      assert s[1..][k..k + |pat|] == s[k + 1..k + 1 + |pat|];
    }
  }

  /** An occurrence inside a prefix is an occurrence in the whole string. */
  lemma OccursInPrefix(s: string, pat: string, m: nat, k: nat)
    requires m <= |s| && OccursAt(s[..m], pat, k)
    ensures OccursAt(s, pat, k) && k + |pat| <= m
  {
    assert s[..m][k..k + |pat|] == s[k..k + |pat|];
  }

  /** Text in which the pattern does not occur is left as it is. */
  lemma {:induction false} ReplaceAbsent(s: string, pat: string, rep: string)
    requires |pat| > 0
    requires forall i :: !OccursAt(s, pat, i)
    ensures ReplaceAll(s, pat, rep) == s
    decreases |s|
  {
    if |s| > 0 {
      assert !OccursAt(s, pat, 0);
      forall i | 0 <= i ensures !OccursAt(s[1..], pat, i) {
        OccursShift(s, pat, i);
      }
      ReplaceAbsent(s[1..], pat, rep);
    }
  }

  /** Without an occurrence at the front, the first character is copied. */
  lemma ReplaceCopiesHead(s: string, pat: string, rep: string)
    requires |pat| > 0 && |s| > 0 && !OccursAt(s, pat, 0)
    ensures ReplaceAll(s, pat, rep) == [s[0]] + ReplaceAll(s[1..], pat, rep)
  {
    assert !(pat <= s);
  }

  /** Dropping the first character moves a first occurrence one index down. */
  lemma FirstOccurrenceInTail(s: string, pat: string, i: nat)
    requires i > 0 && OccursAt(s, pat, i) && forall k :: 0 <= k < i ==> !OccursAt(s, pat, k)
    ensures OccursAt(s[1..], pat, i - 1) && forall k :: 0 <= k < i - 1 ==> !OccursAt(s[1..], pat, k)
  {
    OccursShift(s, pat, i - 1);
    forall k | 0 <= k < i - 1 ensures !OccursAt(s[1..], pat, k) {
      OccursShift(s, pat, k);
    }
  }

  /** An occurrence at the front becomes `rep`. */
  lemma ReplaceAtFront(s: string, pat: string, rep: string)
    requires |pat| > 0 && OccursAt(s, pat, 0)
    ensures ReplaceAll(s, pat, rep) == s[..0] + rep + ReplaceAll(s[|pat|..], pat, rep)
  {
    assert s[..|pat|] == pat;
    assert s[..0] + rep == rep;
  }

  lemma ConcatAssoc3(a: string, b: string, c: string, d: string)
    ensures a + (b + c + d) == (a + b) + c + d
  {
  }

  /** One step of `ReplaceFirst`: the copied first character is put in
      front of what the tail gives. */
  lemma ReplaceFirstStep(s: string, pat: string, rep: string, i: nat)
    requires |pat| > 0 && i > 0 && i + |pat| <= |s| && !OccursAt(s, pat, 0)
    requires ReplaceAll(s[1..], pat, rep) == s[1..][..i - 1] + rep + ReplaceAll(s[1..][i - 1 + |pat|..], pat, rep)
    ensures ReplaceAll(s, pat, rep) == s[..i] + rep + ReplaceAll(s[i + |pat|..], pat, rep)
  {
    var t := s[1..];
    ReplaceCopiesHead(s, pat, rep);
    var after := ReplaceAll(s[i + |pat|..], pat, rep);
    assert t[i - 1 + |pat|..] == s[i + |pat|..];
    assert s[..i] == [s[0]] + t[..i - 1];
    ConcatAssoc3([s[0]], t[..i - 1], rep, after);
  }

  /** The text before the first occurrence is copied, the occurrence
      becomes `rep`, and the scan resumes just after it. */
  lemma {:induction false} ReplaceFirst(s: string, pat: string, rep: string, i: nat)
    requires |pat| > 0
    requires OccursAt(s, pat, i) && forall k :: 0 <= k < i ==> !OccursAt(s, pat, k)
    ensures ReplaceAll(s, pat, rep) == s[..i] + rep + ReplaceAll(s[i + |pat|..], pat, rep)
    decreases i
  {
    if i == 0 {
      ReplaceAtFront(s, pat, rep);
    } else {
      FirstOccurrenceInTail(s, pat, i);
      ReplaceFirst(s[1..], pat, rep, i - 1);
      ReplaceFirstStep(s, pat, rep, i);
    }
  }

  /** Python's `s.split(pat)` for a non-empty pattern: the pieces between
      the leftmost non-overlapping occurrences, found with `find`. */
  function SplitOn(s: string, pat: string): (parts: seq<string>)
    requires |pat| > 0
    ensures |parts| >= 1
    decreases |s|
  {
    var k := Find(s, pat);
    if k == -1 then [s] else [s[..k]] + SplitOn(s[k + |pat|..], pat)
  }

  /** Python's `sep.join(parts)` for a string separator. */
  function JoinOn(parts: seq<string>, sep: string): string
    requires |parts| >= 1
  {
    if |parts| == 1 then parts[0] else parts[0] + sep + JoinOn(parts[1..], sep)
  }

  /** Joining a first piece onto more pieces puts the separator between. */
  lemma JoinOnCons(a: string, parts: seq<string>, sep: string)
    requires |parts| >= 1
    ensures JoinOn([a] + parts, sep) == a + sep + JoinOn(parts, sep)
  {
    assert ([a] + parts)[1..] == parts;
  }

  /** Splitting at a found occurrence: the text before it, then the pieces
      of the text after it. */
  lemma SplitOnFound(s: string, pat: string, k: int)
    requires |pat| > 0 && k == Find(s, pat) && k != -1
    ensures SplitOn(s, pat) == [s[..k]] + SplitOn(s[k + |pat|..], pat)
  {
  }

  /** A string is the text before an occurrence, the occurrence, and the
      text after it. */
  lemma AroundOccurrence(s: string, pat: string, k: nat)
    requires OccursAt(s, pat, k)
    ensures s == s[..k] + pat + s[k + |pat|..]
  {
    assert s == s[..k] + s[k..k + |pat|] + s[k + |pat|..];
  }

  /** Joining the pieces with the pattern gives the string back. */
  lemma {:induction false} SplitOnJoin(s: string, pat: string)
    requires |pat| > 0
    ensures JoinOn(SplitOn(s, pat), pat) == s
    decreases |s|
  {
    var k := Find(s, pat);
    if k != -1 {
      var rest := s[k + |pat|..];
      SplitOnFound(s, pat, k);
      AroundOccurrence(s, pat, k);
      SplitOnJoin(rest, pat);
      JoinOnCons(s[..k], SplitOn(rest, pat), pat);
    }
  }

  /** The pattern occurs in none of the pieces. */
  lemma {:induction false} SplitOnPiecesFree(s: string, pat: string)
    requires |pat| > 0
    ensures forall i, k :: 0 <= i < |SplitOn(s, pat)| ==> !OccursAt(SplitOn(s, pat)[i], pat, k)
    decreases |s|
  {
    var k := Find(s, pat);
    if k != -1 {
      var rest := s[k + |pat|..];
      SplitOnPiecesFree(rest, pat);
      var parts := SplitOn(s, pat);
      assert parts[0] == s[..k];
      assert parts[1..] == SplitOn(rest, pat);
      forall j | OccursAt(s[..k], pat, j) ensures false {
        OccursInPrefix(s, pat, k, j);
      }
      forall i, j | 0 < i < |parts| ensures !OccursAt(parts[i], pat, j) {
        assert parts[i] == SplitOn(rest, pat)[i - 1];
      }
    }
  }

  /** Python's identity `s.replace(pat, rep) == rep.join(s.split(pat))`:
      `ReplaceAll` agrees with a definition built from `find` alone. */
  lemma {:induction false} ReplaceIsJoinOfSplit(s: string, pat: string, rep: string)
    requires |pat| > 0
    ensures ReplaceAll(s, pat, rep) == JoinOn(SplitOn(s, pat), rep)
    decreases |s|
  {
    var k := Find(s, pat);
    if k == -1 {
      ReplaceAbsent(s, pat, rep);
    } else {
      var rest := s[k + |pat|..];
      ReplaceFirst(s, pat, rep, k);
      ReplaceIsJoinOfSplit(rest, pat, rep);
      assert SplitOn(s, pat)[1..] == SplitOn(rest, pat);
    }
  }

  /* ---------------------------------------------------------------------
     str(n)
     --------------------------------------------------------------------- */

  function DigitChar(d: nat): char
    requires d < 10
  {
    (48 + d) as char
  }

  /** Python's `str(n)` for a non-negative integer. */
  function NatToDecimal(n: nat): (r: string)
    ensures |r| >= 1
    ensures forall i :: 0 <= i < |r| ==> '0' <= r[i] <= '9'
    ensures |r| > 1 ==> r[0] != '0'
  {
    if n < 10 then [DigitChar(n)] else NatToDecimal(n / 10) + [DigitChar(n % 10)]
  }

  /** The number a string of decimal digits denotes. */
  function DecimalValue(s: string): nat
    requires forall i :: 0 <= i < |s| ==> '0' <= s[i] <= '9'
  {
    if |s| == 0 then 0
    else 10 * DecimalValue(s[..|s| - 1]) + (s[|s| - 1] as int - 48)
  }

  /** Reading back a rendered number gives the number. */
  lemma {:induction false} DecimalRoundTrip(n: nat)
    ensures DecimalValue(NatToDecimal(n)) == n
  {
    if n >= 10 {
      var r := NatToDecimal(n);
      assert r[..|r| - 1] == NatToDecimal(n / 10);
      DecimalRoundTrip(n / 10);
    }
  }

  /** Distinct numbers render to distinct strings. */
  lemma DecimalInjective(m: nat, n: nat)
    requires m != n
    ensures NatToDecimal(m) != NatToDecimal(n)
  {
    DecimalRoundTrip(m);
    DecimalRoundTrip(n);
  }
}
