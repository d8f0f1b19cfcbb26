/** What `re.findall(r'def .*\(.*\):', code)` returns, stated without a regular-expression
    engine. `.` matches any character except a line feed, so a match never crosses a line.
    At a given start the two greedy `.*` backtrack to the longest full match; `findall`
    then takes matches leftmost first, without overlap, resuming where the last one ended. */
module DefPattern {
  import opened Text

  /** A (start, end) pair of indices: the match is `code[start..end]`. */
  datatype Span = Span(start: nat, end: nat)

  /** `s[p..e]` is a full match of `def .*\(.*\):`: it reads `"def "`, then any text,
      then `(`, then any text, then `"):"`, and holds no line feed. */
  predicate IsDefMatch(s: string, p: nat, e: nat) {
    && p + 7 <= e <= |s|
    && s[p..p + 4] == "def "
    && s[e - 2] == ')' && s[e - 1] == ':'
    && (exists k | p + 4 <= k < e - 2 :: s[k] == '(')
    && (forall k | p <= k < e :: s[k] != '\n')
  }

  /** Some match of the pattern starts at `p`. */
  predicate HasMatchAt(s: string, p: nat) {
    exists e | 0 <= e <= |s| :: IsDefMatch(s, p, e)
  }

  /** The end of the line `p` is on: the first line feed at or after `p`, or `|s|`. */
  function LineEnd(s: string, p: nat): (l: nat)
    requires p <= |s|
    ensures p <= l <= |s|
    ensures forall k | p <= k < l :: s[k] != '\n'
    ensures l < |s| ==> s[l] == '\n'
    decreases |s| - p
  {
    if p == |s| || s[p] == '\n' then p else LineEnd(s, p + 1)
  }

  /** The first `(` in `s[lo..hi]`. */
  function FirstOpen(s: string, lo: nat, hi: nat): (r: Option<nat>)
    requires lo <= hi <= |s|
    ensures r.Some? ==> lo <= r.value < hi && s[r.value] == '('
    ensures r.Some? ==> forall k | lo <= k < r.value :: s[k] != '('
    ensures r.None? ==> forall k | lo <= k < hi :: s[k] != '('
    decreases hi - lo
  {
    if lo == hi then None
    else if s[lo] == '(' then Some(lo)
    else FirstOpen(s, lo + 1, hi)
  }

  /** The last `"):"` that lies entirely inside `s[lo..hi]`. */
  function LastCloseColon(s: string, lo: nat, hi: nat): (r: Option<nat>)
    requires lo <= hi <= |s|
    ensures r.Some? ==> lo <= r.value && r.value + 2 <= hi && s[r.value] == ')' && s[r.value + 1] == ':'
    ensures r.Some? ==> forall j | r.value < j && j + 2 <= hi :: !(s[j] == ')' && s[j + 1] == ':')
    ensures r.None? ==> forall j | lo <= j && j + 2 <= hi :: !(s[j] == ')' && s[j + 1] == ':')
    decreases hi - lo
  {
    if hi < lo + 2 then None
    else if s[hi - 2] == ')' && s[hi - 1] == ':' then Some(hi - 2)
    else LastCloseColon(s, lo, hi - 1)
  }

  /** Where the match starting at `p` ends, if there is one: after `"def "`, the first `(`
      on the line, then the last `"):"` on the line after it. This is the longest full
      match starting at `p`, which is the one the greedy pattern finds. */
  function MatchEnd(s: string, p: nat): (r: Option<nat>)
    requires p <= |s|
    ensures r.Some? ==> IsLongestMatch(s, p, r.value)
    ensures r.None? ==> !HasMatchAt(s, p)
  {
    if !(p + 4 <= |s| && s[p..p + 4] == "def ") then None
    else
      var l := LineEnd(s, p);
      assert s[p..p + 4][3] == ' ';
      assert l >= p + 4 by {
        assert forall k | p <= k < p + 4 :: s[k] == s[p..p + 4][k - p];
      }
      assert forall e | 0 <= e <= |s| && IsDefMatch(s, p, e) :: e <= l;
      match FirstOpen(s, p + 4, l)
      case None =>
        assert forall e | 0 <= e <= |s| :: !IsDefMatch(s, p, e);
        None
      case Some(q) =>
        assert forall e | 0 <= e <= |s| && IsDefMatch(s, p, e) :: q + 3 <= e;
        match LastCloseColon(s, q + 1, l)
        case None =>
          assert forall e | 0 <= e <= |s| :: !IsDefMatch(s, p, e);
          None
        case Some(j) =>
          assert IsDefMatch(s, p, j + 2);
          Some(j + 2)
  }

  /** `s[p..e]` is the longest full match of the pattern that starts at `p`. */
  predicate IsLongestMatch(s: string, p: nat, e: nat) {
    IsDefMatch(s, p, e) && forall e' | 0 <= e' <= |s| && IsDefMatch(s, p, e') :: e' <= e
  }

  /** Position `q` lies inside one of the spans. */
  predicate Covered(spans: seq<Span>, q: nat) {
    exists i | 0 <= i < |spans| :: spans[i].start <= q < spans[i].end
  }

  /** What `findall` promises of the spans it reports from position `p` on: each one is
      the longest match at its start, they come in increasing order without overlap, and
      every position where some match starts lies inside one of them, so no match is
      skipped except one that would overlap an earlier match. */
  predicate IsFindAll(s: string, p: nat, spans: seq<Span>) {
    && (forall i | 0 <= i < |spans| :: p <= spans[i].start && IsLongestMatch(s, spans[i].start, spans[i].end))
    && (forall i | 0 <= i < |spans| - 1 :: spans[i].end <= spans[i + 1].start)
    && (forall q | p <= q <= |s| && HasMatchAt(s, q) :: Covered(spans, q))
  }

  /** The matches `re.findall` reports when it starts scanning at `p`: at each position the
      longest match is taken and scanning resumes at its end; where none starts, scanning
      moves one character on. */
  function Scan(s: string, p: nat): (spans: seq<Span>)
    requires p <= |s|
    decreases |s| - p
  {
    if p == |s| then []
    else
      match MatchEnd(s, p)
      case Some(e) => [Span(p, e)] + Scan(s, e)
      case None => Scan(s, p + 1)
  }

  /** A longest match at `p` followed by what `findall` reports from its end is what
      `findall` reports from `p`. */
  lemma FindAllTake(s: string, p: nat, e: nat, rest: seq<Span>)
    requires p < e && IsLongestMatch(s, p, e)
    requires IsFindAll(s, e, rest)
    ensures IsFindAll(s, p, [Span(p, e)] + rest)
  {
    var spans := [Span(p, e)] + rest;
    forall q | p <= q <= |s| && HasMatchAt(s, q) ensures Covered(spans, q) {
      if q < e {
        assert spans[0].start <= q < spans[0].end;
      } else {
        var i :| 0 <= i < |rest| && rest[i].start <= q < rest[i].end;
        assert spans[i + 1] == rest[i];
      }
    }
    forall i | 0 <= i < |spans| - 1 ensures spans[i].end <= spans[i + 1].start {
      if i > 0 {
        assert spans[i] == rest[i - 1];
      }
    }
  }

  /** Where no match starts, `findall` reports what it reports from the next position. */
  lemma FindAllSkip(s: string, p: nat, rest: seq<Span>)
    requires p < |s| && !HasMatchAt(s, p)
    requires IsFindAll(s, p + 1, rest)
    ensures IsFindAll(s, p, rest)
  {
    assert forall q | p <= q <= |s| && HasMatchAt(s, q) :: p + 1 <= q;
  }

  /** Scanning is exactly the leftmost, longest, non-overlapping search `findall` performs. */
  lemma {:induction false} ScanIsFindAll(s: string, p: nat)
    requires p <= |s|
    ensures IsFindAll(s, p, Scan(s, p))
    decreases |s| - p
  {
    if p == |s| {
      assert !HasMatchAt(s, p);
    } else {
      match MatchEnd(s, p)
      case Some(e) =>
        ScanIsFindAll(s, e);
        FindAllTake(s, p, e, Scan(s, e));
      case None =>
        ScanIsFindAll(s, p + 1);
        FindAllSkip(s, p, Scan(s, p + 1));
    }
  }

  /** The spans of `re.findall(r'def .*\(.*\):', s)`. */
  function DefSpans(s: string): seq<Span> {
    Scan(s, 0)
  }

  /** The strings `re.findall(r'def .*\(.*\):', s)` returns, in order. */
  function FindDefs(s: string): seq<string> {
    var spans := DefSpans(s);
    ScanIsFindAll(s, 0);
    seq(|spans|, i requires 0 <= i < |spans| && spans[i].start <= spans[i].end <= |s| =>
      s[spans[i].start..spans[i].end])
  }

  /** The text of a full match starts with `"def "`, holds a `(` after that prefix, ends
      with `"):"`, holds no line feed and occurs in `s`. */
  lemma MatchShape(s: string, p: nat, e: nat)
    requires IsDefMatch(s, p, e)
    ensures var d := s[p..e];
            && |d| >= 7
            && d[..4] == "def "
            && d[|d| - 2..] == "):"
            && (exists k | 4 <= k < |d| - 2 :: d[k] == '(')
            && (forall k | 0 <= k < |d| :: d[k] != '\n')
            && Contains(s, d)
  {
    var d := s[p..e];
    var k :| p + 4 <= k < e - 2 && s[k] == '(';
    assert d[k - p] == '(';
    assert d[..4] == s[p..p + 4];
    assert forall k | 0 <= k < |d| :: d[k] == s[p + k];
    assert OccursAt(s, d, p);
  }

  /** Every matched definition is a piece of the code on a single line: it starts with
      `"def "`, holds a `(` after that prefix, ends with `"):"` and holds no line feed. */
  lemma DefShape(s: string, i: nat)
    requires i < |FindDefs(s)|
    ensures && i < |DefSpans(s)|
            && IsLongestMatch(s, DefSpans(s)[i].start, DefSpans(s)[i].end)
            && FindDefs(s)[i] == s[DefSpans(s)[i].start..DefSpans(s)[i].end]
    ensures var d := FindDefs(s)[i];
            && |d| >= 7
            && d[..4] == "def "
            && d[|d| - 2..] == "):"
            && (exists k | 4 <= k < |d| - 2 :: d[k] == '(')
            && (forall k | 0 <= k < |d| :: d[k] != '\n')
            && Contains(s, d)
  {
    ScanIsFindAll(s, 0);
    var sp := DefSpans(s)[i];
    MatchShape(s, sp.start, sp.end);
  }
}
