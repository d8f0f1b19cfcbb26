/** The string operations of Python's `str` that the dashboard relies on, restricted to ASCII:
    `isspace`/`strip`, `lower`, `in` (substring), `startswith`, slicing `s[:n]`,
    `s.split(sep)[0]` and `s.split()[0]`. */
module Text {

  datatype Option<+T> = None | Some(value: T)

  /** Python's `str.isspace` on ASCII: tab, line feed, vertical tab, form feed, carriage
      return, the four separators 0x1C..0x1F, and space. */
  predicate IsSpace(c: char) {
    ('\t' <= c <= '\r') || (28 <= c as int <= 31) || c == ' '
  }

  /** `t` occurs in `s` at index `i`. */
  predicate OccursAt(s: string, t: string, i: nat) {
    i + |t| <= |s| && s[i..i + |t|] == t
  }

  /** Python's `t in s`. */
  predicate Contains(s: string, t: string) {
    exists i | 0 <= i <= |s| :: OccursAt(s, t, i)
  }

  /** Python's `s.startswith(p)`. */
  predicate StartsWith(s: string, p: string) {
    |p| <= |s| && s[..|p|] == p
  }

  lemma AppendAssoc<T>(x: seq<T>, y: seq<T>, z: seq<T>)
    ensures x + (y + z) == (x + y) + z
  {
  }

  lemma ThreeSlices<T>(s: seq<T>, i: nat, j: nat)
    requires i <= j <= |s|
    ensures s == s[..i] + s[i..j] + s[j..]
  {
  }

  /** Python's `s[:n]` for `n >= 0`: the whole sequence when it is shorter than `n`. */
  function Prefix<T>(s: seq<T>, n: nat): (r: seq<T>)
    ensures |r| == if |s| <= n then |s| else n
    ensures r == s[..|r|]
  {
    if |s| <= n then s else s[..n]
  }

  function LowerChar(c: char): (d: char)
    ensures 'A' <= c <= 'Z' ==> 'a' <= d <= 'z' && d as int - c as int == 'a' as int - 'A' as int
    ensures !('A' <= c <= 'Z') ==> d == c
  {
    if 'A' <= c <= 'Z' then (c as int - 'A' as int + 'a' as int) as char else c
  }

  /** Python's `s.lower()` on ASCII letters. */
  function Lower(s: string): (r: string)
    ensures |r| == |s|
    ensures forall i | 0 <= i < |r| :: r[i] == LowerChar(s[i])
    ensures forall i | 0 <= i < |r| :: !('A' <= r[i] <= 'Z')
    ensures forall i | 0 <= i < |r| :: !('A' <= s[i] <= 'Z') ==> r[i] == s[i]
  {
    seq(|s|, i requires 0 <= i < |s| => LowerChar(s[i]))
  }

  /** Python's `s.lstrip()`. */
  function StripStart(s: string): string {
    if s != [] && IsSpace(s[0]) then StripStart(s[1..]) else s
  }

  /** Python's `s.rstrip()`. */
  function StripEnd(s: string): string {
    if s != [] && IsSpace(s[|s| - 1]) then StripEnd(s[..|s| - 1]) else s
  }

  /** `lstrip` removes a whitespace prefix and stops at the first other character. */
  lemma {:induction false} StripStartRemovesSpace(s: string)
    ensures var r := StripStart(s);
            && |r| <= |s| && r == s[|s| - |r|..]
            && (forall k | 0 <= k < |s| - |r| :: IsSpace(s[k]))
            && (r != [] ==> !IsSpace(r[0]))
  {
    if s != [] && IsSpace(s[0]) {
      var r := StripStart(s[1..]);
      StripStartRemovesSpace(s[1..]);
      assert r == StripStart(s);
      assert s[1..][|s| - 1 - |r|..] == s[|s| - |r|..];
      assert forall k | 1 <= k < |s| - |r| :: s[k] == s[1..][k - 1];
    }
  }

  /** `rstrip` removes a whitespace suffix and stops at the last other character. */
  lemma {:induction false} StripEndRemovesSpace(s: string)
    ensures var r := StripEnd(s);
            && |r| <= |s| && r == s[..|r|]
            && (forall k | |r| <= k < |s| :: IsSpace(s[k]))
            && (r != [] ==> !IsSpace(r[|r| - 1]))
  {
    if s != [] && IsSpace(s[|s| - 1]) {
      var r := StripEnd(s[..|s| - 1]);
      StripEndRemovesSpace(s[..|s| - 1]);
      assert r == StripEnd(s);
      assert s[..|s| - 1][..|r|] == s[..|r|];
    }
  }

  /** `s` is `r` surrounded by whitespace, `r` starting at index `i`. */
  predicate Trims(s: string, r: string, i: nat) {
    && i + |r| <= |s|
    && s[i..i + |r|] == r
    && (forall k | 0 <= k < i :: IsSpace(s[k]))
    && (forall k | i + |r| <= k < |s| :: IsSpace(s[k]))
  }

  /** Python's `s.strip()`. */
  function Strip(s: string): string {
    StripEnd(StripStart(s))
  }

  /** `strip` removes whitespace only, from both ends: `s` is `Strip(s)` with whitespace on
      either side, and `Strip(s)` neither starts nor ends with whitespace. */
  lemma StripTrims(s: string)
    ensures exists i | 0 <= i <= |s| :: Trims(s, Strip(s), i)
    ensures Strip(s) != [] ==> !IsSpace(Strip(s)[0]) && !IsSpace(Strip(s)[|Strip(s)| - 1])
  {
    var t := StripStart(s);
    var r := StripEnd(t);
    StripStartRemovesSpace(s);
    StripEndRemovesSpace(t);
    assert s[|s| - |t|..][..|r|] == s[|s| - |t|..|s| - |t| + |r|];
    assert forall k | |s| - |t| + |r| <= k < |s| :: s[k] == t[k - (|s| - |t|)];
    assert r == Strip(s) && Trims(s, r, |s| - |t|);
  }

  /** A string that neither starts nor ends with whitespace is left alone by `strip`. */
  lemma StripTrimmed(s: string)
    requires s != [] ==> !IsSpace(s[0]) && !IsSpace(s[|s| - 1])
    ensures Strip(s) == s
  {
    assert StripStart(s) == s;
    assert StripEnd(s) == s;
  }

  /** `strip` is idempotent. */
  lemma StripIdempotent(s: string)
    ensures Strip(Strip(s)) == Strip(s)
  {
    StripTrims(s);
    StripTrimmed(Strip(s));
  }

  /** The first index at or after `from` where `t` occurs in `s`. */
  function FindFrom(s: string, t: string, from: nat): (r: Option<nat>)
    requires from <= |s|
    ensures r.Some? ==> from <= r.value <= |s| && OccursAt(s, t, r.value)
    ensures r.Some? ==> forall i | from <= i < r.value :: !OccursAt(s, t, i)
    ensures r.None? ==> forall i | from <= i <= |s| :: !OccursAt(s, t, i)
    decreases |s| - from
  {
    if OccursAt(s, t, from) then Some(from)
    else if from == |s| then None
    else FindFrom(s, t, from + 1)
  }

  /** Python's `s.split(sep)[0]` for a non-empty `sep`: everything before the first
      occurrence of `sep`, or `s` itself when `sep` does not occur. */
  function BeforeFirst(s: string, sep: string): (r: string)
    requires sep != []
    ensures StartsWith(s, r)
    ensures !Contains(r, sep)
    ensures forall j | 0 <= j < |r| :: !OccursAt(s, sep, j)
    ensures Contains(s, sep) <==> OccursAt(s, sep, |r|)
    ensures !Contains(s, sep) ==> r == s
  {
    match FindFrom(s, sep, 0)
    case None => s
    case Some(i) =>
      assert forall j | 0 <= j <= i && OccursAt(s[..i], sep, j) :: OccursAt(s, sep, j) by {
        forall j | 0 <= j <= i && OccursAt(s[..i], sep, j) ensures OccursAt(s, sep, j) {
          assert s[..i][j..j + |sep|] == s[j..j + |sep|];
        }
      }
      s[..i]
  }

  /** The longest prefix of `s` without whitespace. */
  function TakeWord(s: string): (r: string)
    ensures StartsWith(s, r)
    ensures forall k | 0 <= k < |r| :: !IsSpace(r[k])
    ensures |r| < |s| ==> IsSpace(s[|r|])
  {
    if s == [] || IsSpace(s[0]) then [] else [s[0]] + TakeWord(s[1..])
  }

  /** Python's `s.split()[0]`: the first maximal run of non-whitespace characters.
      Python raises an error when `s` holds no such run; this returns the empty string
      there, a case the question generator never reaches. */
  function FirstWord(s: string): (r: string)
    ensures forall k | 0 <= k < |r| :: !IsSpace(r[k])
    ensures r == [] <==> forall k | 0 <= k < |s| :: IsSpace(s[k])
    ensures exists n | 0 <= n <= |s| - |r| ::
              && (forall k | 0 <= k < n :: IsSpace(s[k]))
              && s[n..n + |r|] == r
              && (n < |s| ==> !IsSpace(s[n]))
              && (n + |r| < |s| ==> IsSpace(s[n + |r|]))
  {
    StripStartRemovesSpace(s);
    var rest := StripStart(s);
    var n := |s| - |rest|;
    var r := TakeWord(rest);
    assert s[n..n + |r|] == rest[..|r|];
    assert n + |r| < |s| ==> s[n + |r|] == rest[|r|];
    r
  }

  /** The longest whitespace-free prefix of `w + " " + rest` is `w` when `w` has no whitespace. */
  lemma {:induction false} TakeWordOf(s: string, w: string)
    requires forall k | 0 <= k < |w| :: !IsSpace(w[k])
    requires StartsWith(s, w + " ")
    ensures TakeWord(s) == w
  {
    if w == [] {
      assert s[0] == ' ';
    } else {
      assert s[0] == w[0];
      assert StartsWith(s[1..], w[1..] + " ") by {
        assert s[1..][..|w[1..] + " "|] == s[..|w + " "|][1..];
      }
      TakeWordOf(s[1..], w[1..]);
    }
  }

  /** The first word of a string that starts with the word `w` followed by a space is `w`. */
  lemma FirstWordOf(s: string, w: string)
    requires w != [] && forall k | 0 <= k < |w| :: !IsSpace(w[k])
    requires StartsWith(s, w + " ")
    ensures FirstWord(s) == w
  {
    assert s[0] == w[0];
    assert StripStart(s) == s;
    TakeWordOf(s, w);
  }
}
