/** The check the profile analyser applies to the ID typed by the user before it asks the
    platform for statistics: an empty entry is refused, then the stripped entry must match
    `^[\w-]+$` (with `\w` taken as ASCII letters, digits and underscore). */
module ProfileId {
  import opened Text

  /** `\w` on ASCII: a letter, a digit or an underscore. */
  predicate IsWordChar(c: char) {
    ('a' <= c <= 'z') || ('A' <= c <= 'Z') || ('0' <= c <= '9') || c == '_'
  }

  /** The character class `[\w-]`. */
  predicate IsIdChar(c: char) {
    IsWordChar(c) || c == '-'
  }

  predicate AllIdChars(s: string) {
    forall k | 0 <= k < |s| :: IsIdChar(s[k])
  }

  /** `^[\w-]+$` matches `s` with `[\w-]+` covering `s[..m]`: at least one character of the
      class, then `$`, which holds at the end of the string and also just before a line
      feed that ends it. */
  predicate IdPatternEndsAt(s: string, m: nat) {
    && 1 <= m <= |s|
    && (forall k | 0 <= k < m :: IsIdChar(s[k]))
    && (m == |s| || (m + 1 == |s| && s[m] == '\n'))
  }

  /** `re.match(r'^[\w-]+$', s)` succeeds. */
  predicate IdPatternMatches(s: string) {
    exists m | 0 <= m <= |s| :: IdPatternEndsAt(s, m)
  }

  /** The end of the longest run of `[\w-]` characters starting at `i`. */
  function IdRunEnd(s: string, i: nat): (n: nat)
    requires i <= |s|
    ensures i <= n <= |s|
    ensures forall k | i <= k < n :: IsIdChar(s[k])
    ensures n < |s| ==> !IsIdChar(s[n])
    decreases |s| - i
  {
    if i == |s| || !IsIdChar(s[i]) then i else IdRunEnd(s, i + 1)
  }

  /** The greedy match: take the longest run of `[\w-]` from the start, then test `$`.
      No shorter run can be followed by `$`, since the character after it belongs to the
      class and is neither the end nor a final line feed, so this is the regular
      expression's verdict. */
  function MatchIdPattern(s: string): (b: bool)
    ensures b <==> IdPatternMatches(s)
  {
    var n := IdRunEnd(s, 0);
    assert forall m | 0 <= m <= |s| && IdPatternEndsAt(s, m) :: m == n;
    if 1 <= n && (n == |s| || (n + 1 == |s| && s[n] == '\n')) then
      assert IdPatternEndsAt(s, n);
      true
    else false
  }

  /** On a string that does not end with whitespace, the pattern accepts exactly the
      non-empty strings made of `[\w-]`: the line feed that `$` tolerates cannot occur. */
  lemma MatchStripped(s: string)
    requires s != [] ==> !IsSpace(s[|s| - 1])
    ensures MatchIdPattern(s) <==> s != [] && AllIdChars(s)
  {
    if IdPatternMatches(s) {
      var m :| 0 <= m <= |s| && IdPatternEndsAt(s, m);
      assert m == |s|;
    } else if s != [] && AllIdChars(s) {
      assert IdPatternEndsAt(s, |s|);
    }
  }

  /** The pattern alone lets a final line feed through. */
  lemma PatternAllowsFinalNewline(w: string)
    requires w != [] && AllIdChars(w)
    ensures MatchIdPattern(w + "\n")
  {
    assert IdPatternEndsAt(w + "\n", |w|);
  }

  /** The outcome of checking an ID: nothing was entered, the entry is malformed, or the
      stripped entry is the ID to look up. */
  datatype IdCheck = Missing | Invalid | Accepted(id: string)

  const MissingMessage: string := "Please enter a valid ID."
  // Two literals, so that the verifier can read the message's first character.
  const InvalidMessage: string := "Invalid ID. Use alphanumeric " + "characters and hyphens only."

  /** The check the profile analyser performs on the raw entry: emptiness is tested on the
      entry as typed, the pattern on the stripped entry, and the stripped entry is the ID
      that is looked up. */
  function CheckProfileId(raw: string): (r: IdCheck)
    ensures r == Missing <==> raw == []
    ensures r.Accepted? <==> raw != [] && Strip(raw) != [] && AllIdChars(Strip(raw))
    ensures r.Accepted? ==> r.id == Strip(raw)
    ensures r.Accepted? ==> forall k | 0 <= k < |r.id| :: !IsSpace(r.id[k])
    ensures raw != [] && Strip(raw) == [] ==> r == Invalid
  {
    StripTrims(Strip(raw));
    StripTrims(raw);
    MatchStripped(Strip(raw));
    if raw == [] then Missing
    else if !MatchIdPattern(Strip(raw)) then Invalid
    else Accepted(Strip(raw))
  }

  /** The error shown for a refused entry, none for an accepted one. */
  function ErrorMessage(r: IdCheck): (m: Option<string>)
    ensures m.None? <==> r.Accepted?
    ensures r == Missing ==> m == Some(MissingMessage)
    ensures r == Invalid ==> m == Some(InvalidMessage)
  {
    match r
    case Missing => Some(MissingMessage)
    case Invalid => Some(InvalidMessage)
    case Accepted(_) => None
  }

  /** What the user sees for an entry as typed: the "enter" prompt exactly for an empty
      entry, the "Invalid ID" message exactly for a non-empty one whose stripped text is not
      a non-empty run of `[\w-]` (a whitespace-only entry included), and nothing otherwise. */
  lemma EntryMessage(raw: string)
    ensures var m := ErrorMessage(CheckProfileId(raw));
            && (m == Some(MissingMessage) <==> raw == [])
            && (m == Some(InvalidMessage) <==> raw != [] && !(Strip(raw) != [] && AllIdChars(Strip(raw))))
            && (m.None? <==> raw != [] && Strip(raw) != [] && AllIdChars(Strip(raw)))
  {
    assert MissingMessage[0] != InvalidMessage[0];
  }

  /** An accepted ID is itself accepted, unchanged, when checked again. */
  lemma AcceptedIdRevalidates(raw: string)
    requires CheckProfileId(raw).Accepted?
    ensures CheckProfileId(CheckProfileId(raw).id) == CheckProfileId(raw)
  {
    StripIdempotent(raw);
  }

  /** Whitespace around an entry that holds something else does not change the verdict. */
  lemma SurroundingSpaceIgnored(raw: string)
    requires Strip(raw) != []
    ensures CheckProfileId(raw) == CheckProfileId(Strip(raw))
  {
    StripIdempotent(raw);
  }
}
