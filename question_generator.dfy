/** The rule-based question generator (`generate_questions`): the text is split into
    sentences at runs of `.`, `!` and `?`, each non-empty stripped sentence gets one
    templated question, and at most 20 questions are returned. */
module QuestionGenerator {
  import opened Text

  // Two literals, so that the verifier can read the message's first character.
  const NoQuestions := "No questions could be generated "
                     + "from the text."
  /** At most this many questions are returned. */
  const MaxQuestions := 20
  /** How many characters of a sentence the fallback template quotes. */
  const QuoteLength := 30

  /** The prefixes that make a sentence a "what did ... do" question, in the source's order. */
  const PronounPrefixes := ["He ", "She ", "It ", "They ", "We ", "I "]

  const DidPrefix := "What did "
  const WhyPrefix := "Why "
  const ContextPrefix := "What is the context of '"

  // ---------------------------------------------------------------------------
  // Splitting into sentences: re.split(r'[.!?]+', text)

  predicate IsDelimiter(c: char) {
    c == '.' || c == '!' || c == '?'
  }

  predicate NoDelimiter(s: string) {
    forall k | 0 <= k < |s| :: !IsDelimiter(s[k])
  }

  /** The first delimiter at or after `from`, or `|s|`. */
  function FirstDelimiter(s: string, from: nat): (i: nat)
    requires from <= |s|
    ensures from <= i <= |s|
    ensures i < |s| ==> IsDelimiter(s[i])
    decreases |s| - from
  {
    if from == |s| || IsDelimiter(s[from]) then from else FirstDelimiter(s, from + 1)
  }

  /** No delimiter comes before the first one. */
  lemma {:induction false} FirstDelimiterIsFirst(s: string, from: nat)
    requires from <= |s|
    ensures forall k | from <= k < FirstDelimiter(s, from) :: !IsDelimiter(s[k])
    decreases |s| - from
  {
    if from < |s| && !IsDelimiter(s[from]) {
      FirstDelimiterIsFirst(s, from + 1);
    }
  }

  /** The end of the run of delimiters that starts at `from`. */
  function RunEnd(s: string, from: nat): (j: nat)
    requires from <= |s|
    ensures from <= j <= |s|
    ensures j < |s| ==> !IsDelimiter(s[j])
    decreases |s| - from
  {
    if from < |s| && IsDelimiter(s[from]) then RunEnd(s, from + 1) else from
  }

  /** Everything in a run is a delimiter. */
  lemma {:induction false} RunEndIsRun(s: string, from: nat)
    requires from <= |s|
    ensures forall k | from <= k < RunEnd(s, from) :: IsDelimiter(s[k])
    decreases |s| - from
  {
    if from < |s| && IsDelimiter(s[from]) {
      RunEndIsRun(s, from + 1);
    }
  }

  /** `re.split(r'[.!?]+', s)`: the pieces between maximal runs of delimiters, including the
      empty piece before a leading run and after a trailing one. */
  function SplitOnRuns(s: string): (parts: seq<string>)
    ensures |parts| >= 1
    decreases |s|
  {
    var i := FirstDelimiter(s, 0);
    if i == |s| then [s] else [s[..i]] + SplitOnRuns(s[RunEnd(s, i)..])
  }

  /** No piece holds a delimiter. */
  lemma {:induction false} SplitPartsHaveNoDelimiter(s: string)
    ensures forall k | 0 <= k < |SplitOnRuns(s)| :: NoDelimiter(SplitOnRuns(s)[k])
    decreases |s|
  {
    var i := FirstDelimiter(s, 0);
    FirstDelimiterIsFirst(s, 0);
    if i < |s| {
      var rest := s[RunEnd(s, i)..];
      SplitPartsHaveNoDelimiter(rest);
      var parts := SplitOnRuns(s);
      assert parts == [s[..i]] + SplitOnRuns(rest);
      assert forall k | 1 <= k < |parts| :: parts[k] == SplitOnRuns(rest)[k - 1];
    }
  }

  /** The characters of `s` that are not delimiters, in order. */
  function RemoveDelimiters(s: string): string {
    if s == [] then []
    else (if IsDelimiter(s[0]) then [] else [s[0]]) + RemoveDelimiters(s[1..])
  }

  function Concat(parts: seq<string>): string {
    if parts == [] then [] else parts[0] + Concat(parts[1..])
  }

  lemma {:induction false} RemoveDelimitersAppend(a: string, b: string)
    ensures RemoveDelimiters(a + b) == RemoveDelimiters(a) + RemoveDelimiters(b)
  {
    if a != [] {
      assert (a + b)[0] == a[0] && (a + b)[1..] == a[1..] + b;
      RemoveDelimitersAppend(a[1..], b);
    } else {
      assert a + b == b;
    }
  }

  lemma {:induction false} RemoveDelimitersNone(s: string)
    requires NoDelimiter(s)
    ensures RemoveDelimiters(s) == s
  {
    if s != [] {
      RemoveDelimitersNone(s[1..]);
    }
  }

  lemma {:induction false} RemoveDelimitersAll(s: string)
    requires forall k | 0 <= k < |s| :: IsDelimiter(s[k])
    ensures RemoveDelimiters(s) == []
  {
    if s != [] {
      RemoveDelimitersAll(s[1..]);
    }
  }

  /** Removing delimiters from a delimiter-free head, a run of delimiters and a rest. */
  lemma RemoveDelimitersRun(head: string, run: string, rest: string)
    requires NoDelimiter(head)
    requires forall k | 0 <= k < |run| :: IsDelimiter(run[k])
    ensures RemoveDelimiters(head + run + rest) == head + RemoveDelimiters(rest)
  {
    calc {
      RemoveDelimiters(head + run + rest);
      { RemoveDelimitersAppend(head + run, rest); }
      RemoveDelimiters(head + run) + RemoveDelimiters(rest);
      { RemoveDelimitersAppend(head, run); }
      RemoveDelimiters(head) + RemoveDelimiters(run) + RemoveDelimiters(rest);
      { RemoveDelimitersNone(head); RemoveDelimitersAll(run); }
      head + [] + RemoveDelimiters(rest);
    }
  }

  /** The split of `s` is the piece before its first delimiter, then the split of what
      follows the run that delimiter starts. */
  lemma SplitAt(s: string, i: nat, j: nat)
    requires i == FirstDelimiter(s, 0) && i < |s| && j == RunEnd(s, i)
    ensures SplitOnRuns(s) == [s[..i]] + SplitOnRuns(s[j..])
    ensures Concat(SplitOnRuns(s)) == s[..i] + Concat(SplitOnRuns(s[j..]))
  {
    assert ([s[..i]] + SplitOnRuns(s[j..]))[1..] == SplitOnRuns(s[j..]);
  }

  /** Splitting loses only the delimiters: the pieces, put back together, are the text with
      every `.`, `!` and `?` removed. */
  lemma {:induction false} SplitKeepsText(s: string)
    ensures Concat(SplitOnRuns(s)) == RemoveDelimiters(s)
    decreases |s|
  {
    var i := FirstDelimiter(s, 0);
    FirstDelimiterIsFirst(s, 0);
    if i == |s| {
      RemoveDelimitersNone(s);
      assert Concat([s]) == s + Concat([]);
    } else {
      var j := RunEnd(s, i);
      RunEndIsRun(s, i);
      SplitKeepsText(s[j..]);
      SplitAt(s, i, j);
      ThreeSlices(s, i, j);
      RemoveDelimitersRun(s[..i], s[i..j], s[j..]);
    }
  }

  // ---------------------------------------------------------------------------
  // Sentences: each piece stripped, empty ones dropped

  /** The sentence a piece contributes: the piece stripped, unless that leaves nothing. */
  function SentenceOf(part: string): seq<string> {
    var sentence := Strip(part);
    if sentence == [] then [] else [sentence]
  }

  /** The stripped, non-empty pieces, in order. */
  function Sentences(parts: seq<string>): seq<string> {
    if parts == [] then []
    else Sentences(parts[..|parts| - 1]) + SentenceOf(parts[|parts| - 1])
  }

  /** Sentences are collected piece by piece, left to right. */
  lemma {:induction false} SentencesAppend(p: seq<string>, q: seq<string>)
    ensures Sentences(p + q) == Sentences(p) + Sentences(q)
    decreases |q|
  {
    if q == [] {
      assert p + q == p;
    } else {
      var q', last := q[..|q| - 1], q[|q| - 1];
      assert (p + q)[..|p + q| - 1] == p + q' && (p + q)[|p + q| - 1] == last;
      SentencesAppend(p, q');
    }
  }

  /** Sentences of one more piece. */
  lemma SentencesSnoc(parts: seq<string>, i: nat)
    requires i < |parts|
    ensures Sentences(parts[..i + 1]) == Sentences(parts[..i]) + SentenceOf(parts[i])
  {
    var done := parts[..i + 1];
    assert done[..|done| - 1] == parts[..i] && done[|done| - 1] == parts[i];
  }

  /** A piece that is empty after stripping contributes no sentence. */
  lemma SentencesSkipBlank(part: string, rest: seq<string>)
    requires Strip(part) == []
    ensures Sentences([part] + rest) == Sentences(rest)
  {
    SentencesAppend([part], rest);
    assert [part][..0] == [];
  }

  /** Splitting at every single delimiter, the reference for `SplitOnRuns`. */
  function Pieces(s: string): (parts: seq<string>)
    decreases |s|
  {
    var i := FirstDelimiter(s, 0);
    if i == |s| then [s] else [s[..i]] + Pieces(s[i + 1..])
  }

  /** The first piece, up to the first delimiter, and the pieces after it. */
  lemma PiecesAt(s: string, i: nat)
    requires i == FirstDelimiter(s, 0) && i < |s|
    ensures Pieces(s) == [s[..i]] + Pieces(s[i + 1..])
  {
  }

  /** A leading delimiter only adds an empty piece. */
  lemma LeadingDelimiterAddsNothing(t: string)
    requires t != [] && IsDelimiter(t[0])
    ensures Sentences(Pieces(t)) == Sentences(Pieces(t[1..]))
  {
    assert FirstDelimiter(t, 0) == 0;
    assert Pieces(t) == [t[..0]] + Pieces(t[1..]);
    assert Strip(t[..0]) == [];
    SentencesSkipBlank(t[..0], Pieces(t[1..]));
  }

  /** A run of delimiters from `from` to `to` only adds empty pieces. */
  lemma {:induction false} LeadingRunAddsNothing(s: string, from: nat, to: nat)
    requires from <= to <= |s|
    requires forall k | from <= k < to :: IsDelimiter(s[k])
    ensures Sentences(Pieces(s[from..])) == Sentences(Pieces(s[to..]))
    decreases |s| - from
  {
    if from < to {
      var t := s[from..];
      assert t[0] == s[from] && t[1..] == s[from + 1..];
      LeadingDelimiterAddsNothing(t);
      LeadingRunAddsNothing(s, from + 1, to);
    }
  }

  /** The sentences of the pieces of `s` are those of the piece before its first delimiter,
      then those of the pieces after the run that delimiter starts. */
  lemma PiecesSkipRun(s: string, i: nat, j: nat)
    requires i == FirstDelimiter(s, 0) && i < |s| && j == RunEnd(s, i)
    ensures Sentences(Pieces(s)) == Sentences([s[..i]]) + Sentences(Pieces(s[j..]))
  {
    PiecesAt(s, i);
    SentencesAppend([s[..i]], Pieces(s[i + 1..]));
    RunEndIsRun(s, i);
    LeadingRunAddsNothing(s, i + 1, j);
  }

  /** The same for the split at runs. */
  lemma SplitSkipRun(s: string, i: nat, j: nat)
    requires i == FirstDelimiter(s, 0) && i < |s| && j == RunEnd(s, i)
    ensures Sentences(SplitOnRuns(s)) == Sentences([s[..i]]) + Sentences(SplitOnRuns(s[j..]))
  {
    SentencesAppend([s[..i]], SplitOnRuns(s[j..]));
  }

  /** Splitting at runs and splitting at each delimiter give the same sentences: the
      grouping into runs only changes how many empty pieces appear. */
  lemma {:induction false} RunsDoNotMatter(s: string)
    ensures Sentences(SplitOnRuns(s)) == Sentences(Pieces(s))
    decreases |s|
  {
    var i := FirstDelimiter(s, 0);
    if i < |s| {
      var j := RunEnd(s, i);
      RunsDoNotMatter(s[j..]);
      SplitSkipRun(s, i, j);
      PiecesSkipRun(s, i, j);
    }
  }

  /** The first delimiter of `a + [d] + b` is the first one of `a`, or `d` itself. */
  lemma FirstDelimiterJoin(a: string, d: char, b: string)
    requires IsDelimiter(d)
    ensures FirstDelimiter(a + [d] + b, 0) == FirstDelimiter(a, 0)
  {
    var s := a + [d] + b;
    var i := FirstDelimiter(a, 0);
    var i' := FirstDelimiter(s, 0);
    FirstDelimiterIsFirst(s, 0);
    FirstDelimiterIsFirst(a, 0);
    assert forall k | 0 <= k < |a| :: s[k] == a[k];
    assert s[|a|] == d;
    assert i' <= i;
  }

  /** The pieces of `a + [d] + b` when `a` holds no delimiter: `a`, then the pieces of `b`. */
  lemma PiecesJoinFirst(a: string, d: char, b: string)
    requires IsDelimiter(d) && FirstDelimiter(a, 0) == |a|
    ensures Pieces(a + [d] + b) == Pieces(a) + Pieces(b)
  {
    var s := a + [d] + b;
    FirstDelimiterJoin(a, d, b);
    assert s[..|a|] == a && s[|a| + 1..] == b;
  }

  /** Slicing `a + [d] + b` around an index inside `a`. */
  lemma JoinSlices(a: string, d: char, b: string, i: nat)
    requires i < |a|
    ensures (a + [d] + b)[..i] == a[..i]
    ensures (a + [d] + b)[i + 1..] == a[i + 1..] + [d] + b
  {
  }

  /** When `a` has its first delimiter at `i`, so does `a + [d] + b`. */
  lemma PiecesJoinHead(a: string, d: char, b: string, i: nat)
    requires IsDelimiter(d) && i == FirstDelimiter(a, 0) && i < |a|
    ensures Pieces(a + [d] + b) == [a[..i]] + Pieces(a[i + 1..] + [d] + b)
  {
    FirstDelimiterJoin(a, d, b);
    PiecesAt(a + [d] + b, i);
    JoinSlices(a, d, b, i);
  }

  /** The pieces of `a + [d] + b` when `a` has a delimiter at `i`: the piece before it,
      then the pieces of the rest of `a` joined to `b`. */
  lemma PiecesJoinLater(a: string, d: char, b: string, i: nat)
    requires IsDelimiter(d) && i == FirstDelimiter(a, 0) && i < |a|
    requires Pieces(a + [d] + b) == [a[..i]] + Pieces(a[i + 1..] + [d] + b)
    requires Pieces(a[i + 1..] + [d] + b) == Pieces(a[i + 1..]) + Pieces(b)
    ensures Pieces(a + [d] + b) == Pieces(a) + Pieces(b)
  {
    PiecesAt(a, i);
    AppendAssoc([a[..i]], Pieces(a[i + 1..]), Pieces(b));
  }

  /** Pieces of text joined by a delimiter are the pieces of each side. */
  lemma {:induction false} PiecesAppend(a: string, d: char, b: string)
    requires IsDelimiter(d)
    ensures Pieces(a + [d] + b) == Pieces(a) + Pieces(b)
    decreases |a|
  {
    var i := FirstDelimiter(a, 0);
    if i == |a| {
      PiecesJoinFirst(a, d, b);
    } else {
      PiecesAppend(a[i + 1..], d, b);
      PiecesJoinHead(a, d, b, i);
      PiecesJoinLater(a, d, b, i);
    }
  }

  /** The sentences of two texts joined by a delimiter are the sentences of the first
      followed by those of the second. */
  lemma SentencesOfJoin(a: string, d: char, b: string)
    requires IsDelimiter(d)
    ensures Sentences(SplitOnRuns(a + [d] + b)) == Sentences(SplitOnRuns(a)) + Sentences(SplitOnRuns(b))
  {
    RunsDoNotMatter(a + [d] + b);
    RunsDoNotMatter(a);
    RunsDoNotMatter(b);
    PiecesAppend(a, d, b);
    SentencesAppend(Pieces(a), Pieces(b));
  }

  // ---------------------------------------------------------------------------
  // One question per sentence

  predicate StartsWithPronoun(sentence: string) {
    exists k | 0 <= k < |PronounPrefixes| :: StartsWith(sentence, PronounPrefixes[k])
  }

  /** Whether "is", "are", "was" or "were" occurs anywhere in the (lower-cased) sentence. */
  predicate HasCopula(lowered: string) {
    Contains(lowered, "is") || Contains(lowered, "are") || Contains(lowered, "was") || Contains(lowered, "were")
  }

  /** The question for one sentence. */
  function Question(sentence: string): string {
    if StartsWithPronoun(sentence) then
      DidPrefix + Lower(FirstWord(sentence)) + " do?"
    else if HasCopula(Lower(sentence)) then
      WhyPrefix + BeforeFirst(Lower(sentence), " is ") + "?"
    else
      ContextPrefix + Prefix(sentence, QuoteLength) + "...'?"
  }

  function QuestionsOf(sentences: seq<string>): (qs: seq<string>) {
    seq(|sentences|, k requires 0 <= k < |sentences| => Question(sentences[k]))
  }

  /** One more sentence adds its question at the end. */
  lemma QuestionsOfSnoc(sentences: seq<string>, sentence: string)
    ensures QuestionsOf(sentences + [sentence]) == QuestionsOf(sentences) + [Question(sentence)]
  {
  }

  /** The questions `generate_questions` returns. */
  function Questions(text: string): seq<string> {
    var qs := QuestionsOf(Sentences(SplitOnRuns(text)));
    if qs == [] then [NoQuestions] else Prefix(qs, MaxQuestions)
  }

  /** `generate_questions`: one pass over the split text, appending a question for each
      non-empty stripped piece. */
  method GenerateQuestions(text: string) returns (questions: seq<string>)
    ensures questions == Questions(text)
  {
    var sentences := SplitOnRuns(text);
    var qs: seq<string> := [];
    for i := 0 to |sentences|
      invariant qs == QuestionsOf(Sentences(sentences[..i]))
    {
      SentencesSnoc(sentences, i);
      var sentence := Strip(sentences[i]);
      if sentence == [] {
        assert Sentences(sentences[..i + 1]) == Sentences(sentences[..i]) + [];
        continue;
      }
      QuestionsOfSnoc(Sentences(sentences[..i]), sentence);
      qs := qs + [Question(sentence)];
    }
    assert sentences[..|sentences|] == sentences;
    questions := if qs != [] then Prefix(qs, MaxQuestions) else [NoQuestions];
  }

  // ---------------------------------------------------------------------------
  // Properties

  /** One question per sentence, in order, at most 20 of them; exactly the placeholder
      when the text holds no sentence. So there are always between 1 and 20. */
  lemma QuestionPerSentence(text: string)
    ensures var ss, qs := Sentences(SplitOnRuns(text)), Questions(text);
            && 1 <= |qs| <= MaxQuestions
            && (ss == [] <==> qs == [NoQuestions])
            && (ss != [] ==> |qs| == (if |ss| < MaxQuestions then |ss| else MaxQuestions))
            && (ss != [] ==> forall k | 0 <= k < |qs| :: qs[k] == Question(ss[k]))
  {
    var ss := Sentences(SplitOnRuns(text));
    if ss != [] {
      QuestionIsNotPlaceholder(ss[0]);
    }
  }

  /** Every template opens with "W", the placeholder with "N", so no question is the placeholder. */
  lemma QuestionIsNotPlaceholder(sentence: string)
    ensures Question(sentence) != NoQuestions
  {
    assert NoQuestions[0] == 'N';
    assert DidPrefix[0] == WhyPrefix[0] == ContextPrefix[0] == 'W';
    assert Question(sentence)[0] == 'W';
  }

  /** A sentence opening with one of the pronoun prefixes asks what that pronoun did. */
  lemma PronounQuestion(sentence: string, k: nat)
    requires k < |PronounPrefixes| && StartsWith(sentence, PronounPrefixes[k])
    ensures var p := PronounPrefixes[k];
            Question(sentence) == DidPrefix + Lower(p[..|p| - 1]) + " do?"
  {
    var p := PronounPrefixes[k];
    var w := p[..|p| - 1];
    assert w + " " == p;
    assert forall m | 0 <= m < |w| :: !IsSpace(w[m]);
    FirstWordOf(sentence, w);
  }

  /** The "why" question quotes the lower-cased sentence up to its first " is ". */
  lemma WhyQuestion(sentence: string)
    requires !StartsWithPronoun(sentence) && HasCopula(Lower(sentence))
    ensures exists r :: && Question(sentence) == WhyPrefix + r + "?"
                        && StartsWith(Lower(sentence), r)
                        && !Contains(r, " is ")
                        && (forall j | 0 <= j < |r| :: !OccursAt(Lower(sentence), " is ", j))
                        && (Contains(Lower(sentence), " is ") <==> OccursAt(Lower(sentence), " is ", |r|))
                        && (!Contains(Lower(sentence), " is ") ==> r == Lower(sentence))
  {
    var r := BeforeFirst(Lower(sentence), " is ");
    assert Question(sentence) == WhyPrefix + r + "?";
  }

  /** The fallback question quotes at most the first 30 characters of the sentence. */
  lemma ContextQuestion(sentence: string)
    requires !StartsWithPronoun(sentence) && !HasCopula(Lower(sentence))
    ensures exists r :: && Question(sentence) == ContextPrefix + r + "...'?"
                        && r == sentence[..|r|]
                        && |r| == (if |sentence| < QuoteLength then |sentence| else QuoteLength)
  {
    var r := Prefix(sentence, QuoteLength);
    assert Question(sentence) == ContextPrefix + r + "...'?";
  }

  /** The template a question was made from can be read off its opening words: the three
      rules are tried in order and each one's questions start differently. */
  lemma TemplateOrder(sentence: string)
    ensures StartsWith(Question(sentence), DidPrefix) <==> StartsWithPronoun(sentence)
    ensures StartsWith(Question(sentence), WhyPrefix) <==>
              !StartsWithPronoun(sentence) && HasCopula(Lower(sentence))
    ensures StartsWith(Question(sentence), ContextPrefix) <==>
              !StartsWithPronoun(sentence) && !HasCopula(Lower(sentence))
  {
    var q := Question(sentence);
    assert DidPrefix[2] == 'a' && DidPrefix[5] == 'd';
    assert WhyPrefix[2] == 'y';
    assert ContextPrefix[2] == 'a' && ContextPrefix[5] == 'i';
    if StartsWith(q, DidPrefix) {
      assert q[2] == 'a' && q[5] == 'd';
    }
    if StartsWith(q, WhyPrefix) {
      assert q[2] == 'y';
    }
    if StartsWith(q, ContextPrefix) {
      assert q[2] == 'a' && q[5] == 'i';
    }
  }
}
