/** The notebook reviewer (`review_notebook`): three fixed substring rules, one rule per
    long `def` line, a placeholder when nothing fires, and a fail-soft message when the
    notebook could not be read, parsed or exported. */
module NotebookReview {
  import opened Text
  import opened DefPattern

  /** What reading, parsing and exporting the uploaded notebook produced: the exported
      Python source, or the description of the exception that stopped it. */
  datatype Extraction = Source(code: string) | ExtractionError(details: string)

  // Messages longer than about 44 characters are written as two concatenated literals: the
  // verifier cannot index or measure a single literal that long, and the proofs below read
  // the messages' lengths and first characters. Each message is still one line of text.
  const PrintAdvice := "Consider updating print statements "
                     + "to Python 3 format: print()"
  const ExceptAdvice := "Consider specifying exception types "
                      + "in except clauses"
  const TodoAdvice := "Found TODO comments - "
                    + "consider addressing these tasks"
  const NoIssues := "Code looks good! No major suggestions."
  const ErrorPrefix := "Error reviewing notebook: "
  const LongDefPrefix := "Long function definition found: "
  const LongDefSuffix := "... Consider breaking into smaller functions"

  /** Definitions longer than this many characters are reported. */
  const MaxDefLength := 50
  /** How many characters of a long definition the suggestion quotes. */
  const QuoteLength := 30

  /** The suggestion for one long definition, quoting its first 30 characters. */
  function LongDefAdvice(def: string): (a: string)
    ensures StartsWith(a, LongDefPrefix)
    ensures |def| >= QuoteLength ==> StartsWith(a, LongDefPrefix + def[..QuoteLength])
  {
    LongDefPrefix + Prefix(def, QuoteLength) + LongDefSuffix
  }

  /** The suggestions of the three fixed rules, in rule order; each fires at most once. */
  function RuleAdvice(code: string): seq<string> {
    (if Contains(code, "print ") then [PrintAdvice] else [])
    + (if Contains(code, "except:") then [ExceptAdvice] else [])
    + (if Contains(code, "# TODO") then [TodoAdvice] else [])
  }

  /** The suggestions of the long-definition rule over the matched definitions, in match
      order: one per definition longer than 50 characters. */
  function LongDefAdvices(defs: seq<string>): seq<string> {
    if defs == [] then []
    else
      var last := defs[|defs| - 1];
      LongDefAdvices(defs[..|defs| - 1]) + (if |last| > MaxDefLength then [LongDefAdvice(last)] else [])
  }

  /** The suggestions for exported source text. */
  function ReviewSource(code: string): seq<string> {
    var suggestions := RuleAdvice(code) + LongDefAdvices(FindDefs(code));
    if suggestions == [] then [NoIssues] else suggestions
  }

  /** The suggestions `review_notebook` returns for an extraction result. */
  function Review(x: Extraction): seq<string> {
    match x
    case Source(code) => ReviewSource(code)
    case ExtractionError(details) => [ErrorPrefix + details]
  }

  /** `review_notebook`: the rules applied one after another to a growing list. */
  method ReviewNotebook(x: Extraction) returns (suggestions: seq<string>)
    ensures suggestions == Review(x)
  {
    if x.ExtractionError? {
      return [ErrorPrefix + x.details];
    }
    var code := x.code;
    suggestions := [];
    if Contains(code, "print ") {
      suggestions := suggestions + [PrintAdvice];
    }
    if Contains(code, "except:") {
      suggestions := suggestions + [ExceptAdvice];
    }
    if Contains(code, "# TODO") {
      suggestions := suggestions + [TodoAdvice];
    }
    ghost var fixed := suggestions;
    assert fixed == RuleAdvice(code);
    var functions := FindDefs(code);
    for i := 0 to |functions|
      invariant suggestions == fixed + LongDefAdvices(functions[..i])
    {
      LongDefAdvicesSnoc(functions, i);
      ghost var before := LongDefAdvices(functions[..i]);
      if |functions[i]| > MaxDefLength {
        AppendAssoc(fixed, before, [LongDefAdvice(functions[i])]);
        suggestions := suggestions + [LongDefAdvice(functions[i])];
      } else {
        assert before + [] == before;
      }
    }
    assert functions[..|functions|] == functions;
    if suggestions == [] {
      suggestions := [NoIssues];
    }
  }

  /** The long-definition rule applied to one more match. */
  lemma LongDefAdvicesSnoc(defs: seq<string>, i: nat)
    requires i < |defs|
    ensures LongDefAdvices(defs[..i + 1])
         == LongDefAdvices(defs[..i]) + (if |defs[i]| > MaxDefLength then [LongDefAdvice(defs[i])] else [])
  {
    var done := defs[..i + 1];
    assert done[..|done| - 1] == defs[..i] && done[|done| - 1] == defs[i];
  }

  // ---------------------------------------------------------------------------
  // Properties

  /** Every long-definition suggestion starts with its own prefix. */
  lemma {:induction false} LongDefAdvicesShape(defs: seq<string>)
    ensures forall k | 0 <= k < |LongDefAdvices(defs)| :: StartsWith(LongDefAdvices(defs)[k], LongDefPrefix)
  {
    if defs != [] {
      LongDefAdvicesShape(defs[..|defs| - 1]);
    }
  }

  /** The long-definition rule adds nothing exactly when no definition is longer than 50. */
  lemma {:induction false} LongDefAdvicesEmpty(defs: seq<string>)
    ensures LongDefAdvices(defs) == [] <==> forall i | 0 <= i < |defs| :: |defs[i]| <= MaxDefLength
  {
    if defs != [] {
      LongDefAdvicesEmpty(defs[..|defs| - 1]);
      var init := defs[..|defs| - 1];
      assert forall i | 0 <= i < |init| :: init[i] == defs[i];
    }
  }

  /** The long-definition rule works match by match, left to right: the suggestions for
      two runs of matches are those of the first followed by those of the second. */
  lemma {:induction false} LongDefAdvicesAppend(a: seq<string>, b: seq<string>)
    ensures LongDefAdvices(a + b) == LongDefAdvices(a) + LongDefAdvices(b)
    decreases |b|
  {
    if b == [] {
      assert a + b == a;
    } else {
      var b' := b[..|b| - 1];
      assert (a + b)[..|a + b| - 1] == a + b';
      LongDefAdvicesAppend(a, b');
    }
  }

  /** One match adds exactly one suggestion when it is longer than 50 characters, quoting
      its first 30 characters, and nothing otherwise. */
  lemma LongDefAdviceOne(def: string)
    ensures |def| > MaxDefLength ==> LongDefAdvices([def]) == [LongDefAdvice(def)]
    ensures |def| <= MaxDefLength ==> LongDefAdvices([def]) == []
  {
    assert [def][..0] == [];
  }

  /** The indices of the definitions longer than 50 characters, in increasing order. */
  function LongIndices(defs: seq<string>): (ix: seq<nat>)
    ensures forall k | 0 <= k < |ix| :: ix[k] < |defs| && |defs[ix[k]]| > MaxDefLength
    ensures forall k, m | 0 <= k < m < |ix| :: ix[k] < ix[m]
    ensures forall i | 0 <= i < |defs| && |defs[i]| > MaxDefLength :: i in ix
  {
    if defs == [] then []
    else
      var n := |defs| - 1;
      var init := LongIndices(defs[..n]);
      assert forall i | 0 <= i < n :: defs[..n][i] == defs[i];
      init + (if |defs[n]| > MaxDefLength then [n] else [])
  }

  /** Exactly one suggestion per long match, duplicates included: the `k`-th suggestion of
      the rule quotes the `k`-th definition longer than 50 characters. */
  lemma {:induction false} LongDefAdvicesExact(defs: seq<string>)
    ensures |LongDefAdvices(defs)| == |LongIndices(defs)|
    ensures forall k | 0 <= k < |LongIndices(defs)| ::
              LongDefAdvices(defs)[k] == LongDefAdvice(defs[LongIndices(defs)[k]])
  {
    if defs != [] {
      var n := |defs| - 1;
      var init := defs[..n];
      LongDefAdvicesExact(init);
      var adv, ix := LongDefAdvices(defs), LongIndices(defs);
      var adv', ix' := LongDefAdvices(init), LongIndices(init);
      assert adv == adv' + (if |defs[n]| > MaxDefLength then [LongDefAdvice(defs[n])] else []);
      assert ix == ix' + (if |defs[n]| > MaxDefLength then [n] else []);
      forall k | 0 <= k < |ix| ensures adv[k] == LongDefAdvice(defs[ix[k]]) {
        if k < |ix'| {
          assert adv[k] == adv'[k] && ix[k] == ix'[k];
          assert init[ix'[k]] == defs[ix'[k]];
        }
      }
    }
  }

  /** The fixed messages are pairwise different. */
  lemma FixedMessagesDistinct()
    ensures Rank(PrintAdvice) == 0 && Rank(ExceptAdvice) == 1 && Rank(TodoAdvice) == 2
    ensures NoIssues != PrintAdvice && NoIssues != ExceptAdvice && NoIssues != TodoAdvice
  {
    assert |PrintAdvice| == 62 && |ExceptAdvice| == 53 && |NoIssues| == 38;
    assert TodoAdvice[0] == 'F' && ExceptAdvice[0] == 'C' && PrintAdvice[0] == 'C';
  }

  /** A long-definition suggestion is none of the fixed messages. */
  lemma LongDefAdviceDistinct(a: string)
    requires StartsWith(a, LongDefPrefix)
    ensures Rank(a) == 3 && a != NoIssues
  {
    assert a[0] == a[..|LongDefPrefix|][0] == 'L';
    assert PrintAdvice[0] == ExceptAdvice[0] == NoIssues[0] == 'C' && TodoAdvice[0] == 'F';
  }

  /** The review never returns an empty list, and a failed extraction gives exactly one
      message carrying the failure's description. */
  lemma ReviewFailSoft(x: Extraction)
    ensures |Review(x)| >= 1
    ensures x.ExtractionError? ==> Review(x) == [ErrorPrefix + x.details]
    ensures x.ExtractionError? ==> StartsWith(Review(x)[0], "Error reviewing notebook:")
  {
  }

  /** The placeholder is returned exactly when no rule fires. */
  lemma PlaceholderIffNothingFires(code: string)
    ensures ReviewSource(code) == [NoIssues] <==>
              && !Contains(code, "print ")
              && !Contains(code, "except:")
              && !Contains(code, "# TODO")
              && forall i | 0 <= i < |FindDefs(code)| :: |FindDefs(code)[i]| <= MaxDefLength
  {
    var defs := FindDefs(code);
    LongDefAdvicesEmpty(defs);
    LongDefAdvicesShape(defs);
    var fired := RuleAdvice(code) + LongDefAdvices(defs);
    if fired != [] && |fired| == 1 {
      if RuleAdvice(code) == [] {
        assert fired[0] == LongDefAdvices(defs)[0];
        LongDefAdviceDistinct(fired[0]);
      }
      assert fired[0] != NoIssues;
    }
  }

  /** Where a suggestion ranks in the output order: the print, except and TODO rules,
      then long definitions and other messages. */
  function Rank(a: string): nat {
    if a == PrintAdvice then 0
    else if a == ExceptAdvice then 1
    else if a == TodoAdvice then 2
    else 3
  }

  /** Suggestions in rule order: print, except, TODO, then everything else; a fixed-rule
      suggestion ranks strictly below every suggestion after it. */
  predicate InRuleOrder(out: seq<string>) {
    forall i, j | 0 <= i < j < |out| ::
      && Rank(out[i]) <= Rank(out[j])
      && (Rank(out[i]) < 3 ==> Rank(out[i]) < Rank(out[j]))
  }

  /** The fixed rules fire in rule order and rank below the long-definition rule. */
  lemma RuleAdviceRanks(code: string)
    ensures forall k, m | 0 <= k < m < |RuleAdvice(code)| :: Rank(RuleAdvice(code)[k]) < Rank(RuleAdvice(code)[m])
    ensures forall k | 0 <= k < |RuleAdvice(code)| :: Rank(RuleAdvice(code)[k]) < 3
  {
    FixedMessagesDistinct();
  }

  /** Every long-definition suggestion ranks last. */
  lemma LongDefAdvicesRank(defs: seq<string>)
    ensures forall k | 0 <= k < |LongDefAdvices(defs)| :: Rank(LongDefAdvices(defs)[k]) == 3
  {
    var long := LongDefAdvices(defs);
    LongDefAdvicesShape(defs);
    forall k | 0 <= k < |long| ensures Rank(long[k]) == 3 {
      LongDefAdviceDistinct(long[k]);
    }
  }

  /** Strictly ordered low-ranked suggestions followed by last-ranked ones are in rule order. */
  lemma ConcatInRuleOrder(fixed: seq<string>, long: seq<string>)
    requires forall k, m | 0 <= k < m < |fixed| :: Rank(fixed[k]) < Rank(fixed[m])
    requires forall k | 0 <= k < |fixed| :: Rank(fixed[k]) < 3
    requires forall k | 0 <= k < |long| :: Rank(long[k]) == 3
    ensures InRuleOrder(fixed + long)
  {
    var out := fixed + long;
    assert forall k | 0 <= k < |out| :: out[k] == if k < |fixed| then fixed[k] else long[k - |fixed|];
  }

  /** Suggestions come in rule order: print, except, TODO, then every long definition, so
      each fixed rule appears at most once and before every long-definition suggestion. */
  lemma ReviewOrder(code: string)
    ensures InRuleOrder(ReviewSource(code))
  {
    RuleAdviceRanks(code);
    LongDefAdvicesRank(FindDefs(code));
    ConcatInRuleOrder(RuleAdvice(code), LongDefAdvices(FindDefs(code)));
  }

  /** Each fixed rule contributes exactly one suggestion when its text occurs, however many
      times, and none otherwise. */
  lemma FixedRulesFireOnce(code: string)
    ensures multiset(ReviewSource(code))[PrintAdvice] == if Contains(code, "print ") then 1 else 0
    ensures multiset(ReviewSource(code))[ExceptAdvice] == if Contains(code, "except:") then 1 else 0
    ensures multiset(ReviewSource(code))[TodoAdvice] == if Contains(code, "# TODO") then 1 else 0
  {
    var defs := FindDefs(code);
    var long := LongDefAdvices(defs);
    LongDefAdvicesRank(defs);
    FixedMessagesDistinct();
    assert PrintAdvice !in long && ExceptAdvice !in long && TodoAdvice !in long;
    var fixed := RuleAdvice(code);
    var out := ReviewSource(code);
    if fixed + long == [] {
      assert out == [NoIssues];
    } else {
      assert out == fixed + long;
      assert multiset(out) == multiset(fixed) + multiset(long);
    }
  }

  /** A definition cannot be longer than the source it was found in, so source of at most
      50 characters never gets a long-definition suggestion. */
  lemma ShortSourceNoLongDefs(code: string)
    requires |code| <= MaxDefLength
    ensures LongDefAdvices(FindDefs(code)) == []
  {
    var defs := FindDefs(code);
    forall i | 0 <= i < |defs| ensures |defs[i]| <= MaxDefLength {
      DefShape(code, i);
    }
    LongDefAdvicesEmpty(defs);
  }

  /** Empty source text (a notebook without code cells) gets the placeholder. */
  lemma EmptySourceLooksGood()
    ensures Review(Source("")) == [NoIssues]
  {
    assert !Contains("", "print ");
    assert !Contains("", "except:");
    assert !Contains("", "# TODO");
    assert FindDefs("") == [];
  }

  /** A pattern holding a character the text lacks does not occur in the text. */
  lemma AbsentChar(s: string, t: string, c: char)
    requires c in t && c !in s
    ensures !Contains(s, t)
  {
    var k :| 0 <= k < |t| && t[k] == c;
    forall i | 0 <= i <= |s| ensures !OccursAt(s, t, i) {
      if i + |t| <= |s| {
        assert s[i..i + |t|][k] == s[i + k] != c;
      }
    }
  }

  /** The example source below: a one-line definition followed by an old-style print. */
  const PrintExample := "def f(a):\n    print 'x'\n"

  /** `"print "` occurs in the example, after the definition line and the indent. */
  lemma PrintExampleHasPrint()
    ensures Contains(PrintExample, "print ")
  {
    var pre, word := "def f(a):\n    ", "print ";
    assert PrintExample == pre + word + "'x'\n";
    assert PrintExample[|pre|..|pre| + |word|] == word;
    assert OccursAt(PrintExample, "print ", |pre|);
  }

  /** The example holds no `c` and no `#`, so neither `"except:"` nor `"# TODO"` occurs. */
  lemma PrintExampleHasNoOtherRule()
    ensures !Contains(PrintExample, "except:") && !Contains(PrintExample, "# TODO")
  {
    assert 'c' in "except:" && 'c' !in PrintExample;
    AbsentChar(PrintExample, "except:", 'c');
    assert '#' in "# TODO" && '#' !in PrintExample;
    AbsentChar(PrintExample, "# TODO", '#');
  }

  /** That source gets exactly the print advice: it is too short for a long definition. */
  lemma PrintOnlyExample()
    ensures Review(Source("def f(a):\n    print 'x'\n")) == [PrintAdvice]
  {
    PrintExampleHasPrint();
    PrintExampleHasNoOtherRule();
    assert RuleAdvice(PrintExample) == [PrintAdvice];
    ShortSourceNoLongDefs(PrintExample);
  }
}
