/** The two cue tables of the classifier and the matcher built from each:
    a case-insensitive search for any of the table's phrases, anchored at
    word boundaries on both sides, that reports the leftmost position at
    which some phrase occurs (what `re.search(...).start()` returns for an
    alternation of `\bphrase\b` patterns). */
module Cues {
  import opened Text

  datatype Option<T> = None | Some(value: T)

  /** The obligation patterns, each regular-expression optional group
      written out as the phrases it admits, in table order. */
  const ObligationPhrases: seq<string> := [
    "must",                                       // 0
    "shall",                                      // 1
    "is required to",                             // 2
    "has to",                                     // 3
    "needs to",                                   // 4
    "agrees to", "agreed to",                     // 5, 6   agree(?:s|d) to
    "obligated to",                               // 7
    "obligation to",                              // 8
    "promises to", "promised to", "promise to",   // 9-11   promise(?:s|d)? to
    "pays", "payed", "pay",                       // 12-14  pay(?:s|ed)?
    "responsible for",                            // 15
    "commits to", "committed to", "commit to",    // 16-18  commit(?:s|ted)? to
    "supposed to",                                // 19
    "fails to", "failed to", "fail to",           // 20-22  fail(?:s|ed)? to
    "repay",                                      // 23
    "borrower is liable",                         // 24
    "gotta",                                      // 25
    "needs to", "needed to", "need to",           // 26-28  need(?:s|ed)? to
    "should",                                     // 29
    "ought to",                                   // 30
    "will give",                                  // 31
    "did not give",                               // 32
    "told",                                       // 33
    "make the payment",                           // 34
    "make payment",                               // 35
    "pay",                                        // 36
    "refused to repair",                          // 37
    "repair",                                     // 38
    "replace"                                     // 39
  ]

  /** The rights patterns, in table order. */
  const RightsPhrases: seq<string> := [
    "is entitled to",                             // 0
    "has the right to",                           // 1
    "have the right to",                          // 2
    "may",                                        // 3
    "can",                                        // 4
    "is allowed to",                              // 5
    "permitted to",                               // 6
    "able to",                                    // 7
    "allowed to",                                 // 8
    "receive",                                    // 9
    "warranty"                                    // 10
  ]

  /** `\b` at offset `i`: exactly one of the characters on either side is a
      word character, the outside of the string counting as non-word. */
  predicate WordBoundary(s: string, i: nat)
    requires i <= |s|
  {
    (i > 0 && IsWordChar(s[i - 1])) != (i < |s| && IsWordChar(s[i]))
  }

  /** `\bp\b` matches `s` at offset `i`, ignoring ASCII case. */
  predicate OccursAt(s: string, p: string, i: nat) {
    i + |p| <= |s|
    && WordBoundary(s, i)
    && Lower(s[i..i + |p|]) == Lower(p)
    && WordBoundary(s, i + |p|)
  }

  /** The alternation of all `phrases` matches `s` at offset `i`. */
  predicate MatchesAt(s: string, phrases: seq<string>, i: nat) {
    exists k | 0 <= k < |phrases| :: OccursAt(s, phrases[k], i)
  }

  /** Some phrase of the table occurs somewhere in `s`. */
  predicate HasCue(s: string, phrases: seq<string>) {
    exists i: nat | i <= |s| :: MatchesAt(s, phrases, i)
  }

  /** `start` is the leftmost offset at which the alternation matches. */
  ghost predicate IsLeftmostCue(s: string, phrases: seq<string>, start: nat) {
    start <= |s|
    && MatchesAt(s, phrases, start)
    && forall j: nat :: j < start ==> !MatchesAt(s, phrases, j)
  }

  /** Scan offsets from `i` upwards for the first match. */
  function SearchFrom(s: string, phrases: seq<string>, i: nat): (r: Option<nat>)
    decreases |s| + 1 - i
    ensures r.Some? ==> i <= r.value <= |s| && MatchesAt(s, phrases, r.value)
    ensures r.Some? ==> forall j: nat :: i <= j < r.value ==> !MatchesAt(s, phrases, j)
    ensures r.None? ==> forall j: nat :: i <= j <= |s| ==> !MatchesAt(s, phrases, j)
  {
    if i > |s| then None
    else if MatchesAt(s, phrases, i) then Some(i)
    else SearchFrom(s, phrases, i + 1)
  }

  /** The start offset of `re.search` with the alternation of `phrases`, or
      None when it finds nothing. */
  function Search(s: string, phrases: seq<string>): (r: Option<nat>)
    ensures r.Some? <==> HasCue(s, phrases)
    ensures r.Some? ==> IsLeftmostCue(s, phrases, r.value)
  {
    SearchFrom(s, phrases, 0)
  }

  /** The offset reported by Search is the least offset at which any single
      phrase of the table occurs. */
  lemma SearchIsMinimum(s: string, phrases: seq<string>, k: nat, j: nat)
    requires k < |phrases| && OccursAt(s, phrases[k], j)
    ensures Search(s, phrases).Some?
    ensures Search(s, phrases).value <= j
  {
    assert MatchesAt(s, phrases, j);
  }

  // ---------------------------------------------------------------------
  // The order and multiplicity of alternatives do not matter

  lemma MatchesAtSamePhrases(s: string, a: seq<string>, b: seq<string>, i: nat)
    requires forall p :: p in a <==> p in b
    ensures MatchesAt(s, a, i) == MatchesAt(s, b, i)
  {
    if MatchesAt(s, a, i) {
      var k :| 0 <= k < |a| && OccursAt(s, a[k], i);
      assert a[k] in b;
      var k' :| 0 <= k' < |b| && b[k'] == a[k];
    }
    if MatchesAt(s, b, i) {
      var k :| 0 <= k < |b| && OccursAt(s, b[k], i);
      assert b[k] in a;
      var k' :| 0 <= k' < |a| && a[k'] == b[k];
    }
  }

  lemma {:induction false} SearchFromSamePhrases(s: string, a: seq<string>, b: seq<string>, i: nat)
    requires forall p :: p in a <==> p in b
    ensures SearchFrom(s, a, i) == SearchFrom(s, b, i)
    decreases |s| + 1 - i
  {
    if i <= |s| {
      MatchesAtSamePhrases(s, a, b, i);
      SearchFromSamePhrases(s, a, b, i + 1);
    }
  }

  /** Two tables holding the same phrases, in whatever order and with
      whatever repetitions, report the same match start. */
  lemma SearchSamePhrases(s: string, a: seq<string>, b: seq<string>)
    requires forall p :: p in a <==> p in b
    ensures Search(s, a) == Search(s, b)
  {
    SearchFromSamePhrases(s, a, b, 0);
  }

  /** Dropping an entry that repeats another entry of the table changes
      nothing. */
  lemma SearchWithoutDuplicate(s: string, phrases: seq<string>, k: nat, dup: nat)
    requires k < |phrases| && dup < |phrases| && k != dup && phrases[k] == phrases[dup]
    ensures Search(s, phrases[..dup] + phrases[dup + 1..]) == Search(s, phrases)
  {
    var b := phrases[..dup] + phrases[dup + 1..];
    forall p
      ensures p in phrases <==> p in b
    {
      if p in phrases {
        var m :| 0 <= m < |phrases| && phrases[m] == p;
        var m' := if m == dup then k else m;
        assert phrases[m'] == p;
        if m' < dup { assert b[m'] == p; } else { assert b[m' - 1] == p; }
      }
      if p in b {
        var m :| 0 <= m < |b| && b[m] == p;
        if m < dup { assert phrases[m] == p; } else { assert phrases[m + 1] == p; }
      }
    }
    SearchSamePhrases(s, phrases, b);
  }

  /** The second `pay` entry of the obligation table (index 36) repeats the
      one contributed by `pay(?:s|ed)?` (index 14), and the second `needs to`
      (index 26) repeats index 4: removing either leaves the result alone. */
  lemma RedundantObligationEntries(s: string)
    ensures Search(s, ObligationPhrases[..36] + ObligationPhrases[37..]) == Search(s, ObligationPhrases)
    ensures Search(s, ObligationPhrases[..26] + ObligationPhrases[27..]) == Search(s, ObligationPhrases)
  {
    ObligationDuplicates();
    SearchWithoutDuplicate(s, ObligationPhrases, 14, 36);
    SearchWithoutDuplicate(s, ObligationPhrases, 4, 26);
  }

  lemma ObligationDuplicates()
    ensures |ObligationPhrases| == 40
    ensures ObligationPhrases[36] == ObligationPhrases[14] == "pay"
    ensures ObligationPhrases[26] == ObligationPhrases[4] == "needs to"
  {
  }

  // ---------------------------------------------------------------------
  // Letter case does not matter

  lemma OccursAtIgnoresCase(s: string, p: string, i: nat)
    ensures OccursAt(Lower(s), p, i) == OccursAt(s, p, i)
  {
    var t := Lower(s);
    if i + |p| <= |s| {
      LowerSlice(s, i, i + |p|);
      var w := s[i..i + |p|];
      assert Lower(Lower(w)) == Lower(w) by {
        assert forall m | 0 <= m < |w| :: LowerChar(LowerChar(w[m])) == LowerChar(w[m]);
      }
      assert WordBoundary(t, i) == WordBoundary(s, i) by {
        if i > 0 { assert t[i - 1] == LowerChar(s[i - 1]); }
        if i < |s| { assert t[i] == LowerChar(s[i]); }
      }
      assert WordBoundary(t, i + |p|) == WordBoundary(s, i + |p|) by {
        var e := i + |p|;
        if e > 0 { assert t[e - 1] == LowerChar(s[e - 1]); }
        if e < |s| { assert t[e] == LowerChar(s[e]); }
      }
    }
  }

  lemma {:induction false} SearchFromIgnoresCase(s: string, phrases: seq<string>, i: nat)
    ensures SearchFrom(Lower(s), phrases, i) == SearchFrom(s, phrases, i)
    decreases |s| + 1 - i
  {
    if i <= |s| {
      forall k | 0 <= k < |phrases|
        ensures OccursAt(Lower(s), phrases[k], i) == OccursAt(s, phrases[k], i)
      {
        OccursAtIgnoresCase(s, phrases[k], i);
      }
      assert MatchesAt(Lower(s), phrases, i) == MatchesAt(s, phrases, i);
      SearchFromIgnoresCase(s, phrases, i + 1);
    }
  }

  /** The matchers are case-insensitive: lower-casing the sentence first
      changes neither whether a table matches nor where. */
  lemma SearchIgnoresCase(s: string, phrases: seq<string>)
    ensures Search(Lower(s), phrases) == Search(s, phrases)
  {
    SearchFromIgnoresCase(s, phrases, 0);
  }

  // ---------------------------------------------------------------------
  // Shape of the phrases

  /** Every phrase starts and ends with a word character and holds no
      period. */
  predicate WellFormedPhrase(p: string) {
    |p| > 0 && IsWordChar(p[0]) && IsWordChar(p[|p| - 1]) && '.' !in p
  }

  lemma ObligationPhrasesWellFormed0()
    ensures forall k | 0 <= k < 10 :: WellFormedPhrase(ObligationPhrases[k])
  {
  }

  lemma ObligationPhrasesWellFormed10()
    ensures forall k | 10 <= k < 20 :: WellFormedPhrase(ObligationPhrases[k])
  {
  }

  lemma ObligationPhrasesWellFormed20()
    ensures forall k | 20 <= k < 30 :: WellFormedPhrase(ObligationPhrases[k])
  {
  }

  lemma ObligationPhrasesWellFormed30()
    ensures forall k | 30 <= k < 40 :: WellFormedPhrase(ObligationPhrases[k])
  {
  }

  lemma RightsPhrasesWellFormed()
    ensures forall k | 0 <= k < |RightsPhrases| :: WellFormedPhrase(RightsPhrases[k])
  {
  }

  /** A well-formed phrase occurs only where a word starts. */
  lemma OnlyAtWordStart(s: string, p: string, j: nat)
    requires WellFormedPhrase(p) && j <= |s|
    requires !(j < |s| && IsWordChar(s[j]) && (j == 0 || !IsWordChar(s[j - 1])))
    ensures !OccursAt(s, p, j)
  {
    if j + |p| <= |s| && WordBoundary(s, j) {
      assert Lower(s[j..j + |p|])[0] == LowerChar(s[j]) && Lower(p)[0] == LowerChar(p[0]);
    }
  }

  /** A phrase does not occur where one of its characters disagrees with
      the text, up to case. */
  lemma MismatchAt(s: string, p: string, j: nat, m: nat)
    requires m < |p| && j + m < |s| && LowerChar(s[j + m]) != LowerChar(p[m])
    ensures !OccursAt(s, p, j)
  {
    if j + |p| <= |s| {
      assert Lower(s[j..j + |p|])[m] == LowerChar(s[j + m]) && Lower(p)[m] == LowerChar(p[m]);
    }
  }

  /** Both tables consist of well-formed phrases (checked in slices of ten
      entries to keep each proof small). */
  lemma PhraseTablesWellFormed()
    ensures forall p :: p in ObligationPhrases ==> WellFormedPhrase(p)
    ensures forall p :: p in RightsPhrases ==> WellFormedPhrase(p)
  {
    ObligationPhrasesWellFormed0();
    ObligationPhrasesWellFormed10();
    ObligationPhrasesWellFormed20();
    ObligationPhrasesWellFormed30();
    RightsPhrasesWellFormed();
  }
}
