/** Two sentences worked through the classifier's rule: one with cues of
    both tables, and one with only a rights cue that mentions a warranty. */
module Scenarios {
  import opened Text
  import opened Cues
  import opened Classifier

  /** "may" is a rights cue at offset 4, "pay" an obligation cue at 8. */
  const BothCues: string := "You may pay."

  /** "Warranty" is a rights cue at offset 0; there is no obligation cue. */
  const WarrantyOnly: string := "Warranty applies."

  /** What the scenarios need to know of the first letters of the
      obligation phrases. */
  ghost predicate ObligationInitials(p: string) {
    WellFormedPhrase(p)
    && |p| >= 3
    && LowerChar(p[0]) != 'y'
    && (LowerChar(p[0]) == 'm' ==> LowerChar(p[1]) != 'a' || LowerChar(p[2]) != 'y')
    && (LowerChar(p[0]) == 'w' ==> LowerChar(p[1]) != 'a')
    && (LowerChar(p[0]) == 'a' ==> LowerChar(p[1]) != 'p')
  }

  // The table is checked in slices of five entries to keep each proof small.

  lemma ObligationInitials0()
    ensures forall k | 0 <= k < 5 :: ObligationInitials(ObligationPhrases[k])
  {
  }

  lemma ObligationInitials5()
    ensures forall k | 5 <= k < 10 :: ObligationInitials(ObligationPhrases[k])
  {
  }

  lemma ObligationInitials10()
    ensures forall k | 10 <= k < 15 :: ObligationInitials(ObligationPhrases[k])
  {
  }

  lemma ObligationInitials15()
    ensures forall k | 15 <= k < 20 :: ObligationInitials(ObligationPhrases[k])
  {
  }

  lemma ObligationInitials20()
    ensures forall k | 20 <= k < 25 :: ObligationInitials(ObligationPhrases[k])
  {
  }

  lemma ObligationInitials25()
    ensures forall k | 25 <= k < 30 :: ObligationInitials(ObligationPhrases[k])
  {
  }

  lemma ObligationInitials30()
    ensures forall k | 30 <= k < 35 :: ObligationInitials(ObligationPhrases[k])
  {
  }

  lemma ObligationInitials35()
    ensures forall k | 35 <= k < 40 :: ObligationInitials(ObligationPhrases[k])
  {
  }

  lemma AllObligationInitials(k: nat)
    requires k < |ObligationPhrases|
    ensures ObligationInitials(ObligationPhrases[k])
  {
    ObligationInitials0();
    ObligationInitials5();
    ObligationInitials10();
    ObligationInitials15();
    ObligationInitials20();
    ObligationInitials25();
    ObligationInitials30();
    ObligationInitials35();
  }

  /** No rights phrase starts with a 'y'. */
  lemma RightsInitials()
    ensures forall k | 0 <= k < |RightsPhrases| ::
      WellFormedPhrase(RightsPhrases[k]) && LowerChar(RightsPhrases[k][0]) != 'y'
  {
  }

  // ---------------------------------------------------------------------
  // "You may pay."

  /** No obligation phrase occurs in "You may pay." before "pay". */
  lemma NoObligationBeforePay(j: nat, k: nat)
    requires j < 8 && k < |ObligationPhrases|
    ensures !OccursAt(BothCues, ObligationPhrases[k], j)
  {
    var p := ObligationPhrases[k];
    AllObligationInitials(k);
    if j == 0 {
      MismatchAt(BothCues, p, 0, 0);
    } else if j == 4 {
      if LowerChar(p[0]) != 'm' {
        MismatchAt(BothCues, p, 4, 0);
      } else if LowerChar(p[1]) != 'a' {
        MismatchAt(BothCues, p, 4, 1);
      } else {
        MismatchAt(BothCues, p, 4, 2);
      }
    } else {
      OnlyAtWordStart(BothCues, p, j);
    }
  }

  /** No rights phrase occurs in "You may pay." before "may". */
  lemma NoRightBeforeMay(j: nat, k: nat)
    requires j < 4 && k < |RightsPhrases|
    ensures !OccursAt(BothCues, RightsPhrases[k], j)
  {
    RightsInitials();
    if j == 0 {
      MismatchAt(BothCues, RightsPhrases[k], 0, 0);
    } else {
      OnlyAtWordStart(BothCues, RightsPhrases[k], j);
    }
  }

  /** In "You may pay." the obligation match starts at "pay". */
  lemma PayMatch()
    ensures Search(BothCues, ObligationPhrases) == Some(8)
  {
    assert ObligationPhrases[14] == "pay";
    assert BothCues[8] == 'p' && BothCues[9] == 'a' && BothCues[10] == 'y';
    assert BothCues[8..11] == "pay";
    assert OccursAt(BothCues, ObligationPhrases[14], 8);
    assert MatchesAt(BothCues, ObligationPhrases, 8);
    forall j: nat | j < 8 ensures !MatchesAt(BothCues, ObligationPhrases, j) {
      forall k | 0 <= k < |ObligationPhrases| ensures !OccursAt(BothCues, ObligationPhrases[k], j) {
        NoObligationBeforePay(j, k);
      }
    }
  }

  /** In "You may pay." the rights match starts at "may". */
  lemma MayMatch()
    ensures Search(BothCues, RightsPhrases) == Some(4)
  {
    assert RightsPhrases[3] == "may";
    assert BothCues[4] == 'm' && BothCues[5] == 'a' && BothCues[6] == 'y';
    assert BothCues[4..7] == "may";
    assert OccursAt(BothCues, RightsPhrases[3], 4);
    assert MatchesAt(BothCues, RightsPhrases, 4);
    forall j: nat | j < 4 ensures !MatchesAt(BothCues, RightsPhrases, j) {
      forall k | 0 <= k < |RightsPhrases| ensures !OccursAt(BothCues, RightsPhrases[k], j) {
        NoRightBeforeMay(j, k);
      }
    }
  }

  lemma PayFragment()
    ensures Fragment(BothCues, 8) == "pay"
  {
    var t := BothCues[8..];
    assert t[..3] == "pay" && t[3] == '.';
    SplitHeadAt(t, '.', 3);
    StripClean("pay");
  }

  lemma MayPayFragment()
    ensures Fragment(BothCues, 4) == "may pay"
  {
    var t := BothCues[4..];
    assert t[..7] == "may pay" && t[7] == '.';
    SplitHeadAt(t, '.', 7);
    StripClean("may pay");
  }

  /** "You may pay." gives the obligation "pay" and the right "may pay". */
  lemma BothCuesContribution()
    ensures SentenceContribution(BothCues) == Extraction(["pay"], ["may pay"])
  {
    PayMatch();
    MayMatch();
    PayFragment();
    MayPayFragment();
  }

  // ---------------------------------------------------------------------
  // "Warranty applies."

  /** No obligation phrase occurs in "Warranty applies.". */
  lemma NoObligationInWarrantyOnly(j: nat, k: nat)
    requires j <= |WarrantyOnly| && k < |ObligationPhrases|
    ensures !OccursAt(WarrantyOnly, ObligationPhrases[k], j)
  {
    var p := ObligationPhrases[k];
    AllObligationInitials(k);
    if j == 0 || j == 9 {
      if LowerChar(p[0]) != LowerChar(WarrantyOnly[j]) {
        MismatchAt(WarrantyOnly, p, j, 0);
      } else {
        MismatchAt(WarrantyOnly, p, j, 1);
      }
    } else {
      OnlyAtWordStart(WarrantyOnly, p, j);
    }
  }

  /** "Warranty applies." holds no obligation cue. */
  lemma NoObligationCueInWarrantyOnly()
    ensures !HasCue(WarrantyOnly, ObligationPhrases)
  {
    forall j: nat | j <= |WarrantyOnly| ensures !MatchesAt(WarrantyOnly, ObligationPhrases, j) {
      forall k | 0 <= k < |ObligationPhrases| ensures !OccursAt(WarrantyOnly, ObligationPhrases[k], j) {
        NoObligationInWarrantyOnly(j, k);
      }
    }
  }

  /** "Warranty applies." starts with the word "warranty", up to case. */
  lemma WarrantyWordAtStart()
    ensures OccursAt(WarrantyOnly, "warranty", 0)
  {
    assert WarrantyOnly[0..8] == "Warranty";
    assert Lower("Warranty") == Lower("warranty");
  }

  /** "Warranty applies." is recorded as a right and yields the implicit
      warranty obligation. */
  lemma WarrantyOnlyContribution()
    ensures SentenceContribution(WarrantyOnly)
              == Extraction([ImplicitWarrantyObligation], [WarrantyOnly])
  {
    NoObligationCueInWarrantyOnly();
    WarrantyWordAtStart();
    WarrantyWordImpliesObligation(WarrantyOnly, 0);
    StripClean(WarrantyOnly);
  }
}
