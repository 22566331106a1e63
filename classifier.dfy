/** The clause classifier: each sentence is tested against the obligation
    and the rights cue tables, and its contribution is appended to two
    result lists, `obligations` and `rights`, in sentence order. */
module Classifier {
  import opened Text
  import opened Cues

  /** The literal recorded for a rights-only sentence that mentions a
      warranty. */
  const ImplicitWarrantyObligation: string :=
    "Implicit obligation to repair or replace the phone under warranty terms."

  /** The two result lists. */
  datatype Extraction = Extraction(obligations: seq<string>, rights: seq<string>)

  /** The lists of `a` followed, list by list, by those of `b`. */
  function Concat(a: Extraction, b: Extraction): Extraction {
    Extraction(a.obligations + b.obligations, a.rights + b.rights)
  }

  // ---------------------------------------------------------------------
  // Fragments

  /** The text from offset `start` up to the first period after it (or the
      end of the sentence), with surrounding whitespace removed. */
  function Fragment(sentence: string, start: nat): (r: string)
    requires start <= |sentence|
    ensures '.' !in r
    ensures exists k: nat :: start <= k && SubAt(sentence, r, k)
  {
    HeadIsPiece(sentence, start);
    Strip(Split(sentence[start..], '.')[0])
  }

  /** The stripped text before the first period of a suffix is a piece of
      the sentence at or after the suffix's offset. */
  lemma HeadIsPiece(sentence: string, start: nat)
    requires start <= |sentence|
    ensures exists k: nat :: start <= k && SubAt(sentence, Strip(Split(sentence[start..], '.')[0]), k)
  {
    var t := sentence[start..];
    var head := Split(t, '.')[0];
    assert head == sentence[start..start + |head|];
    var r := Strip(head);
    var i := StripOffset(head);
    assert r == sentence[start + i..start + i + |r|];
    assert SubAt(sentence, r, start + i);
  }

  /** `f` is the fragment cut at the leftmost match of the table. */
  ghost predicate IsCueFragment(sentence: string, phrases: seq<string>, f: string) {
    exists start: nat :: IsLeftmostCue(sentence, phrases, start) && f == Fragment(sentence, start)
  }

  /** `f` begins with the text of an occurrence of a table phrase at
      offset `start` of the sentence. */
  ghost predicate BeginsWithCue(sentence: string, phrases: seq<string>, start: nat, f: string) {
    exists k | 0 <= k < |phrases| ::
      OccursAt(sentence, phrases[k], start)
      && |phrases[k]| <= |f|
      && f[..|phrases[k]|] == sentence[start..start + |phrases[k]|]
  }

  /** The text of a well-formed cue occurrence holds no period and neither
      starts nor ends with whitespace. */
  lemma CueText(sentence: string, p: string, start: nat)
    requires WellFormedPhrase(p) && OccursAt(sentence, p, start)
    ensures forall m | start <= m < start + |p| :: sentence[m] != '.'
    ensures !IsSpace(sentence[start]) && !IsSpace(sentence[start + |p| - 1])
  {
    var w := sentence[start..start + |p|];
    forall m | start <= m < start + |p| ensures sentence[m] != '.' {
      assert Lower(w)[m - start] == LowerChar(w[m - start]) && Lower(p)[m - start] == LowerChar(p[m - start]);
      assert p[m - start] != '.';
    }
    assert Lower(w)[0] == LowerChar(w[0]) && Lower(p)[0] == LowerChar(p[0]);
    assert Lower(w)[|p| - 1] == LowerChar(w[|p| - 1]) && Lower(p)[|p| - 1] == LowerChar(p[|p| - 1]);
  }

  /** Stripping a string whose first `n` characters start and end with
      non-whitespace keeps those characters at its front. */
  lemma StripKeepsFront(h: string, n: nat)
    requires 0 < n <= |h| && !IsSpace(h[0]) && !IsSpace(h[n - 1])
    ensures |Strip(h)| >= n && Strip(h)[..n] == h[..n]
    ensures SubAt(h, Strip(h), 0)
  {
    var f := Strip(h);
    var i: nat, j: nat :| StripsTo(h, i, j) && f == h[i..j];
    AllSpaceIff(h, 0, i);
    AllSpaceIff(h, j, |h|);
    assert i == 0;
    assert j >= n;
  }

  /** A fragment cut at a match of a table of well-formed phrases holds no
      period, is a piece of its sentence, and starts with the matched cue. */
  lemma FragmentAtCue(sentence: string, phrases: seq<string>, start: nat)
    requires forall p :: p in phrases ==> WellFormedPhrase(p)
    requires start <= |sentence| && MatchesAt(sentence, phrases, start)
    ensures '.' !in Fragment(sentence, start)
    ensures Contains(sentence, Fragment(sentence, start))
    ensures BeginsWithCue(sentence, phrases, start, Fragment(sentence, start))
  {
    var k :| 0 <= k < |phrases| && OccursAt(sentence, phrases[k], start);
    var p := phrases[k];
    assert p in phrases;
    var n := |p|;
    CueText(sentence, p, start);
    var t := sentence[start..];
    var head := Split(t, '.')[0];
    // The cue itself holds no period, so the cut falls after it.
    assert n <= |head|;
    assert head[..n] == sentence[start..start + n];
    StripKeepsFront(head, n);
    var f := Strip(head);
    assert f == Fragment(sentence, start);
    assert SubAt(sentence, f, start) by {
      assert f == head[..|f|];
    }
  }

  // ---------------------------------------------------------------------
  // One sentence

  /** What one sentence appends to each list. */
  function SentenceContribution(sentence: string): (c: Extraction)
    ensures |c.obligations| <= 1 && |c.rights| <= 1
  {
    var ob := Search(sentence, ObligationPhrases);
    var rt := Search(sentence, RightsPhrases);
    if ob.Some? && rt.Some? then
      Extraction([Fragment(sentence, ob.value)], [Fragment(sentence, rt.value)])
    else if ob.Some? then
      Extraction([Strip(sentence)], [])
    else if rt.Some? then
      var implicit := if Contains(Lower(sentence), "warranty") then [ImplicitWarrantyObligation] else [];
      Extraction(implicit, [Strip(sentence)])
    else
      Extraction([], [])
  }

  /** The four cases of a sentence's contribution, by which tables have a
      cue in it. */
  lemma SentenceContributionCases(sentence: string)
    ensures var c := SentenceContribution(sentence);
      var isObligation := HasCue(sentence, ObligationPhrases);
      var isRight := HasCue(sentence, RightsPhrases);
      && (!isObligation && !isRight ==> c == Extraction([], []))
      && (isObligation && !isRight ==> c == Extraction([Strip(sentence)], []))
      && (!isObligation && isRight ==>
            && c.rights == [Strip(sentence)]
            && (c.obligations == [ImplicitWarrantyObligation] <==> Contains(Lower(sentence), "warranty"))
            && (c.obligations == [] <==> !Contains(Lower(sentence), "warranty")))
      && (isObligation && isRight ==>
            && |c.obligations| == 1 && |c.rights| == 1
            && IsCueFragment(sentence, ObligationPhrases, c.obligations[0])
            && IsCueFragment(sentence, RightsPhrases, c.rights[0]))
  {
  }

  /** When both tables match, each fragment holds no period, is a piece of
      the sentence, and begins with a cue of its own table found at that
      table's leftmost match. */
  lemma BothCuesFragments(sentence: string)
    requires HasCue(sentence, ObligationPhrases) && HasCue(sentence, RightsPhrases)
    ensures var c := SentenceContribution(sentence);
      |c.obligations| == 1 && |c.rights| == 1
      && '.' !in c.obligations[0] && Contains(sentence, c.obligations[0])
      && '.' !in c.rights[0] && Contains(sentence, c.rights[0])
    ensures var c := SentenceContribution(sentence);
      exists start: nat :: IsLeftmostCue(sentence, ObligationPhrases, start)
        && BeginsWithCue(sentence, ObligationPhrases, start, c.obligations[0])
    ensures var c := SentenceContribution(sentence);
      exists start: nat :: IsLeftmostCue(sentence, RightsPhrases, start)
        && BeginsWithCue(sentence, RightsPhrases, start, c.rights[0])
  {
    PhraseTablesWellFormed();
    var ob := Search(sentence, ObligationPhrases).value;
    var rt := Search(sentence, RightsPhrases).value;
    FragmentAtCue(sentence, ObligationPhrases, ob);
    FragmentAtCue(sentence, RightsPhrases, rt);
  }

  /** A sentence in which the word "warranty" occurs, and no obligation cue,
      yields the sentence as a right and the implicit warranty obligation. */
  lemma WarrantyWordImpliesObligation(sentence: string, i: nat)
    requires OccursAt(sentence, "warranty", i)
    requires !HasCue(sentence, ObligationPhrases)
    ensures SentenceContribution(sentence)
              == Extraction([ImplicitWarrantyObligation], [Strip(sentence)])
  {
    assert RightsPhrases[10] == "warranty";
    assert MatchesAt(sentence, RightsPhrases, i);
    assert Lower("warranty") == "warranty";
    LowerSlice(sentence, i, i + 8);
    assert SubAt(Lower(sentence), "warranty", i);
  }

  // ---------------------------------------------------------------------
  // A sequence of sentences

  /** Specification of the classifier: the contributions `rule` assigns to
      the sentences, concatenated list by list in sentence order. The
      classifier's own rule is `SentenceContribution`. */
  function Classify(rule: string -> Extraction, sentences: seq<string>): (e: Extraction)
  {
    if sentences == [] then Extraction([], [])
    else
      Concat(rule(sentences[0]), Classify(rule, sentences[1..]))
  }

  /** Classifying a concatenation of sentence sequences concatenates the
      results, list by list. */
  lemma {:induction false} ClassifyAppend(rule: string -> Extraction, a: seq<string>, b: seq<string>)
    ensures Classify(rule, a + b) == Concat(Classify(rule, a), Classify(rule, b))
  {
    if a == [] {
      assert a + b == b;
    } else {
      assert (a + b)[0] == a[0];
      assert (a + b)[1..] == a[1..] + b;
      ClassifyAppend(rule, a[1..], b);
      var c := rule(a[0]);
      var x, y := Classify(rule, a[1..]), Classify(rule, b);
      assert c.obligations + (x.obligations + y.obligations) == (c.obligations + x.obligations) + y.obligations;
      assert c.rights + (x.rights + y.rights) == (c.rights + x.rights) + y.rights;
    }
  }

  /** Appending one sentence appends its contribution. */
  lemma ClassifySnoc(rule: string -> Extraction, sentences: seq<string>, sentence: string)
    ensures Classify(rule, sentences + [sentence]) == Concat(Classify(rule, sentences), rule(sentence))
  {
    ClassifyAppend(rule, sentences, [sentence]);
    var c := rule(sentence);
    assert [sentence][1..] == [];
    assert Classify(rule, [sentence]) == Concat(c, Classify(rule, []));
    assert c.obligations + [] == c.obligations && c.rights + [] == c.rights;
  }

  /** The classifier's lists hold at most one entry per sentence each. */
  lemma {:induction false} ClassifyLength(sentences: seq<string>)
    ensures |Classify(SentenceContribution, sentences).obligations| <= |sentences|
    ensures |Classify(SentenceContribution, sentences).rights| <= |sentences|
  {
    if sentences != [] {
      ClassifyLength(sentences[1..]);
    }
  }

  /** One more sentence of the sequence, one more contribution. */
  lemma ClassifyStep(rule: string -> Extraction, sentences: seq<string>, n: nat, e: Extraction)
    requires n < |sentences| && e == Classify(rule, sentences[..n])
    ensures Concat(e, rule(sentences[n])) == Classify(rule, sentences[..n + 1])
  {
    ClassifySnoc(rule, sentences[..n], sentences[n]);
    assert sentences[..n + 1] == sentences[..n] + [sentences[n]];
  }

  /** Sentences without any cue contribute nothing at all. */
  lemma {:induction false} NoCuesNoResults(sentences: seq<string>)
    requires forall s | s in sentences ::
      !HasCue(s, ObligationPhrases) && !HasCue(s, RightsPhrases)
    ensures Classify(SentenceContribution, sentences) == Extraction([], [])
  {
    if sentences != [] {
      assert sentences[0] in sentences;
      NoCuesNoResults(sentences[1..]);
    }
  }

  /** The body of the classifier's loop: append what one sentence
      contributes to the two lists. */
  method AppendSentence(obligations: seq<string>, rights: seq<string>, sentence: string)
    returns (obligations': seq<string>, rights': seq<string>)
    ensures Extraction(obligations', rights')
              == Concat(Extraction(obligations, rights), SentenceContribution(sentence))
  {
    obligations', rights' := obligations, rights;
    var isObligation := Search(sentence, ObligationPhrases);
    var isRight := Search(sentence, RightsPhrases);
    if isObligation.Some? && isRight.Some? {
      obligations' := obligations' + [Fragment(sentence, isObligation.value)];
      rights' := rights' + [Fragment(sentence, isRight.value)];
    } else if isObligation.Some? {
      obligations' := obligations' + [Strip(sentence)];
    } else if isRight.Some? {
      rights' := rights' + [Strip(sentence)];
      if Contains(Lower(sentence), "warranty") {
        obligations' := obligations' + [ImplicitWarrantyObligation];
      }
    } else {
      assert obligations' == obligations + [] && rights' == rights + [];
    }
  }

  /** The classifier: the loop over the sentences, appending to the two
      lists according to which tables match. */
  method ExtractObligationsAndRights(sentences: seq<string>)
    returns (obligations: seq<string>, rights: seq<string>)
    ensures Extraction(obligations, rights) == Classify(SentenceContribution, sentences)
  {
    obligations, rights := [], [];
    for n := 0 to |sentences|
      invariant Extraction(obligations, rights) == Classify(SentenceContribution, sentences[..n])
    {
      ClassifyStep(SentenceContribution, sentences, n, Extraction(obligations, rights));
      obligations, rights := AppendSentence(obligations, rights, sentences[n]);
    }
    assert sentences[..|sentences|] == sentences;
  }
}
