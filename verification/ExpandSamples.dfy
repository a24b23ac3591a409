/** A command in which `expandLocalProcessSubstitutions` (`internal/pshell/local_process_subst.go`) replaces something
    else than the substitution, and one that looks like it but is no such command. */
module ExpandSamples {
  import opened ProcessSubst
  import opened ExpandSubst
  import opened SubstPlaces

  lemma FirstIs(s: string, raw: string, j: nat)
    requires StandsAt(s, raw, j) && forall i :: 0 <= i < j ==> !StandsAt(s, raw, i)
    ensures FirstAt(s, raw, 0) == j
  {
  }

  // ---- A quoted copy ----

  const COPIED := "'<(a)' <(a)"

  /** The quoted text is replaced, and the substitution behind it stays. */
  lemma QuotedCopyIsReplaced(words: string)
    ensures Opener(COPIED, 7) && CopyInCommand(COPIED, [Span(7, 10)], 0)
    ensures ReplaceFirst(COPIED, "<(a)", words) == "'" + words + "' <(a)"
  {
    assert QuoteAt(COPIED, 1) == QuoteAt(COPIED, 2) == QuoteAt(COPIED, 3) == Single;
    assert QuoteAt(COPIED, 4) == QuoteAt(COPIED, 5) == Single && QuoteAt(COPIED, 6) == QuoteAt(COPIED, 7) == Plain;
    assert COPIED[1..5] == "<(a)" && COPIED[7..11] == "<(a)" && COPIED[0..4][0] != '<';
    assert ClearCopy(COPIED, [Span(7, 10)], 0, 1);
    FirstIs(COPIED, "<(a)", 1);
    assert COPIED[..1] == "'" && COPIED[5..] == "' <(a)";
  }

  // ---- The same text twice ----

  const REPEATED := "<(a 'b') <(a 'b')"
  const BOTH := [Span(0, 7), Span(9, 16)]

  /** The second substitution is not mistaken for the first, which is gone by then; quotes in the text do not matter. */
  lemma RepeatedTextIsNoCopy()
    ensures forall k :: 0 <= k < 2 ==>
      Opener(REPEATED, BOTH[k].start) && Raw(REPEATED, BOTH[k]) == "<(a 'b')" && !CopyInCommand(REPEATED, BOTH, k)
  {
    assert QuoteAt(REPEATED, 1) == QuoteAt(REPEATED, 2) == QuoteAt(REPEATED, 3) == QuoteAt(REPEATED, 4) == Plain;
    assert QuoteAt(REPEATED, 5) == QuoteAt(REPEATED, 6) == Single && QuoteAt(REPEATED, 7) == Plain;
    assert QuoteAt(REPEATED, 8) == QuoteAt(REPEATED, 9) == Plain;
    assert REPEATED[0..8] == REPEATED[9..17] == "<(a 'b')";
    assert REPEATED[8..16][0] == ' ';
    forall o: nat | o < 9 ensures !ClearCopy(REPEATED, BOTH, 1, o) {
      assert o < 8 ==> !Clear(BOTH, 1, o, o + 8) by {
        assert BOTH[0] == Span(0, 7);
      }
    }
  }
}
