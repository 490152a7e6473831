/**
 * Concrete histories that pin down how the filter behaves on small inputs.
 */
module Scenarios {
  import opened Outcomes
  import opened Guesses
  import opened Constraints

  function AllIncorrect(): Guess
  {
    Guess([Letter('a', Incorrect), Letter('b', Incorrect)])
  }

  function AllMiss(): Guess
  {
    Guess([Letter('a', Miss), Letter('b', Miss)])
  }

  lemma IncorrectRejects()
    ensures Fits([AllIncorrect()], "ba") && !KeepWord([AllIncorrect()], "ba")
  {
    var h, w := [AllIncorrect()], "ba";
    assert Fits(h, w);
    KeepWordIsConsistency(h, w);
    assert Slot(h, 0, 0);
    assert w[1] == 'a';
    assert !Confirmed(h, 'a');
    assert !Agrees(h, w, h[0].letters[0], 0);
  }

  lemma MissKeeps()
    ensures Fits([AllIncorrect(), AllMiss()], "ba") && KeepWord([AllIncorrect(), AllMiss()], "ba")
  {
    var h, w := [AllIncorrect(), AllMiss()], "ba";
    assert Fits(h, w);
    KeepWordIsConsistency(h, w);
    assert Slot(h, 1, 0) && Slot(h, 1, 1);
    assert Confirmed(h, 'a') && Confirmed(h, 'b');
    assert w[0] == 'b' && w[1] == 'a';
    forall i, j | Slot(h, i, j) ensures j < |w| && Agrees(h, w, h[i].letters[j], j) {
      assert i == 0 || i == 1;
      assert j == 0 || j == 1;
    }
  }

  /**
   * Adding a guess can bring back a word an earlier history rejected: "ab"
   * with both letters Incorrect rejects "ba", but a second "ab" with both
   * letters Miss takes a and b out of the incorrect characters, and "ba"
   * passes every check again.
   */
  lemma AddingGuessCanWiden()
    ensures AllFit([AllIncorrect()], ["ba"]) && AllFit([AllIncorrect(), AllMiss()], ["ba"])
    ensures Candidates(["ba"], [AllIncorrect()]) == []
    ensures Candidates(["ba"], [AllIncorrect()] + [AllMiss()]) == ["ba"]
  {
    IncorrectRejects();
    MissKeeps();
    assert [AllIncorrect()] + [AllMiss()] == [AllIncorrect(), AllMiss()];
    assert ["ba"][1..] == [];
  }

  function AppleGuess(): Guess
  {
    Guess([Letter('a', Correct), Letter('p', Incorrect), Letter('p', Incorrect),
           Letter('l', Incorrect), Letter('e', Miss)])
  }

  lemma AppleDecodes()
    ensures FromMap("apple", "ciiim") == Ok(AppleGuess())
  {
    var r := FromMap("apple", "ciiim");
    assert r.Ok?;
    assert r.value.letters == AppleGuess().letters;
  }

  /** p and l are marked Incorrect and nothing confirms them. */
  lemma AppleIncorrect()
    ensures 'p' in IncorrectChars([AppleGuess()]) && 'l' in IncorrectChars([AppleGuess()])
  {
    var h := [AppleGuess()];
    assert Slot(h, 0, 1) && Slot(h, 0, 3);
    forall i, j | Slot(h, i, j) && h[i].letters[j].ch in "pl"
      ensures h[i].letters[j].status == Incorrect
    {
      assert i == 0 && 0 <= j < 5;
    }
    IncorrectCharsIff(h, 'p');
    IncorrectCharsIff(h, 'l');
  }

  lemma AppleRejects(w: string)
    requires w in ["apple", "angle", "ankle", "adobe"]
    ensures Fits([AppleGuess()], w) && !KeepWord([AppleGuess()], w)
  {
    var h := [AppleGuess()];
    AppleIncorrect();
    if w == "adobe" {
      assert Slot(h, 0, 4) && h[0].letters[4] == Letter('e', Miss);
      assert (h[0].letters[4].ch, 4 as nat) in MissPositions(h);
    } else if w == "apple" {
      assert w[1] == 'p';
    } else {
      assert w[3] == 'l';
    }
  }

  /**
   * The usage example: guessing "apple" with feedback "ciiim" rules out
   * every word of a small dictionary, "adobe" because its e sits where the
   * feedback marks a Miss, the others because they contain an Incorrect p or l.
   */
  lemma AppleExample()
    ensures AllFit([AppleGuess()], ["apple", "angle", "ankle", "adobe"])
    ensures Candidates(["apple", "angle", "ankle", "adobe"], [FromMap("apple", "ciiim").value]) == []
  {
    AppleDecodes();
    var words := ["apple", "angle", "ankle", "adobe"];
    forall w <- words ensures Fits([AppleGuess()], w) && !KeepWord([AppleGuess()], w) {
      AppleRejects(w);
    }
    NoneKept(words, [AppleGuess()]);
  }
}
