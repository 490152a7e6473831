/**
 * The filtering rule of the solver: the sets of constrained characters and
 * positions derived from a guess history, the test a candidate word must pass,
 * and the order-preserving filter over the dictionary.
 */
module Constraints {
  import opened Guesses

  /** Whether position j of guess i exists in history h. */
  predicate Slot(h: seq<Guess>, i: int, j: int)
  {
    0 <= i < |h| && 0 <= j < |h[i].letters|
  }

  /** Some letter of some guess in h has character c and status s. */
  ghost predicate Marked(h: seq<Guess>, c: char, s: LetterStatus)
  {
    exists i, j :: Slot(h, i, j) && h[i].letters[j] == Letter(c, s)
  }

  /** Every letter of every guess, without duplicates. */
  function AllLetters(h: seq<Guess>): (r: set<Letter>)
    ensures forall l :: l in r <==> exists i, j :: Slot(h, i, j) && h[i].letters[j] == l
  {
    set i, j | 0 <= i < |h| && 0 <= j < |h[i].letters| :: h[i].letters[j]
  }

  /** Characters some letter marks Correct. */
  function CorrectChars(h: seq<Guess>): (r: set<char>)
    ensures forall c :: c in r <==> Marked(h, c, Correct)
  {
    set l | l in AllLetters(h) && l.status == Correct :: l.ch
  }

  /** Characters some letter marks Miss. */
  function MissChars(h: seq<Guess>): (r: set<char>)
    ensures forall c :: c in r <==> Marked(h, c, Miss)
  {
    set l | l in AllLetters(h) && l.status == Miss :: l.ch
  }

  /** Characters marked Incorrect somewhere and never Correct or Miss. */
  function IncorrectChars(h: seq<Guess>): (r: set<char>)
    ensures forall c :: c in r <==>
      Marked(h, c, Incorrect) && !Marked(h, c, Correct) && !Marked(h, c, Miss)
  {
    set l | l in AllLetters(h) && l.status == Incorrect
              && l.ch !in CorrectChars(h) && l.ch !in MissChars(h) :: l.ch
  }

  /** (character, position) for every Correct letter of every guess. */
  function CorrectPositions(h: seq<Guess>): (r: set<(char, nat)>)
    ensures forall p :: p in r <==>
      exists i, j :: Slot(h, i, j) && h[i].letters[j] == Letter(p.0, Correct) && p.1 == j
  {
    set i, j | 0 <= i < |h| && 0 <= j < |h[i].letters| && h[i].letters[j].status == Correct
      :: (h[i].letters[j].ch, j)
  }

  /** (character, position) for every Miss letter of every guess. */
  function MissPositions(h: seq<Guess>): (r: set<(char, nat)>)
    ensures forall p :: p in r <==>
      exists i, j :: Slot(h, i, j) && h[i].letters[j] == Letter(p.0, Miss) && p.1 == j
  {
    set i, j | 0 <= i < |h| && 0 <= j < |h[i].letters| && h[i].letters[j].status == Miss
      :: (h[i].letters[j].ch, j)
  }

  /** No guess is longer than the word, so every constrained position is in it. */
  predicate Fits(h: seq<Guess>, word: string)
  {
    forall g <- h :: g.Length() <= |word|
  }

  lemma CorrectPositionWitness(h: seq<Guess>, p: (char, nat))
    requires p in CorrectPositions(h)
    ensures exists i: int, j: nat :: Slot(h, i, j) && h[i].letters[j].status == Correct
                                  && p == (h[i].letters[j].ch, j)
  {
  }

  lemma MissPositionWitness(h: seq<Guess>, p: (char, nat))
    requires p in MissPositions(h)
    ensures exists i: int, j: nat :: Slot(h, i, j) && h[i].letters[j].status == Miss
                                  && p == (h[i].letters[j].ch, j)
  {
  }

  /** Every constrained position of a history lies inside a word it fits. */
  lemma PositionsFit(h: seq<Guess>, word: string)
    requires Fits(h, word)
    ensures forall p <- CorrectPositions(h) :: p.1 < |word|
    ensures forall p <- MissPositions(h) :: p.1 < |word|
  {
    forall p <- CorrectPositions(h) ensures p.1 < |word| {
      CorrectPositionWitness(h, p);
      var i: int, j: nat :| Slot(h, i, j) && p == (h[i].letters[j].ch, j);
      assert h[i] in h;
    }
    forall p <- MissPositions(h) ensures p.1 < |word| {
      MissPositionWitness(h, p);
      var i: int, j: nat :| Slot(h, i, j) && p == (h[i].letters[j].ch, j);
      assert h[i] in h;
    }
  }

  /** A word matching every Correct position contains every Correct character. */
  lemma CorrectCharsAppear(h: seq<Guess>, word: string)
    requires Fits(h, word)
    ensures (forall p <- CorrectPositions(h) :: p.1 < |word| && word[p.1] == p.0) ==>
              forall c <- CorrectChars(h) :: c in word
  {
    PositionsFit(h, word);
    if forall p <- CorrectPositions(h) :: p.1 < |word| && word[p.1] == p.0 {
      forall c <- CorrectChars(h) ensures c in word {
        var i, j :| Slot(h, i, j) && h[i].letters[j] == Letter(c, Correct);
        assert (c, j as nat) in CorrectPositions(h);
      }
    }
  }

  /**
   * The four checks a candidate word must pass against the whole history.
   * A word that passes contains every Correct and Miss character and no
   * incorrect one.
   */
  predicate KeepWord(h: seq<Guess>, word: string)
    requires Fits(h, word)
    ensures KeepWord(h, word) ==>
      && (forall c <- CorrectChars(h) + MissChars(h) :: c in word)
      && (forall c <- IncorrectChars(h) :: c !in word)
  {
    PositionsFit(h, word);
    CorrectCharsAppear(h, word);
    && (forall k :: 0 <= k < |word| ==> word[k] !in IncorrectChars(h))
    && (forall p <- CorrectPositions(h) :: word[p.1] == p.0)
    && (forall p <- MissPositions(h) :: word[p.1] != p.0)
    && (forall c <- MissChars(h) :: c in word)
  }

  /** Some letter of the history shows that c occurs in the target word. */
  ghost predicate Confirmed(h: seq<Guess>, c: char)
  {
    exists i, j :: Slot(h, i, j) && h[i].letters[j].ch == c && h[i].letters[j].status != Incorrect
  }

  /** What one letter, found at position j of some guess, says about a candidate word. */
  ghost predicate Agrees(h: seq<Guess>, word: string, l: Letter, j: nat)
    requires j < |word|
  {
    match l.status
    case Correct => word[j] == l.ch
    case Miss => word[j] != l.ch && l.ch in word
    case Incorrect => l.ch in word ==> Confirmed(h, l.ch)
  }

  /** Reference reading of the filter: the word agrees with every letter of every guess. */
  ghost predicate Consistent(h: seq<Guess>, word: string)
    requires Fits(h, word)
  {
    forall i, j :: Slot(h, i, j) ==> j < |word| && Agrees(h, word, h[i].letters[j], j)
  }

  lemma LetterWitness(h: seq<Guess>, l: Letter)
    requires l in AllLetters(h)
    ensures exists i, j :: Slot(h, i, j) && h[i].letters[j] == l
  {
  }

  lemma SlotLetter(h: seq<Guess>, i: int, j: int)
    requires Slot(h, i, j)
    ensures h[i].letters[j] in AllLetters(h)
  {
  }

  /**
   * Precedence between statuses: a character is Correct or Miss somewhere in
   * the history exactly when some letter confirms it, and such a character is
   * never among the incorrect characters.
   */
  lemma ConfirmedNotIncorrect(h: seq<Guess>, c: char)
    ensures Confirmed(h, c) <==> c in CorrectChars(h) || c in MissChars(h)
    ensures Confirmed(h, c) ==> c !in IncorrectChars(h)
  {
    if Confirmed(h, c) {
      var i, j :| Slot(h, i, j) && h[i].letters[j].ch == c && h[i].letters[j].status != Incorrect;
      SlotLetter(h, i, j);
    }
    if c in CorrectChars(h) || c in MissChars(h) {
      var l :| l in AllLetters(h) && l.ch == c && l.status != Incorrect;
      LetterWitness(h, l);
    }
  }

  /** A character is incorrect exactly when some letter marks it Incorrect and none confirms it. */
  lemma IncorrectCharsIff(h: seq<Guess>, c: char)
    ensures c in IncorrectChars(h) <==>
      (exists i, j :: Slot(h, i, j) && h[i].letters[j] == Letter(c, Incorrect)) && !Confirmed(h, c)
  {
    ConfirmedNotIncorrect(h, c);
    if c in IncorrectChars(h) {
      LetterWitness(h, Letter(c, Incorrect));
    }
    if exists i, j :: Slot(h, i, j) && h[i].letters[j] == Letter(c, Incorrect) {
      var i, j :| Slot(h, i, j) && h[i].letters[j] == Letter(c, Incorrect);
      SlotLetter(h, i, j);
    }
  }

  /** The set-based filter accepts exactly the words that agree with every letter of the history. */
  lemma KeepWordIsConsistency(h: seq<Guess>, word: string)
    requires Fits(h, word)
    ensures KeepWord(h, word) <==> Consistent(h, word)
  {
    PositionsFit(h, word);
    if KeepWord(h, word) {
      forall i, j | Slot(h, i, j) ensures j < |word| && Agrees(h, word, h[i].letters[j], j) {
        assert h[i] in h;
        var l := h[i].letters[j];
        SlotLetter(h, i, j);
        match l.status
        case Correct =>
          assert (l.ch, j as nat) in CorrectPositions(h);
        case Miss =>
          assert (l.ch, j as nat) in MissPositions(h);
          assert l.ch in MissChars(h);
        case Incorrect =>
          if l.ch in word {
            var k :| 0 <= k < |word| && word[k] == l.ch;
            IncorrectCharsIff(h, l.ch);
          }
      }
    }
    if Consistent(h, word) {
      forall k | 0 <= k < |word| ensures word[k] !in IncorrectChars(h) {
        IncorrectCharsIff(h, word[k]);
      }
      forall p <- CorrectPositions(h) ensures word[p.1] == p.0 {
        CorrectPositionWitness(h, p);
        var i: int, j: nat :| Slot(h, i, j) && h[i].letters[j].status == Correct
                             && p == (h[i].letters[j].ch, j);
        assert Agrees(h, word, h[i].letters[j], j);
      }
      forall p <- MissPositions(h) ensures word[p.1] != p.0 {
        MissPositionWitness(h, p);
        var i: int, j: nat :| Slot(h, i, j) && h[i].letters[j].status == Miss
                             && p == (h[i].letters[j].ch, j);
        assert Agrees(h, word, h[i].letters[j], j);
      }
      forall c <- MissChars(h) ensures c in word {
        var l :| l in AllLetters(h) && l.status == Miss && l.ch == c;
        LetterWitness(h, l);
        var i, j :| Slot(h, i, j) && h[i].letters[j] == l;
        assert Agrees(h, word, h[i].letters[j], j);
      }
    }
  }

  /** Every dictionary word fits the history. */
  predicate AllFit(h: seq<Guess>, words: seq<string>)
  {
    forall w <- words :: Fits(h, w)
  }

  /** a is b with some entries deleted and the rest in their order. */
  ghost predicate IsSubsequence<T>(a: seq<T>, b: seq<T>)
    decreases |b|
  {
    if b == [] then a == []
    else IsSubsequence(a, b[1..]) || (a != [] && a[0] == b[0] && IsSubsequence(a[1..], b[1..]))
  }

  /** The dictionary words that pass the filter, in dictionary order, duplicates kept. */
  function Candidates(words: seq<string>, h: seq<Guess>): (r: seq<string>)
    requires AllFit(h, words)
    ensures IsSubsequence(r, words)
    ensures forall w <- r :: w in words && KeepWord(h, w)
  {
    if words == [] then []
    else if KeepWord(h, words[0]) then
      var rest := Candidates(words[1..], h);
      assert ([words[0]] + rest)[1..] == rest;
      [words[0]] + rest
    else Candidates(words[1..], h)
  }

  /** Each kept word occurs in the result as often as in the dictionary; every other word not at all. */
  lemma {:induction false} CandidatesCount(words: seq<string>, h: seq<Guess>, w: string)
    requires AllFit(h, words) && Fits(h, w)
    ensures multiset(Candidates(words, h))[w] == if KeepWord(h, w) then multiset(words)[w] else 0
  {
    if words != [] {
      CandidatesCount(words[1..], h, w);
      assert words == [words[0]] + words[1..];
    }
  }

  /** With no guesses every word passes, so the result is the whole dictionary. */
  lemma {:induction false} EmptyHistoryKeepsAll(words: seq<string>)
    ensures AllFit([], words)
    ensures Candidates(words, []) == words
  {
    if words != [] {
      assert AllLetters([]) == {};
      assert CorrectPositions([]) == {} && MissPositions([]) == {};
      assert KeepWord([], words[0]);
      EmptyHistoryKeepsAll(words[1..]);
    }
  }

  /** When the filter rejects every word, nothing is left. */
  lemma {:induction false} NoneKept(words: seq<string>, h: seq<Guess>)
    requires AllFit(h, words)
    requires forall w <- words :: !KeepWord(h, w)
    ensures Candidates(words, h) == []
  {
    if words != [] {
      assert words[0] in words;
      NoneKept(words[1..], h);
    }
  }
}
