/**
 * The solver: a fixed dictionary, the word length taken from its first
 * word, and an ordered history of guesses that is appended to, searched and
 * removed from in place.
 */
module Solving {
  import opened Outcomes
  import opened Guesses
  import opened Constraints

  /** A guess is accepted only when it has as many letters as the dictionary's words. */
  function Validate(g: Guess, wordLength: nat): (o: Outcome)
    ensures o.Pass? <==> g.Length() == wordLength
    ensures o.Fail? ==> o.error == GuessLengthMismatch(wordLength, g.Length())
  {
    if g.Length() != wordLength then Fail(GuessLengthMismatch(wordLength, g.Length())) else Pass
  }

  /** k is the first position of h holding g. */
  ghost predicate FirstEqualAt(h: seq<Guess>, g: Guess, k: int)
  {
    0 <= k < |h| && h[k] == g && forall j :: 0 <= j < k ==> h[j] != g
  }

  /** k is the first position of h holding a guess of word w. */
  ghost predicate FirstWithWordAt(h: seq<Guess>, w: string, k: int)
  {
    0 <= k < |h| && h[k].Word() == w && forall j :: 0 <= j < k ==> h[j].Word() != w
  }

  /** The search of list removal: the first position holding g, if any. */
  function IndexOf(h: seq<Guess>, g: Guess): (r: Option<nat>)
    ensures r.None? <==> g !in h
    ensures r.Some? ==> FirstEqualAt(h, g, r.value)
  {
    if h == [] then None
    else if h[0] == g then Some(0)
    else match IndexOf(h[1..], g)
      case None => None
      case Some(k) => Some(k + 1)
  }

  /** The first guess of the history whose word is w, if any. */
  function FirstWithWord(h: seq<Guess>, w: string): (r: Option<Guess>)
    ensures r.None? <==> forall g <- h :: g.Word() != w
    ensures r.Some? ==> exists k :: FirstWithWordAt(h, w, k) && h[k] == r.value
  {
    if h == [] then None
    else if h[0].Word() == w then Some(h[0])
    else
      var r := FirstWithWord(h[1..], w);
      if r.Some? then
        ghost var k :| FirstWithWordAt(h[1..], w, k) && h[1..][k] == r.value;
        assert FirstWithWordAt(h, w, k + 1);
        r
      else r
  }

  /**
   * Removing by word finds the first guess with that word and then removes
   * the first guess equal to it; both searches stop at the same position.
   */
  lemma RemoveByWordTargetsFirstMatch(h: seq<Guess>, w: string, k: int)
    requires FirstWithWordAt(h, w, k)
    ensures FirstWithWord(h, w) == Some(h[k])
    ensures IndexOf(h, h[k]) == Some(k)
  {
    assert h[k] in h && h[k].Word() == w;
    var g := FirstWithWord(h, w).value;
    assert exists i :: FirstWithWordAt(h, w, i) && h[i] == g;
    var k0: int :| FirstWithWordAt(h, w, k0) && h[k0] == g;
    assert h[k0].Word() == w;
    assert k0 == k;
    assert h[IndexOf(h, h[k]).value].Word() == w;
  }

  class Solver {
    const words: seq<string>
    const wordLength: nat
    var history: seq<Guess>

    /** The dictionary is non-empty, fixes the word length, and every guess has that length. */
    ghost predicate Valid()
      reads this
    {
      && |words| > 0
      && wordLength == |words[0]|
      && forall g <- history :: g.Length() == wordLength
    }

    /** Every dictionary word is long enough to be checked at every guessed position. */
    predicate LongEnough()
      reads this
    {
      forall w <- words :: |w| >= wordLength
    }

    constructor (words: seq<string>, guesses: seq<Guess>)
      requires |words| > 0
      requires forall g <- guesses :: g.Length() == |words[0]|
      ensures Valid()
      ensures this.words == words && wordLength == |words[0]| && history == guesses
    {
      this.words := words;
      wordLength := |words[0]|;
      history := guesses;
    }

    /**
     * Builds a solver, failing on an empty dictionary and on the first
     * initial guess whose length differs from the first word's.
     */
    static method Create(words: seq<string>, guesses: seq<Guess>) returns (r: Result<Solver>)
      ensures |words| == 0 ==> r == Err(EmptyDictionary)
      ensures |words| > 0 ==> (r.Ok? <==> forall g <- guesses :: g.Length() == |words[0]|)
      ensures |words| > 0 && r.Err? ==>
        exists k :: 0 <= k < |guesses| && guesses[k].Length() != |words[0]|
          && (forall j :: 0 <= j < k ==> guesses[j].Length() == |words[0]|)
          && r.error == GuessLengthMismatch(|words[0]|, guesses[k].Length())
      ensures r.Ok? ==> fresh(r.value) && r.value.Valid()
      ensures r.Ok? ==> r.value.words == words && r.value.history == guesses
    {
      if |words| == 0 {
        return Err(EmptyDictionary);
      }
      var n := |words[0]|;
      var i := 0;
      while i < |guesses|
        invariant 0 <= i <= |guesses|
        invariant forall j :: 0 <= j < i ==> guesses[j].Length() == n
      {
        var o := Validate(guesses[i], n);
        if o.Fail? {
          return Err(o.error);
        }
        i := i + 1;
      }
      var s := new Solver(words, guesses);
      return Ok(s);
    }

    /** The history, as a value the caller cannot use to change the solver. */
    method Guesses() returns (gs: seq<Guess>)
      ensures gs == history
    {
      gs := history;
    }

    function WordLength(): (n: nat)
      reads this
      requires Valid()
      ensures n == |words[0]|
    {
      wordLength
    }

    /** Appends a guess of the right length; a wrong length leaves the history as it was. */
    method AddGuess(g: Guess) returns (o: Outcome)
      requires Valid()
      modifies this
      ensures Valid()
      ensures o.Pass? <==> g.Length() == wordLength
      ensures o.Fail? ==> o.error == GuessLengthMismatch(wordLength, g.Length())
      ensures history == if o.Pass? then old(history) + [g] else old(history)
    {
      o := Validate(g, wordLength);
      if o.Pass? {
        history := history + [g];
      }
    }

    /** Removes the first history entry equal to g; fails when there is none. */
    method RemoveGuess(g: Guess) returns (o: Outcome)
      requires Valid()
      modifies this
      ensures Valid()
      ensures o.Pass? <==> g in old(history)
      ensures o.Fail? ==> o.error == GuessNotFound && history == old(history)
      ensures o.Pass? ==> exists k :: FirstEqualAt(old(history), g, k)
                                   && history == old(history)[..k] + old(history)[k + 1..]
    {
      match IndexOf(history, g)
      case None =>
        o := Fail(GuessNotFound);
      case Some(k) =>
        history := history[..k] + history[k + 1..];
        o := Pass;
    }

    /** Removes the first history entry whose word is w; fails when there is none. */
    method RemoveGuessByWord(w: string) returns (o: Outcome)
      requires Valid()
      modifies this
      ensures Valid()
      ensures o.Pass? <==> exists g <- old(history) :: g.Word() == w
      ensures o.Fail? ==> o.error == GuessNotFound && history == old(history)
      ensures o.Pass? ==> exists k :: FirstWithWordAt(old(history), w, k)
                                   && history == old(history)[..k] + old(history)[k + 1..]
    {
      match FirstWithWord(history, w)
      case None =>
        o := Fail(GuessNotFound);
      case Some(g) =>
        ghost var k :| FirstWithWordAt(history, w, k) && history[k] == g;
        RemoveByWordTargetsFirstMatch(history, w, k);
        o := RemoveGuess(g);
    }

    method ClearGuesses()
      requires Valid()
      modifies this
      ensures Valid() && history == []
      ensures Candidates(words, history) == words
      ensures LongEnough() ==> Solve() == words
    {
      history := [];
      EmptyHistoryKeepsAll(words);
    }

    /** The dictionary words consistent with the whole history, in dictionary order. */
    function Solve(): (r: seq<string>)
      reads this
      requires Valid() && LongEnough()
      ensures AllFit(history, words) && r == Candidates(words, history)
      ensures IsSubsequence(r, words)
      ensures forall w <- r :: KeepWord(history, w)
    {
      Candidates(words, history)
    }
  }
}
