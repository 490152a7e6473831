/**
 * The guess model: one submitted word together with the per-letter feedback
 * the game gave for it.
 */
module Guesses {
  import opened Outcomes

  datatype LetterStatus = Correct | Incorrect | Miss

  datatype Letter = Letter(ch: char, status: LetterStatus)

  datatype Guess = Guess(letters: seq<Letter>)
  {
    /** The guessed word, one character per letter. */
    function Word(): (w: string)
      ensures |w| == |letters|
      ensures forall k :: 0 <= k < |letters| ==> w[k] == letters[k].ch
    {
      WordOf(letters)
    }

    /** The number of letters, which is also the length of the guessed word. */
    function Length(): (n: nat)
      ensures n == |Word()|
    {
      |letters|
    }
  }

  function WordOf(letters: seq<Letter>): (w: string)
    ensures |w| == |letters|
    ensures forall k :: 0 <= k < |letters| ==> w[k] == letters[k].ch
  {
    if letters == [] then "" else [letters[0].ch] + WordOf(letters[1..])
  }

  /** Lower-casing of one character, restricted to the ASCII letters. */
  function Lower(c: char): (r: char)
    ensures !('A' <= r <= 'Z')
    ensures 'A' <= c <= 'Z' ==> r as int == c as int + 32
    ensures !('A' <= c <= 'Z') ==> r == c
  {
    if 'A' <= c <= 'Z' then (c as int + 32) as char else c
  }

  /** The lookup table from a (lower-case) feedback character to a status. */
  function StatusOf(c: char): (r: Option<LetterStatus>)
    ensures r.Some? <==> c in "cim"
    ensures r.Some? ==> Lower(c) == c
  {
    match c
    case 'c' => Some(Correct)
    case 'i' => Some(Incorrect)
    case 'm' => Some(Miss)
    case _ => None
  }

  /** The feedback character that encodes a status. */
  function MapChar(s: LetterStatus): (c: char)
    ensures StatusOf(c) == Some(s) && Lower(c) == c
  {
    match s
    case Correct => 'c'
    case Incorrect => 'i'
    case Miss => 'm'
  }

  function Min(a: nat, b: nat): nat
  {
    if a <= b then a else b
  }

  /** Whether the first n characters of a feedback string are all recognised. */
  ghost predicate FeedbackValidUpTo(feedback: string, n: nat)
    requires n <= |feedback|
  {
    forall k :: 0 <= k < n ==> StatusOf(Lower(feedback[k])).Some?
  }

  /**
   * Decodes a word and its feedback string, position by position, over the
   * positions both strings have. The first unrecognised feedback character,
   * lower-cased, is reported.
   */
  function FromMap(word: string, feedback: string): (r: Result<Guess>)
    ensures r.Ok? <==> FeedbackValidUpTo(feedback, Min(|word|, |feedback|))
    ensures r.Ok? ==>
      && r.value.Length() == Min(|word|, |feedback|)
      && forall k :: 0 <= k < r.value.Length() ==>
           r.value.letters[k] == Letter(Lower(word[k]), StatusOf(Lower(feedback[k])).value)
    ensures r.Err? ==>
      exists k :: 0 <= k < Min(|word|, |feedback|) && FeedbackValidUpTo(feedback, k)
        && StatusOf(Lower(feedback[k])).None? && r.error == InvalidMapCharacter(Lower(feedback[k]))
  {
    if word == [] || feedback == [] then Ok(Guess([]))
    else
      match StatusOf(Lower(feedback[0]))
      case None => Err(InvalidMapCharacter(Lower(feedback[0])))
      case Some(s) =>
        match FromMap(word[1..], feedback[1..])
        case Err(e) => Err(e)
        case Ok(rest) => Ok(Guess([Letter(Lower(word[0]), s)] + rest.letters))
  }

  /** The feedback string that encodes a guess's statuses. */
  function MapOf(g: Guess): (m: string)
    ensures |m| == g.Length()
    ensures forall k :: 0 <= k < |m| ==> m[k] == MapChar(g.letters[k].status)
  {
    seq(g.Length(), k requires 0 <= k < g.Length() => MapChar(g.letters[k].status))
  }

  /** Whether every character of the guess is already lower-case. */
  ghost predicate LowerCase(g: Guess)
  {
    forall k :: 0 <= k < |g.letters| ==> Lower(g.letters[k].ch) == g.letters[k].ch
  }

  /** Encoding a lower-case guess as word and feedback string and decoding it gives it back. */
  lemma RoundTrip(g: Guess)
    requires LowerCase(g)
    ensures FromMap(g.Word(), MapOf(g)) == Ok(g)
  {
    var r := FromMap(g.Word(), MapOf(g));
    assert r.Ok?;
    assert r.value.letters == g.letters;
  }

  /** Every decoded guess is lower-case, and its word is the lower-cased input prefix. */
  lemma DecodedIsLowerCase(word: string, feedback: string)
    requires FromMap(word, feedback).Ok?
    ensures LowerCase(FromMap(word, feedback).value)
    ensures forall k :: 0 <= k < FromMap(word, feedback).value.Length() ==>
      FromMap(word, feedback).value.Word()[k] == Lower(word[k])
  {
  }
}
