/** The short-code allocator of `BookMark.generate_short_characters`.

    The random source is an oracle: a sequence of draws, each draw being the
    three alphabet positions that one call of `random.choices(characters,
    k=3)` picks. The store is the set of short codes already saved. A model
    run that uses up every draw before the method returns yields OutOfDraws,
    an outcome the model leaves open: the real method would keep drawing,
    one recursive call per collision, until it returns or the interpreter's
    recursion limit stops it with an error. */
module ShortCode {

  /** The character at position p of `string.digits + string.ascii_letters`:
      ten digits, then the 26 lower-case letters, then the 26 upper-case ones. */
  function AlphabetChar(p: nat): (c: char)
    requires p < 62
    ensures IsDigitOrLetter(c)
  {
    if p < 10 then (48 + p) as char          // '0' ..= '9'
    else if p < 36 then (97 + (p - 10)) as char  // 'a' ..= 'z'
    else (65 + (p - 36)) as char                 // 'A' ..= 'Z'
  }

  /** `characters = string.digits + string.ascii_letters` */
  function Alphabet(): (s: string)
    ensures |s| == 62
  {
    seq(62, p requires 0 <= p < 62 => AlphabetChar(p))
  }

  const CodeLength: nat := 3

  /** A position in the alphabet. */
  type Pick = i: nat | i < 62

  /** One call of `random.choices(characters, k=3)`. */
  datatype Draw = Draw(first: Pick, second: Pick, third: Pick)

  /** What a call of the allocator ends with: the code it returns, the None
      it returns, or the draws ran out before it returned. */
  datatype Allocation = Code(code: string) | NoneReturned | OutOfDraws

  predicate IsDigitOrLetter(c: char) {
    '0' <= c <= '9' || 'a' <= c <= 'z' || 'A' <= c <= 'Z'
  }

  /** A well-formed short code: three characters, each a digit or an ASCII letter. */
  predicate IsCode(s: string) {
    |s| == CodeLength && forall i :: 0 <= i < |s| ==> IsDigitOrLetter(s[i])
  }

  /** The alphabet has 62 pairwise distinct characters, and they are exactly
      the digits and the ASCII letters. */
  lemma AlphabetIsDigitsAndLetters()
    ensures |Alphabet()| == 62
    ensures forall i, j :: 0 <= i < j < |Alphabet()| ==> Alphabet()[i] != Alphabet()[j]
    ensures forall c :: c in Alphabet() <==> IsDigitOrLetter(c)
  {
    forall c | IsDigitOrLetter(c) ensures c in Alphabet() {
      assert Alphabet()[PositionOf(c)] == c;
    }
  }

  /** The characters `''.join(...)` makes of one draw. */
  function Candidate(d: Draw): (s: string)
    ensures IsCode(s)
    ensures s[0] == Alphabet()[d.first] && s[1] == Alphabet()[d.second] && s[2] == Alphabet()[d.third]
  {
    AlphabetIsDigitsAndLetters();
    [Alphabet()[d.first], Alphabet()[d.second], Alphabet()[d.third]]
  }

  /** Position of a digit or letter in the alphabet. */
  function PositionOf(c: char): (p: Pick)
    requires IsDigitOrLetter(c)
    ensures Alphabet()[p] == c
  {
    if '0' <= c <= '9' then c as int - 48
    else if 'a' <= c <= 'z' then c as int - 97 + 10
    else c as int - 65 + 36
  }

  /** Every well-formed code is the candidate of some draw, so a draw can
      produce any of the 62^3 codes. */
  lemma CandidateCoversEveryCode(s: string)
    requires IsCode(s)
    ensures Candidate(Draw(PositionOf(s[0]), PositionOf(s[1]), PositionOf(s[2]))) == s
  {
  }

  /** Two draws give the same code only when they are the same draw. */
  lemma CandidateInjective(d: Draw, e: Draw)
    requires Candidate(d) == Candidate(e)
    ensures d == e
  {
  }

  /** The method as written: on a collision it calls itself again but does
      not return what that call returns, so the caller receives None. The
      recursive call still runs (it consumes draws and may never finish). */
  function GenerateAsWritten(existing: set<string>, draws: seq<Draw>): (r: Allocation)
    ensures r.Code? <==> |draws| > 0 && Candidate(draws[0]) !in existing
    ensures r.Code? ==> r.code == Candidate(draws[0])
    ensures r.NoneReturned? ==> |draws| > 0 && Candidate(draws[0]) in existing
    decreases |draws|
  {
    if draws == [] then OutOfDraws
    else
      var picked := Candidate(draws[0]);
      if picked in existing then
        var discarded := GenerateAsWritten(existing, draws[1..]);
        if discarded.OutOfDraws? then OutOfDraws else NoneReturned
      else Code(picked)
  }

  /** The allocator as evidently intended: on a collision it returns what the
      retry returns. */
  function Generate(existing: set<string>, draws: seq<Draw>): (r: Allocation)
    ensures !r.NoneReturned?
    ensures r.Code? ==> IsCode(r.code) && r.code !in existing
    ensures r.Code? ==> exists k :: 0 <= k < |draws| && r.code == Candidate(draws[k])
    ensures r.OutOfDraws? <==> forall k :: 0 <= k < |draws| ==> Candidate(draws[k]) in existing
    decreases |draws|
  {
    if draws == [] then OutOfDraws
    else
      var picked := Candidate(draws[0]);
      if picked in existing then
        var retried := Generate(existing, draws[1..]);
        assert forall k :: 1 <= k < |draws| ==> draws[k] == draws[1..][k - 1];
        retried
      else Code(picked)
  }

  /** The intended allocator returns the candidate of the first draw that
      collides with no saved code. */
  lemma {:induction false} GenerateReturnsFirstFree(existing: set<string>, draws: seq<Draw>, k: nat)
    requires k < |draws| && Candidate(draws[k]) !in existing
    requires forall j :: 0 <= j < k ==> Candidate(draws[j]) in existing
    ensures Generate(existing, draws) == Code(Candidate(draws[k]))
  {
    if k > 0 {
      GenerateReturnsFirstFree(existing, draws[1..], k - 1);
    }
  }

  /** As written, once any later draw is free the recursion finishes, and
      whatever it produced the first call returns None after a collision. */
  lemma {:induction false} AsWrittenCollisionReturnsNone(existing: set<string>, draws: seq<Draw>, k: nat)
    requires 0 < k < |draws| && Candidate(draws[k]) !in existing
    requires Candidate(draws[0]) in existing
    ensures GenerateAsWritten(existing, draws) == NoneReturned
  {
    AsWrittenFinishes(existing, draws[1..], k - 1);
  }

  /** As written, a run that reaches a free draw does not run out of draws. */
  lemma {:induction false} AsWrittenFinishes(existing: set<string>, draws: seq<Draw>, k: nat)
    requires k < |draws| && Candidate(draws[k]) !in existing
    ensures !GenerateAsWritten(existing, draws).OutOfDraws?
  {
    if k > 0 && Candidate(draws[0]) in existing {
      AsWrittenFinishes(existing, draws[1..], k - 1);
    }
  }

  /** Both versions agree when the first draw is free, and differ on every
      collision that the retry gets past. */
  lemma AsWrittenAgreesOnlyWithoutCollision(existing: set<string>, draws: seq<Draw>)
    requires exists k :: 0 <= k < |draws| && Candidate(draws[k]) !in existing
    ensures GenerateAsWritten(existing, draws) == Generate(existing, draws)
        <==> Candidate(draws[0]) !in existing
  {
  }

  /** A store holding "ab1" and a generator that yields "ab1" then "xy2": the
      code as written returns None, the intended allocator returns "xy2". */
  lemma CollisionExample()
    ensures GenerateAsWritten({"ab1"}, [Draw(10, 11, 1), Draw(33, 34, 2)]) == NoneReturned
    ensures Generate({"ab1"}, [Draw(10, 11, 1), Draw(33, 34, 2)]) == Code("xy2")
  {
  }
}
