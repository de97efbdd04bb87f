// The typewriter banner: a fixed list of phrases is typed out one
// character per tick, held, erased one character per tick, and then the
// next phrase (cyclically) is typed.  The timer delays (100 ms typing,
// 50 ms deleting, 2000 ms pause) are not modelled; one tick is one firing
// of the timer callback.

module Typewriter {

  /** The phrases, in display order. */
  const Phrases: seq<string> := ["Backend Fanatic", "AI Enthusiast", "Agentic Developer"]

  /** The provider's three state variables. */
  datatype TypeState = TypeState(textIndex: nat, charIndex: nat, isDeleting: bool)

  const Start := TypeState(0, 0, false)

  /** The current phrase exists and the cursor lies within it. */
  predicate InRange(s: TypeState)
  {
    s.textIndex < |Phrases| && s.charIndex <= |Phrases[s.textIndex]|
  }

  /**
   * One firing of the timer.  The "full phrase" case schedules the switch
   * to deleting after a pause during which nothing else changes, so the
   * switch is taken as the effect of the tick itself.  When none of the
   * four guards holds the tick does nothing.
   */
  function Step(s: TypeState): (r: TypeState)
    requires s.textIndex < |Phrases|
    ensures r.textIndex < |Phrases|
  {
    var len := |Phrases[s.textIndex]|;
    if !s.isDeleting && s.charIndex < len then
      s.(charIndex := s.charIndex + 1)
    else if !s.isDeleting && s.charIndex == len then
      s.(isDeleting := true)
    else if s.isDeleting && s.charIndex > 0 then
      s.(charIndex := s.charIndex - 1)
    else if s.isDeleting && s.charIndex == 0 then
      TypeState((s.textIndex + 1) % |Phrases|, 0, false)
    else
      s
  }

  /** String.prototype.substring(0, n): the end index is clamped into the string. */
  function Substring(p: string, n: int): (t: string)
    ensures t <= p
    ensures 0 <= n <= |p| ==> |t| == n
    ensures n > |p| ==> t == p
  {
    if n <= 0 then [] else if n >= |p| then p else p[..n]
  }

  /** The text the provider publishes for a state. */
  function CurrentText(s: TypeState): (t: string)
    requires s.textIndex < |Phrases|
    ensures t <= Phrases[s.textIndex] && |t| <= s.charIndex
    ensures s.charIndex <= |Phrases[s.textIndex]| ==> |t| == s.charIndex
  {
    Substring(Phrases[s.textIndex], s.charIndex)
  }

  /** A tick keeps the phrase index and the cursor in range. */
  lemma StepKeepsInRange(s: TypeState)
    requires InRange(s)
    ensures InRange(Step(s))
  {
  }

  /** In range, the published text is the prefix of the phrase as long as the cursor. */
  lemma DisplayedIsPrefix(s: TypeState)
    requires InRange(s)
    ensures |CurrentText(s)| == s.charIndex
    ensures CurrentText(s) == Phrases[s.textIndex][..s.charIndex]
  {
  }

  /** A typing tick shows one more character of the phrase; a deleting tick one fewer.
      The tick on a full phrase keeps it on display and only switches to deleting; the
      tick on an erased phrase shows nothing, stops deleting and moves to the next phrase. */
  lemma StepChangesTextByOne(s: TypeState)
    requires InRange(s)
    ensures !s.isDeleting && s.charIndex < |Phrases[s.textIndex]| ==>
      CurrentText(Step(s)) == CurrentText(s) + [Phrases[s.textIndex][s.charIndex]]
    ensures s.isDeleting && s.charIndex > 0 ==>
      CurrentText(Step(s)) + [Phrases[s.textIndex][s.charIndex - 1]] == CurrentText(s)
    ensures !s.isDeleting && s.charIndex == |Phrases[s.textIndex]| ==>
      CurrentText(Step(s)) == CurrentText(s) == Phrases[s.textIndex] && Step(s) == s.(isDeleting := true)
    ensures s.isDeleting && s.charIndex == 0 ==>
      CurrentText(Step(s)) == CurrentText(s) == []
      && Step(s) == TypeState((s.textIndex + 1) % |Phrases|, 0, false)
  {
    var p := Phrases[s.textIndex];
    if !s.isDeleting && s.charIndex < |p| {
      SubstringGrows(p, s.charIndex);
    } else if s.isDeleting && s.charIndex > 0 {
      SubstringGrows(p, s.charIndex - 1);
    }
  }

  /** One more character of a prefix is the prefix followed by that character. */
  lemma SubstringGrows(p: string, n: nat)
    requires n < |p|
    ensures Substring(p, n + 1) == Substring(p, n) + [p[n]]
  {
    assert p[..n + 1] == p[..n] + [p[n]];
  }

  /** n ticks from s. */
  function Run(s: TypeState, n: nat): (r: TypeState)
    requires s.textIndex < |Phrases|
    ensures r.textIndex < |Phrases|
    decreases n
  {
    if n == 0 then s else Run(Step(s), n - 1)
  }

  lemma {:induction false} RunKeepsInRange(s: TypeState, n: nat)
    requires InRange(s)
    ensures InRange(Run(s, n))
    decreases n
  {
    if n > 0 {
      StepKeepsInRange(s);
      RunKeepsInRange(Step(s), n - 1);
    }
  }

  /** Every state the banner reaches from its start is in range. */
  lemma ReachableInRange(n: nat)
    ensures InRange(Run(Start, n))
    ensures CurrentText(Run(Start, n)) == Phrases[Run(Start, n).textIndex][..Run(Start, n).charIndex]
  {
    RunKeepsInRange(Start, n);
    DisplayedIsPrefix(Run(Start, n));
  }

  lemma {:induction false} RunAdd(s: TypeState, m: nat, n: nat)
    requires s.textIndex < |Phrases|
    ensures Run(s, m + n) == Run(Run(s, m), n)
    decreases m
  {
    if m > 0 {
      RunAdd(Step(s), m - 1, n);
    }
  }

  /** Typing k characters takes k ticks. */
  lemma {:induction false} TypeOut(s: TypeState, k: nat)
    requires s.textIndex < |Phrases| && !s.isDeleting
    requires s.charIndex + k <= |Phrases[s.textIndex]|
    ensures Run(s, k) == s.(charIndex := s.charIndex + k)
    decreases k
  {
    if k > 0 {
      TypeOut(Step(s), k - 1);
    }
  }

  /** Erasing k characters takes k ticks. */
  lemma {:induction false} EraseDown(s: TypeState, k: nat)
    requires s.textIndex < |Phrases| && s.isDeleting && k <= s.charIndex
    ensures Run(s, k) == s.(charIndex := s.charIndex - k)
    decreases k
  {
    if k > 0 {
      EraseDown(Step(s), k - 1);
    }
  }

  /**
   * A phrase of length n is typed (n ticks), held (1 tick), erased
   * (n ticks) and left (1 tick): 2n + 2 ticks from its empty start lead to
   * the empty start of the next phrase.
   */
  lemma PhraseCycle(t: nat)
    requires t < |Phrases|
    ensures Run(TypeState(t, 0, false), CycleLength(t)) == TypeState((t + 1) % |Phrases|, 0, false)
  {
    var n := |Phrases[t]|;
    var s0 := TypeState(t, 0, false);
    TypeOut(s0, n);
    var s1 := TypeState(t, n, false);
    RunAdd(s0, n, 1);
    assert Run(s1, 1) == TypeState(t, n, true);
    var s2 := TypeState(t, n, true);
    EraseDown(s2, n);
    RunAdd(s0, n + 1, n);
    assert Run(s0, 2 * n + 1) == TypeState(t, 0, true);
    RunAdd(s0, 2 * n + 1, 1);
  }

  /** Ticks taken to type, hold, erase and leave phrase t. */
  function CycleLength(t: nat): nat
    requires t < |Phrases|
  {
    2 * |Phrases[t]| + 2
  }

  /** The number of ticks in which every phrase is typed and erased once. */
  function RoundLength(): nat
  {
    CycleLength(0) + CycleLength(1) + CycleLength(2)
  }

  /** The three phrase cycles starting at any phrase make up one round and end where they began. */
  lemma RoundArithmetic(t: nat)
    requires t < |Phrases|
    ensures var t1, t2 := (t + 1) % |Phrases|, (t + 2) % |Phrases|;
      t1 < |Phrases| && t2 == (t1 + 1) % |Phrases| && (t2 + 1) % |Phrases| == t
      && CycleLength(t) + CycleLength(t1) + CycleLength(t2) == RoundLength() == 96
  {
    assert |Phrases[0]| == 15 && |Phrases[1]| == 13 && |Phrases[2]| == 17;
  }

  /**
   * The whole banner repeats: from the empty start of any phrase, after
   * every phrase has been typed and erased once (96 ticks), it is back
   * where it began.
   */
  lemma FullRound(t: nat)
    requires t < |Phrases|
    ensures RoundLength() == 96
    ensures Run(TypeState(t, 0, false), RoundLength()) == TypeState(t, 0, false)
  {
    var t1, t2 := (t + 1) % |Phrases|, (t + 2) % |Phrases|;
    RoundArithmetic(t);
    PhraseCycle(t);
    PhraseCycle(t1);
    PhraseCycle(t2);
    RunThree(TypeState(t, 0, false), TypeState(t1, 0, false), TypeState(t2, 0, false),
             CycleLength(t), CycleLength(t1), CycleLength(t2));
  }

  /** Three runs that meet end to start make one run that goes round. */
  lemma RunThree(s0: TypeState, s1: TypeState, s2: TypeState, n0: nat, n1: nat, n2: nat)
    requires s0.textIndex < |Phrases| && s1.textIndex < |Phrases| && s2.textIndex < |Phrases|
    requires Run(s0, n0) == s1 && Run(s1, n1) == s2 && Run(s2, n2) == s0
    ensures Run(s0, n0 + n1 + n2) == s0
  {
    RunAdd(s0, n0, n1);
    RunAdd(s0, n0 + n1, n2);
  }

  /** The provider component's state, updated by its timer. */
  class TypewriterProvider {
    var currentTextIndex: nat
    var currentCharIndex: nat
    var isDeleting: bool

    function State(): TypeState
      reads this
    {
      TypeState(currentTextIndex, currentCharIndex, isDeleting)
    }

    ghost predicate Valid()
      reads this
    {
      InRange(State())
    }

    constructor()
      ensures State() == Start && Valid()
    {
      currentTextIndex, currentCharIndex, isDeleting := 0, 0, false;
    }

    /** The timer callback: exactly one of the four cases updates the state. */
    method Tick()
      requires Valid()
      modifies this
      ensures State() == Step(old(State()))
      ensures Valid()
    {
      var length := |Phrases[currentTextIndex]|;
      if !isDeleting && currentCharIndex < length {
        currentCharIndex := currentCharIndex + 1;
      } else if !isDeleting && currentCharIndex == length {
        isDeleting := true;
      } else if isDeleting && currentCharIndex > 0 {
        currentCharIndex := currentCharIndex - 1;
      } else if isDeleting && currentCharIndex == 0 {
        isDeleting := false;
        currentTextIndex := (currentTextIndex + 1) % |Phrases|;
      }
      StepKeepsInRange(old(State()));
    }
  }
}
