/** components/StartupIntro.tsx: the typewriter that types the intro text one character
    per timer tick, pauses after the first part, and then hands over to the app. */
module StartupIntro {

  const Part1: string := "Designed by You \n Perfected by AI \n> Delivered by BlackFeel"
  const Part2: string := "Welcome to THE VOTE"
  /** The two parts, separated by an empty line. */
  const FullText: string := Part1 + "\n\n" + Part2

  /** The pause after the first part. */
  const PauseDelay: int := 1200
  /** The wait between the last character and `onComplete`. */
  const CompleteDelay: int := 2000

  lemma FullTextLayout()
    ensures |Part1| == 59 && |FullText| == 80
    ensures FullText[..|Part1|] == Part1
    ensures FullText[|Part1|..|Part1| + 2] == "\n\n" && FullText[|Part1| + 2..] == Part2
  {
  }

  /** The typing position, the text on screen and the finished flag. */
  datatype IntroState = IntroState(index: int, displayText: string, isFinished: bool)

  const Reset: IntroState := IntroState(0, "", false)

  /** What the three keep: the text on screen is the first `index` characters, and the
      finished flag is only set once everything is on screen. */
  ghost predicate Consistent(s: IntroState)
  {
    0 <= s.index <= |FullText| && s.displayText == FullText[..s.index]
    && (s.isFinished ==> s.index == |FullText|)
  }

  /** The state change of one `typeCharacter` call: from a consistent state it types one
      character while any remain, and once everything is on screen it only sets the flag. */
  function Step(s: IntroState): (t: IntroState)
    requires 0 <= s.index
    ensures Consistent(s) ==> Consistent(t)
    ensures s.index < |FullText| ==> t.index == s.index + 1 && t.isFinished == s.isFinished
    ensures s.index >= |FullText| ==> t.isFinished && t.index == s.index && t.displayText == s.displayText
  {
    if s.index < |FullText| then
      assert Consistent(s) ==> FullText[..s.index + 1] == s.displayText + [FullText[s.index]];
      IntroState(s.index + 1, s.displayText + [FullText[s.index]], s.isFinished)
    else if !s.isFinished then s.(isFinished := true)
    else s
  }

  /** Whether the `typeCharacter` call from `s` schedules `onComplete`. */
  predicate CompletesFrom(s: IntroState)
  {
    s.index >= |FullText| && !s.isFinished
  }

  /** The state after `n` calls. */
  function Run(s: IntroState, n: nat): (t: IntroState)
    requires Consistent(s)
    ensures Consistent(t)
  {
    if n == 0 then s else Step(Run(s, n - 1))
  }

  /** How many of the first `n` calls schedule `onComplete`. */
  function Completions(s: IntroState, n: nat): nat
    requires Consistent(s)
  {
    if n == 0 then 0
    else Completions(s, n - 1) + (if CompletesFrom(Run(s, n - 1)) then 1 else 0)
  }

  /** Once `onComplete` has been scheduled the flag stays set, so it never is again. */
  lemma {:induction false} CompletionAtMostOnce(s: IntroState, n: nat)
    requires Consistent(s)
    ensures Completions(s, n) <= 1
    ensures Completions(s, n) == 1 ==> Run(s, n).isFinished
    ensures Run(s, n).isFinished && !s.isFinished ==> Completions(s, n) == 1
    ensures s.isFinished ==> Completions(s, n) == 0 && Run(s, n) == s
  {
    if n > 0 {
      CompletionAtMostOnce(s, n - 1);
      var before := Run(s, n - 1);
      if CompletesFrom(before) {
        assert !before.isFinished;
        assert Completions(s, n - 1) == 0;
      }
    }
  }

  /** From the mount reset, `n` calls have typed `min(n, |FullText|)` characters, and
      `onComplete` has been scheduled exactly when all of them were typed before the
      last call. */
  lemma {:induction false} RunFromReset(n: nat)
    ensures var k := if n <= |FullText| then n else |FullText|;
      Run(Reset, n) == IntroState(k, FullText[..k], n > |FullText|)
    ensures Completions(Reset, n) == if n > |FullText| then 1 else 0
  {
    if n > 0 {
      RunFromReset(n - 1);
    }
  }

  /** The timer a call leaves behind. */
  datatype Timer = TypeNext(delay: int) | CompleteAfter(delay: int) | NoTimer

  class Typewriter {
    var index: int
    var displayText: string
    var isFinished: bool

    function State(): IntroState
      reads this
    {
      IntroState(index, displayText, isFinished)
    }

    ghost predicate Valid()
      reads this
    {
      Consistent(State())
    }

    /** The initial values: no text, position 0, not finished. */
    constructor ()
      ensures Valid() && State() == Reset
    {
      index, displayText, isFinished := 0, "", false;
    }

    /** `typeCharacter`: type the next character and schedule the next call; once all is
        typed, schedule `onComplete` the first time and do nothing afterwards. */
    method TypeCharacter() returns (timer: Timer)
      requires Valid()
      modifies this
      ensures Valid() && State() == Step(old(State()))
      ensures timer.TypeNext? <==> old(index) < |FullText|
      // the pause rule: a long wait right after the last character of the first part
      ensures timer.TypeNext? && index == |Part1| ==> timer.delay == PauseDelay
      ensures timer.TypeNext? && index != |Part1| ==> 60 <= timer.delay <= 140
      // one completion, and only after everything is on screen
      ensures timer.CompleteAfter? <==> CompletesFrom(old(State()))
      ensures timer.CompleteAfter? ==> timer.delay == CompleteDelay && index == |FullText| && isFinished
      ensures timer == NoTimer <==> old(index) >= |FullText| && old(isFinished)
    {
      if index < |FullText| {
        var c := FullText[index];
        displayText := displayText + [c];
        index := index + 1;
        // a random whole number of milliseconds from 60 to 140
        var nextSpeed :| 60 <= nextSpeed <= 140;
        if index == |Part1| {
          nextSpeed := PauseDelay;
        }
        timer := TypeNext(nextSpeed);
      } else if !isFinished {
        isFinished := true;
        timer := CompleteAfter(CompleteDelay);
      } else {
        timer := NoTimer;
      }
    }

    /** The mount effect: reset the three, then make the first call. */
    method Mount() returns (timer: Timer)
      modifies this
      ensures Valid() && State() == Step(Reset) && State() == IntroState(1, FullText[..1], false)
      ensures timer.TypeNext? && 60 <= timer.delay <= 140
    {
      displayText := "";
      index := 0;
      isFinished := false;
      timer := TypeCharacter();
    }
  }
}
