/**
 * The wizard's step indicator: a back button from the second step on, and
 * one dot per step, coloured as the current step, a completed step, or one
 * still to come.
 */
module StepIndicator {

  datatype DotStatus = Current | Completed | Upcoming

  /** The back button is rendered: exactly when the first dot is a completed step. */
  predicate BackShown(currentStep: int)
    ensures BackShown(currentStep) <==> StatusAt(0, currentStep) == Completed
  {
    currentStep > 1
  }

  /** The status of the dot at 0-based `index`: current for the step itself, completed
      before it, upcoming after it. */
  function StatusAt(index: nat, currentStep: int): (status: DotStatus)
    ensures status == Current <==> index + 1 == currentStep
    ensures status == Completed <==> index + 1 < currentStep
    ensures status == Upcoming <==> index + 1 > currentStep
  {
    if index + 1 == currentStep then Current
    else if index + 1 < currentStep then Completed
    else Upcoming
  }

  /** `[...Array(totalSteps)].map(...)`: one status per step, in step order. */
  function Dots(currentStep: int, totalSteps: nat): (dots: seq<DotStatus>)
    ensures |dots| == totalSteps
    ensures forall i | 0 <= i < totalSteps ::
      && (dots[i] == Current <==> i + 1 == currentStep)
      && (dots[i] == Completed <==> i + 1 < currentStep)
      && (dots[i] == Upcoming <==> i + 1 > currentStep)
  {
    seq(totalSteps, i requires 0 <= i < totalSteps => StatusAt(i, currentStep))
  }

  /** `n` copies of `x`. */
  function Repeat(x: DotStatus, n: nat): (r: seq<DotStatus>)
    ensures |r| == n && forall i | 0 <= i < n :: r[i] == x
  {
    if n == 0 then [] else [x] + Repeat(x, n - 1)
  }

  lemma {:induction false} RepeatCount(x: DotStatus, n: nat, y: DotStatus)
    ensures multiset(Repeat(x, n))[y] == if y == x then n else 0
  {
    if n > 0 {
      RepeatCount(x, n - 1, y);
      assert multiset(Repeat(x, n)) == multiset([x]) + multiset(Repeat(x, n - 1));
    }
  }

  /** The dots read: the completed steps, the current one, then those still to come;
      a step number out of range leaves no current dot. */
  lemma DotsLayout(currentStep: int, totalSteps: nat)
    ensures 1 <= currentStep <= totalSteps ==>
      Dots(currentStep, totalSteps)
        == Repeat(Completed, currentStep - 1) + [Current] + Repeat(Upcoming, totalSteps - currentStep)
    ensures currentStep < 1 ==> Dots(currentStep, totalSteps) == Repeat(Upcoming, totalSteps)
    ensures currentStep > totalSteps ==> Dots(currentStep, totalSteps) == Repeat(Completed, totalSteps)
  {
  }

  /** How many dots of each kind there are: with the step in range, exactly one current
      and `currentStep - 1` completed; otherwise none current. */
  lemma DotCounts(currentStep: int, totalSteps: nat)
    ensures 1 <= currentStep <= totalSteps ==>
      && multiset(Dots(currentStep, totalSteps))[Current] == 1
      && multiset(Dots(currentStep, totalSteps))[Completed] == currentStep - 1
      && multiset(Dots(currentStep, totalSteps))[Upcoming] == totalSteps - currentStep
    ensures !(1 <= currentStep <= totalSteps) ==> multiset(Dots(currentStep, totalSteps))[Current] == 0
  {
    DotsLayout(currentStep, totalSteps);
    if 1 <= currentStep <= totalSteps {
      var done, todo := currentStep - 1, totalSteps - currentStep;
      RepeatCount(Completed, done, Current);
      RepeatCount(Completed, done, Completed);
      RepeatCount(Completed, done, Upcoming);
      RepeatCount(Upcoming, todo, Current);
      RepeatCount(Upcoming, todo, Completed);
      RepeatCount(Upcoming, todo, Upcoming);
      assert multiset(Dots(currentStep, totalSteps))
          == multiset(Repeat(Completed, done)) + multiset{Current} + multiset(Repeat(Upcoming, todo));
    } else if currentStep < 1 {
      RepeatCount(Upcoming, totalSteps, Current);
    } else {
      RepeatCount(Completed, totalSteps, Current);
    }
  }

  /** The back button is offered exactly when the first step is already completed,
      that is, once there is a step to go back to. */
  lemma BackShownIffFirstCompleted(currentStep: int, totalSteps: nat)
    requires totalSteps > 0
    ensures BackShown(currentStep) <==> Dots(currentStep, totalSteps)[0] == Completed
  {
  }

  /** Position in the reading order: completed, then current, then upcoming. */
  function Rank(s: DotStatus): nat {
    match s
    case Completed => 0
    case Current => 1
    case Upcoming => 2
  }

  /** Every completed dot comes before the current one, which comes before every upcoming one. */
  lemma DotsOrdered(currentStep: int, totalSteps: nat, i: nat, j: nat)
    requires i < j < totalSteps
    ensures Rank(Dots(currentStep, totalSteps)[i]) <= Rank(Dots(currentStep, totalSteps)[j])
    ensures Dots(currentStep, totalSteps)[j] != Completed || Dots(currentStep, totalSteps)[i] == Completed
  {
  }
}
