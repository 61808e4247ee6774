/**
 * The route animation (frontend/src/hooks/useAnimation.ts): a cursor over the
 * computed steps, the pirate's position, the cells visited so far and the
 * steps already completed, moved by play, pause, single steps, jumps and the
 * auto-play tick.
 */
module AnimationHook {
  import opened Types

  /** One second per step. */
  const DefaultSpeed: int := 1000

  /** The part of the animation state that is derived from the cursor. */
  datatype StepView = StepView(piratePosition: Pos, visitedCells: set<Pos>, completedSteps: seq<int>)

  /** The pirate at (1,1), only (1,1) visited, nothing completed. */
  const InitialView: StepView := StepView(Origin, {Origin}, [])

  /** The view after the first t steps have been walked. */
  function WalkedView(steps: seq<Step>, t: nat): StepView
    requires t <= |steps|
  {
    if t == 0 then InitialView
    else
      var prev := WalkedView(steps, t - 1);
      var to := steps[t - 1].to;
      StepView(to, prev.visitedCells + {to}, prev.completedSteps + [t - 1])
  }

  /** How many steps are walked to show the cursor k: none before the start, at most all of them. */
  function WalkedCount(steps: seq<Step>, k: int): (t: nat)
    ensures t <= |steps|
    ensures k < 0 ==> t == 0
    ensures 0 <= k < |steps| ==> t == k + 1
    ensures k >= |steps| ==> t == |steps|
  {
    if k < 0 then 0 else if k + 1 <= |steps| then k + 1 else |steps|
  }

  /** What calculateStateForStep(k) yields. */
  function ViewAt(steps: seq<Step>, k: int): StepView {
    WalkedView(steps, WalkedCount(steps, k))
  }

  /** The indices 0..t-1 in order. */
  function Indices(t: nat): (r: seq<int>)
    ensures |r| == t && forall i :: 0 <= i < t ==> r[i] == i
  {
    seq(t, i => i)
  }

  /** The destinations of the first t steps. */
  function Destinations(steps: seq<Step>, t: nat): set<Pos>
    requires t <= |steps|
  {
    set i | 0 <= i < t :: steps[i].to
  }

  /**
   * The walked view, in closed form: the pirate stands on the last walked
   * step's destination (or on (1,1)), the completed list is 0..t-1, and the
   * visited cells are (1,1) and every walked destination.
   */
  lemma {:induction false} WalkedViewClosed(steps: seq<Step>, t: nat)
    requires t <= |steps|
    ensures WalkedView(steps, t).piratePosition == if t == 0 then Origin else steps[t - 1].to
    ensures WalkedView(steps, t).completedSteps == Indices(t)
    ensures WalkedView(steps, t).visitedCells == {Origin} + Destinations(steps, t)
  {
    if t > 0 {
      WalkedViewClosed(steps, t - 1);
      assert Indices(t - 1) + [t - 1] == Indices(t);
      assert Destinations(steps, t) == Destinations(steps, t - 1) + {steps[t - 1].to} by {
        forall q | q in Destinations(steps, t) ensures q in Destinations(steps, t - 1) + {steps[t - 1].to} {
          var i :| 0 <= i < t && q == steps[i].to;
          if i < t - 1 {
            assert q in Destinations(steps, t - 1);
          }
        }
      }
    }
  }

  /** The pirate always stands on a visited cell. */
  lemma PirateOnVisitedCell(steps: seq<Step>, k: int)
    ensures ViewAt(steps, k).piratePosition in ViewAt(steps, k).visitedCells
  {
    var t := WalkedCount(steps, k);
    WalkedViewClosed(steps, t);
    if t > 0 {
      assert steps[t - 1].to in Destinations(steps, t);
    }
  }

  class Animation {
    const steps: seq<Step>
    var isPlaying: bool
    var currentStepIndex: int
    var speed: int
    var piratePosition: Pos
    var visitedCells: set<Pos>
    var completedSteps: seq<int>

    function View(): StepView
      reads this
    {
      StepView(piratePosition, visitedCells, completedSteps)
    }

    /** The cursor stays in -1..len-1 and the derived fields always show the cursor's view. */
    predicate Valid()
      reads this
    {
      -1 <= currentStepIndex <= |steps| - 1 && View() == ViewAt(steps, currentStepIndex)
    }

    /** createInitialState, for the given steps. */
    constructor(steps: seq<Step>)
      ensures this.steps == steps && Valid()
      ensures !isPlaying && currentStepIndex == -1 && speed == DefaultSpeed && View() == InitialView
    {
      this.steps := steps;
      isPlaying := false;
      currentStepIndex := -1;
      speed := DefaultSpeed;
      piratePosition := Origin;
      visitedCells := {Origin};
      completedSteps := [];
    }

    /** calculateStateForStep: walk the steps up to the cursor, collecting the view. */
    method CalculateStateForStep(stepIndex: int) returns (view: StepView)
      ensures view == ViewAt(steps, stepIndex)
    {
      if stepIndex < 0 {
        return StepView(Origin, {Origin}, []);
      }
      var visited: set<Pos> := {Origin};
      var completed: seq<int> := [];
      var position := Origin;
      var i := 0;
      while i <= stepIndex && i < |steps|
        invariant 0 <= i <= |steps| && i <= stepIndex + 1
        invariant StepView(position, visited, completed) == WalkedView(steps, i)
      {
        var step := steps[i];
        visited := visited + {step.to};
        completed := completed + [i];
        position := step.to;
        i := i + 1;
      }
      return StepView(position, visited, completed);
    }

    /** play: from the last step (or beyond) start over, keeping the speed; otherwise just resume. */
    method Play()
      requires Valid()
      modifies this
      ensures Valid() && isPlaying && speed == old(speed)
      ensures old(currentStepIndex) >= |steps| - 1 ==> currentStepIndex == -1 && View() == InitialView
      ensures old(currentStepIndex) < |steps| - 1 ==> currentStepIndex == old(currentStepIndex) && View() == old(View())
    {
      if currentStepIndex >= |steps| - 1 {
        currentStepIndex := -1;
        piratePosition := Origin;
        visitedCells := {Origin};
        completedSteps := [];
      }
      isPlaying := true;
    }

    method Pause()
      requires Valid()
      modifies this
      ensures Valid() && !isPlaying
      ensures currentStepIndex == old(currentStepIndex) && speed == old(speed) && View() == old(View())
    {
      isPlaying := false;
    }

    /** stepForward: nothing at the last step; otherwise one step on, and playing stops. */
    method StepForward()
      requires Valid()
      modifies this
      ensures Valid() && speed == old(speed)
      ensures old(currentStepIndex) >= |steps| - 1 ==>
        isPlaying == old(isPlaying) && currentStepIndex == old(currentStepIndex) && View() == old(View())
      ensures old(currentStepIndex) < |steps| - 1 ==>
        !isPlaying && currentStepIndex == old(currentStepIndex) + 1 && View() == ViewAt(steps, currentStepIndex)
    {
      if currentStepIndex >= |steps| - 1 {
        return;
      }
      var next := currentStepIndex + 1;
      var view := CalculateStateForStep(next);
      isPlaying := false;
      currentStepIndex := next;
      piratePosition, visitedCells, completedSteps := view.piratePosition, view.visitedCells, view.completedSteps;
    }

    /** stepBack: nothing before the first step; otherwise one step back, and playing stops. */
    method StepBack()
      requires Valid()
      modifies this
      ensures Valid() && speed == old(speed)
      ensures old(currentStepIndex) < 0 ==>
        isPlaying == old(isPlaying) && currentStepIndex == old(currentStepIndex) && View() == old(View())
      ensures old(currentStepIndex) >= 0 ==>
        !isPlaying && currentStepIndex == old(currentStepIndex) - 1 && View() == ViewAt(steps, currentStepIndex)
    {
      if currentStepIndex < 0 {
        return;
      }
      var next := currentStepIndex - 1;
      var view := CalculateStateForStep(next);
      isPlaying := false;
      currentStepIndex := next;
      piratePosition, visitedCells, completedSteps := view.piratePosition, view.visitedCells, view.completedSteps;
    }

    /** reset: the initial state, except that the speed is kept. */
    method Reset()
      requires Valid()
      modifies this
      ensures Valid() && !isPlaying && currentStepIndex == -1 && speed == old(speed) && View() == InitialView
    {
      isPlaying := false;
      currentStepIndex := -1;
      piratePosition := Origin;
      visitedCells := {Origin};
      completedSteps := [];
    }

    method SetSpeed(newSpeed: int)
      requires Valid()
      modifies this
      ensures Valid() && speed == newSpeed
      ensures isPlaying == old(isPlaying) && currentStepIndex == old(currentStepIndex) && View() == old(View())
    {
      speed := newSpeed;
    }

    /** goToStep: a cursor outside -1..len-1 is ignored; otherwise jump there and stop playing. */
    method GoToStep(stepIndex: int)
      requires Valid()
      modifies this
      ensures Valid() && speed == old(speed)
      ensures !(-1 <= stepIndex < |steps|) ==>
        isPlaying == old(isPlaying) && currentStepIndex == old(currentStepIndex) && View() == old(View())
      ensures -1 <= stepIndex < |steps| ==>
        !isPlaying && currentStepIndex == stepIndex && View() == ViewAt(steps, stepIndex)
    {
      if stepIndex < -1 || stepIndex >= |steps| {
        return;
      }
      var view := CalculateStateForStep(stepIndex);
      isPlaying := false;
      currentStepIndex := stepIndex;
      piratePosition, visitedCells, completedSteps := view.piratePosition, view.visitedCells, view.completedSteps;
    }

    /** One auto-play tick: past the last step playing stops; otherwise the cursor advances. */
    method Tick()
      requires Valid()
      modifies this
      ensures Valid() && speed == old(speed)
      ensures old(currentStepIndex) + 1 >= |steps| ==>
        !isPlaying && currentStepIndex == old(currentStepIndex) && View() == old(View())
      ensures old(currentStepIndex) + 1 < |steps| ==>
        isPlaying == old(isPlaying) && currentStepIndex == old(currentStepIndex) + 1 && View() == ViewAt(steps, currentStepIndex)
    {
      var next := currentStepIndex + 1;
      if next >= |steps| {
        isPlaying := false;
        return;
      }
      var view := CalculateStateForStep(next);
      currentStepIndex := next;
      piratePosition, visitedCells, completedSteps := view.piratePosition, view.visitedCells, view.completedSteps;
    }
  }
}
