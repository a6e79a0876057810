/** The page's navigation state: the generated snapshots and the index of the
    one on display, moved by the Start, Reset, Next and Back buttons. */
module Navigation {
  import opened RadixSort
  import opened InputValidation

  class Cursor {
    var steps: seq<Step>
    var currentStep: nat

    /** The index on display is a snapshot's index (or 0 when there is none). */
    ghost predicate Valid()
      reads this
    {
      currentStep == 0 || currentStep < |steps|
    }

    /** The state when the page loads. */
    constructor ()
      ensures Valid() && steps == [] && currentStep == 0
    {
      steps := [];
      currentStep := 0;
    }

    /** The Start button: validate the two fields; if they are refused nothing
        changes, otherwise generate the snapshots and show the first. */
    method Start(numbersText: string, countText: string) returns (started: bool)
      requires Valid()
      modifies this
      ensures Valid()
      ensures started == Validate(numbersText, countText).Success?
      ensures !started ==> steps == old(steps) && currentStep == old(currentStep)
      ensures started ==> currentStep == 0
      ensures started ==> (|Validate(numbersText, countText).value| > 0 &&
        steps == Trace(Validate(numbersText, countText).value))
    {
      var nums := ValidateInput(numbersText, countText);
      if nums.Failure? {
        return false;
      }
      ValidatedSize(numbersText, countText);
      var generated := RadixSortSteps(nums.value);
      steps, currentStep := generated, 0;
      return true;
    }

    /** The Reset button: forget the snapshots. */
    method Reset()
      modifies this
      ensures Valid() && steps == [] && currentStep == 0
    {
      currentStep := 0;
      steps := [];
    }

    /** The Next button (and one tick of auto-run): advance by one unless the
        last snapshot is on display; `moved` says whether it advanced. */
    method Next() returns (moved: bool)
      requires Valid()
      modifies this`currentStep
      ensures Valid()
      ensures moved <==> old(currentStep) < |steps| - 1
      ensures currentStep == if moved then old(currentStep) + 1 else old(currentStep)
    {
      moved := currentStep < |steps| - 1;
      if moved {
        currentStep := currentStep + 1;
      }
    }

    /** The Back button: go back by one unless the first snapshot is on display. */
    method Back() returns (moved: bool)
      requires Valid()
      modifies this`currentStep
      ensures Valid()
      ensures moved <==> old(currentStep) > 0
      ensures currentStep == if moved then old(currentStep) - 1 else old(currentStep)
    {
      moved := currentStep > 0;
      if moved {
        currentStep := currentStep - 1;
      }
    }
  }
}
