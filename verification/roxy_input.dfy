/**
 The per-button hold-state machine of the input manager
 (core/managers/roxy_input.c).

 Once per frame the Lua side asks, button by button, what happened to that
 button. The answer is at most one event name, such as "AButtonPressed" or
 "upButtonPressedContinuously", or the empty string; between calls the manager
 keeps, for each of the six buttons, how many frames it has been held.
 */
module RoxyInput {
  import opened Wrappers

  /** The six buttons of the `buttons[]` table. */
  datatype Button = A | B | Up | Down | Left | Right

  /** The `buttons[]` table, in its order: index 0 is A, index 5 is Right. */
  const Buttons: seq<Button> := [A, B, Up, Down, Left, Right]

  const NumButtons: nat := 6

  /** The `name` column of the `buttons[]` table. */
  function Name(b: Button): (s: string)
    ensures 1 <= |s| <= 5
  {
    match b
    case A => "A"
    case B => "B"
    case Up => "up"
    case Down => "down"
    case Left => "left"
    case Right => "right"
  }

  /** Each button sits at exactly one index of the table. */
  lemma ButtonsTableIsComplete(b: Button)
    ensures |Buttons| == NumButtons
    ensures exists i :: 0 <= i < |Buttons| && Buttons[i] == b
    ensures forall i, j :: 0 <= i < j < |Buttons| ==> Buttons[i] != Buttons[j]
  {
    match b
    case A => assert Buttons[0] == b;
    case B => assert Buttons[1] == b;
    case Up => assert Buttons[2] == b;
    case Down => assert Buttons[3] == b;
    case Left => assert Buttons[4] == b;
    case Right => assert Buttons[5] == b;
  }

  /** The four events the manager reports. */
  datatype Event = Pressed | Released | CustomHeld | PressedContinuously

  /** What `snprintf` appends to the button name for each event. */
  function Suffix(e: Event): string {
    match e
    case Pressed => "ButtonPressed"
    case Released => "ButtonReleased"
    case CustomHeld => "ButtonCustomHeld"
    case PressedContinuously => "ButtonPressedContinuously"
  }

  /** The event name in full: the button name followed by the suffix. */
  function EventName(b: Button, e: Event): (s: string)
    ensures |s| <= 30
    ensures Name(b) <= s
  {
    Name(b) + Suffix(e)
  }

  /** The size of the static `callback` buffer, terminating NUL included. */
  const CallbackSize: nat := 32

  /** `snprintf(callback, sizeof(callback), ...)` keeps at most `CallbackSize - 1` characters. */
  function Snprintf(text: string): (s: string)
    ensures |s| < CallbackSize
    ensures s <= text
    ensures |text| < CallbackSize ==> s == text
  {
    if |text| < CallbackSize then text else text[..CallbackSize - 1]
  }

  /** No event name is cut short by the 32-byte buffer. */
  lemma EventNameFitsBuffer(b: Button, e: Event)
    ensures Snprintf(EventName(b, e)) == EventName(b, e)
  {
  }

  /**
   Distinct events give distinct names, and no name is empty, so a caller can
   tell every event apart and all of them from "no event".
   */
  lemma {:induction false} EventNameInjective(b1: Button, e1: Event, b2: Button, e2: Event)
    ensures EventName(b1, e1) != ""
    ensures EventName(b1, e1) == EventName(b2, e2) ==> b1 == b2 && e1 == e2
  {
    if EventName(b1, e1) == EventName(b2, e2) {
      var s := EventName(b1, e1);
      assert s[0] == Name(b1)[0] && s[0] == Name(b2)[0];
      assert b1 == b2;
      assert |Suffix(e1)| == |Suffix(e2)|;
    }
  }

  /** One frame's snapshot of the hardware: which buttons are down, went down, came up. */
  datatype ButtonFrame = ButtonFrame(current: set<Button>, pushed: set<Button>, released: set<Button>)

  /** The two global thresholds. */
  datatype HoldPolicy = HoldPolicy(bufferAmount: int, customThreshold: int)

  /** What one call decides for its button: the event, if any, and the new hold count. */
  datatype Step = Step(event: Option<Event>, count: int)

  /** The event of a held frame once the count has reached `count`. */
  function HeldEvent(count: int, policy: HoldPolicy): (e: Option<Event>)
    ensures e == Some(CustomHeld) <==> count == policy.customThreshold
    ensures e == Some(PressedContinuously) <==> count != policy.customThreshold && count >= policy.bufferAmount
    ensures e == None <==> count != policy.customThreshold && count < policy.bufferAmount
  {
    if count == policy.customThreshold then Some(CustomHeld)
    else if count >= policy.bufferAmount then Some(PressedContinuously)
    else None
  }

  /**
   The decision of roxy_input_processButtonEvent for one button, by priority:
   a push, then a release, then a held button, then nothing.
   */
  function Classify(b: Button, frame: ButtonFrame, holdCount: int, policy: HoldPolicy): (s: Step)
    ensures holdCount >= 0 ==> s.count >= 0
    ensures holdCount >= 0 ==>
              (s.count == 0 <==> (b !in frame.pushed && b in frame.released) ||
                                 (holdCount == 0 && b !in frame.pushed + frame.released + frame.current))
    ensures s.count != holdCount && s.count != holdCount + 1 ==> s.count <= 1 && s.event.Some?
  {
    if b in frame.pushed then Step(Some(Pressed), 1)
    else if b in frame.released then Step(Some(Released), 0)
    else if b in frame.current then Step(HeldEvent(holdCount + 1, policy), holdCount + 1)
    else Step(None, holdCount)
  }

  /** The string pushed back to Lua for a step: the event name, or "" for none. */
  function Callback(b: Button, event: Option<Event>): (s: string)
    ensures s == "" <==> event == None
  {
    match event
    case None => ""
    case Some(e) => Snprintf(EventName(b, e))
  }

  /** A push wins over everything else, whatever the count was. */
  lemma PushTakesPriority(b: Button, frame: ButtonFrame, holdCount: int, policy: HoldPolicy)
    requires b in frame.pushed
    ensures Classify(b, frame, holdCount, policy) == Step(Some(Pressed), 1)
    ensures Callback(b, Some(Pressed)) == Name(b) + "ButtonPressed"
  {
  }

  /** A release without a push resets the count from any value. */
  lemma ReleaseResets(b: Button, frame: ButtonFrame, holdCount: int, policy: HoldPolicy)
    requires b !in frame.pushed && b in frame.released
    ensures Classify(b, frame, holdCount, policy) == Step(Some(Released), 0)
  {
  }

  /** A sustained hold counts one more frame and reports at most one threshold event. */
  lemma HoldAdvances(b: Button, frame: ButtonFrame, holdCount: int, policy: HoldPolicy)
    requires b !in frame.pushed && b !in frame.released && b in frame.current
    ensures Classify(b, frame, holdCount, policy).count == holdCount + 1
    ensures Classify(b, frame, holdCount, policy).event == HeldEvent(holdCount + 1, policy)
  {
  }

  /** A button absent from all three sets reports nothing and keeps its count. */
  lemma IdleKeepsCount(b: Button, frame: ButtonFrame, holdCount: int, policy: HoldPolicy)
    requires b !in frame.pushed && b !in frame.released && b !in frame.current
    ensures Classify(b, frame, holdCount, policy) == Step(None, holdCount)
  {
  }

  /** Frames seen by one button when it is pushed, held, or let go. */
  function PushFrame(b: Button): ButtonFrame {
    ButtonFrame({b}, {b}, {})
  }

  function HoldFrame(b: Button): ButtonFrame {
    ButtonFrame({b}, {}, {})
  }

  function ReleaseFrame(b: Button): ButtonFrame {
    ButtonFrame({}, {}, {b})
  }

  /** `k` copies of `frame`. */
  function Repeat(frame: ButtonFrame, k: nat): (frames: seq<ButtonFrame>)
    ensures |frames| == k
    ensures forall i :: 0 <= i < k ==> frames[i] == frame
  {
    if k == 0 then [] else [frame] + Repeat(frame, k - 1)
  }

  /**
   The steps one button goes through when it is classified frame after frame,
   each frame starting from the count the previous one left.
   */
  function Run(b: Button, frames: seq<ButtonFrame>, holdCount: int, policy: HoldPolicy): (steps: seq<Step>)
    ensures |steps| == |frames|
  {
    if frames == [] then []
    else
      var step := Classify(b, frames[0], holdCount, policy);
      [step] + Run(b, frames[1..], step.count, policy)
  }

  /** The expected steps of `k` held frames from count `start`. */
  function HeldSteps(start: int, k: nat, policy: HoldPolicy): (steps: seq<Step>)
    ensures |steps| == k
  {
    seq(k, i => Step(HeldEvent(start + i + 1, policy), start + i + 1))
  }

  /** Holding for `k` frames counts up by one a frame, with each frame's threshold event. */
  lemma {:induction false} HoldTrace(b: Button, start: int, k: nat, policy: HoldPolicy)
    ensures Run(b, Repeat(HoldFrame(b), k), start, policy) == HeldSteps(start, k, policy)
    decreases k
  {
    if k > 0 {
      var frames := Repeat(HoldFrame(b), k);
      assert frames[1..] == Repeat(HoldFrame(b), k - 1);
      HoldTrace(b, start + 1, k - 1, policy);
      var steps := Run(b, frames, start, policy);
      assert steps[0] == Step(HeldEvent(start + 1, policy), start + 1);
      assert steps[1..] == HeldSteps(start + 1, k - 1, policy);
      assert steps == HeldSteps(start, k, policy);
    }
  }

  /**
   A press followed by `k` held frames: the count goes 1, 2, ..., k + 1 whatever
   it was before, the first event is the press, and CustomHeld fires at most once.
   */
  lemma PressThenHold(b: Button, previous: int, k: nat, policy: HoldPolicy)
    ensures Run(b, [PushFrame(b)] + Repeat(HoldFrame(b), k), previous, policy)
         == [Step(Some(Pressed), 1)] + HeldSteps(1, k, policy)
    ensures Run(b, [PushFrame(b)] + Repeat(HoldFrame(b), k), previous, policy)[k].count == k + 1
    ensures forall i, j ::
              (0 <= i < j <= k &&
               Run(b, [PushFrame(b)] + Repeat(HoldFrame(b), k), previous, policy)[i].event == Some(CustomHeld))
              ==> Run(b, [PushFrame(b)] + Repeat(HoldFrame(b), k), previous, policy)[j].event != Some(CustomHeld)
  {
    var frames := [PushFrame(b)] + Repeat(HoldFrame(b), k);
    assert frames[1..] == Repeat(HoldFrame(b), k);
    HoldTrace(b, 1, k, policy);
    var steps := Run(b, frames, previous, policy);
    var held := HeldSteps(1, k, policy);
    assert steps == [Step(Some(Pressed), 1)] + held;
    forall i, j | 0 <= i < j <= k && steps[i].event == Some(CustomHeld)
      ensures steps[j].event != Some(CustomHeld)
    {
      // Only the frame whose count reaches the threshold exactly is CustomHeld.
      assert steps[j] == held[j - 1] == Step(HeldEvent(j + 1, policy), j + 1);
      if i > 0 {
        assert steps[i] == held[i - 1] == Step(HeldEvent(i + 1, policy), i + 1);
      }
    }
  }

  /** Letting go after any hold reports the release and brings the count back to zero. */
  lemma ReleaseAfterHold(b: Button, previous: int, k: nat, policy: HoldPolicy)
    ensures Run(b, [PushFrame(b)] + Repeat(HoldFrame(b), k) + [ReleaseFrame(b)], previous, policy)
         == [Step(Some(Pressed), 1)] + HeldSteps(1, k, policy) + [Step(Some(Released), 0)]
  {
    var held := [PushFrame(b)] + Repeat(HoldFrame(b), k);
    RunAppend(b, held, [ReleaseFrame(b)], previous, policy);
    PressThenHold(b, previous, k, policy);
  }

  /** The count a button is left with after the frames, starting from `holdCount`. */
  function FinalCount(b: Button, frames: seq<ButtonFrame>, holdCount: int, policy: HoldPolicy): int {
    if frames == [] then holdCount
    else FinalCount(b, frames[1..], Classify(b, frames[0], holdCount, policy).count, policy)
  }

  /** Running two batches of frames is running the first, then the second from the count it left. */
  lemma {:induction false} RunAppend(b: Button, first: seq<ButtonFrame>, second: seq<ButtonFrame>, holdCount: int, policy: HoldPolicy)
    ensures Run(b, first + second, holdCount, policy)
         == Run(b, first, holdCount, policy) + Run(b, second, FinalCount(b, first, holdCount, policy), policy)
  {
    if first == [] {
      assert first + second == second;
    } else {
      var step := Classify(b, first[0], holdCount, policy);
      assert (first + second)[0] == first[0];
      assert (first + second)[1..] == first[1..] + second;
      RunAppend(b, first[1..], second, step.count, policy);
    }
  }

  /**
   A worked example: with a buffer of 3 and a custom threshold of 5, a press,
   six held frames and a release give Pressed, nothing, PressedContinuously twice,
   CustomHeld, PressedContinuously twice, then Released, with counts 1 to 7, then 0.
   */
  lemma HoldExample(b: Button)
    ensures Run(b, [PushFrame(b)] + Repeat(HoldFrame(b), 6) + [ReleaseFrame(b)], 0, HoldPolicy(3, 5))
         == [Step(Some(Pressed), 1), Step(None, 2), Step(Some(PressedContinuously), 3),
             Step(Some(PressedContinuously), 4), Step(Some(CustomHeld), 5),
             Step(Some(PressedContinuously), 6), Step(Some(PressedContinuously), 7),
             Step(Some(Released), 0)]
  {
    ReleaseAfterHold(b, 0, 6, HoldPolicy(3, 5));
  }

  /**
   The input manager's module-level state: `buttonHoldCounts[]` and the two
   thresholds, with the defaults the C file starts from.
   */
  class InputManager {
    const holdCounts: array<int>
    var buttonHoldBufferAmount: int
    var customHoldThreshold: int

    /** One counter per table entry, none of them negative. */
    ghost predicate Valid()
      reads this, holdCounts
    {
      holdCounts.Length == NumButtons &&
      forall i :: 0 <= i < holdCounts.Length ==> holdCounts[i] >= 0
    }

    function Policy(): HoldPolicy
      reads this
    {
      HoldPolicy(buttonHoldBufferAmount, customHoldThreshold)
    }

    constructor ()
      ensures Valid() && fresh(holdCounts)
      ensures holdCounts[..] == [0, 0, 0, 0, 0, 0]
      ensures buttonHoldBufferAmount == 3 && customHoldThreshold == 20
    {
      holdCounts := new int[NumButtons](_ => 0);
      buttonHoldBufferAmount := 3;
      customHoldThreshold := 20;
    }

    /** roxy_input_setCustomHoldThreshold_l: stores the argument as it is. */
    method SetCustomHoldThreshold(threshold: int)
      requires Valid()
      modifies this
      ensures Valid()
      ensures customHoldThreshold == threshold
      ensures buttonHoldBufferAmount == old(buttonHoldBufferAmount)
      ensures holdCounts[..] == old(holdCounts[..])
    {
      customHoldThreshold := threshold;
    }

    /** roxy_input_setButtonHoldBufferAmount_l: stores the argument as it is. */
    method SetButtonHoldBufferAmount(amount: int)
      requires Valid()
      modifies this
      ensures Valid()
      ensures buttonHoldBufferAmount == amount
      ensures customHoldThreshold == old(customHoldThreshold)
      ensures holdCounts[..] == old(holdCounts[..])
    {
      buttonHoldBufferAmount := amount;
    }

    /**
     roxy_input_processButtonEvent for the button at `buttonIndex`, given the
     frame's snapshot that the C code reads from `getButtonState`. Only that
     button's counter changes; the result is the string pushed to Lua.
     */
    method ProcessButtonEvent(buttonIndex: int, current: set<Button>, pushed: set<Button>, released: set<Button>)
      returns (callback: string)
      requires Valid() && 0 <= buttonIndex < NumButtons
      modifies holdCounts
      ensures Valid()
      ensures var step := Classify(Buttons[buttonIndex], ButtonFrame(current, pushed, released),
                                   old(holdCounts[buttonIndex]), Policy());
              holdCounts[..] == old(holdCounts[..])[buttonIndex := step.count] &&
              callback == Callback(Buttons[buttonIndex], step.event)
    {
      var button := Buttons[buttonIndex];
      var holdCount := holdCounts[buttonIndex];
      callback := "";
      if button in pushed {
        callback := Snprintf(Name(button) + "ButtonPressed");
        holdCounts[buttonIndex] := 1;
      } else if button in released {
        callback := Snprintf(Name(button) + "ButtonReleased");
        holdCounts[buttonIndex] := 0;
      } else if button in current {
        holdCount := holdCount + 1;
        holdCounts[buttonIndex] := holdCount;
        if holdCount == customHoldThreshold {
          callback := Snprintf(Name(button) + "ButtonCustomHeld");
        } else if holdCount >= buttonHoldBufferAmount {
          callback := Snprintf(Name(button) + "ButtonPressedContinuously");
        }
      }
    }
  }
}
