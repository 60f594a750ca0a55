/**
 Properties of the button over sequences of events: the handler folded over a
 run of inputs against one descriptor, the exactly-once click rule, and a
 client of the imperative widget that plays a click through it.
 */
module ButtonTraces {
  import opened Wrappers
  import opened AeroButton

  /** What a run of inputs leaves behind and emits. */
  datatype Trace<M> = Trace(isPressed: bool, status: Option<Status>, messages: seq<M>, redraws: nat)

  function Emitted<M>(m: Option<M>): seq<M>
  {
    match m
    case None => []
    case Some(v) => [v]
  }

  /** Whether an input is a release that reaches the button itself. */
  predicate IsRelease(input: Input)
  {
    !input.childCaptured && input.event == Release
  }

  /**
   Whether an input may end a press: a release or a lost finger the child
   did not capture. After it an enabled button is no longer pressed; a
   release leaves a disabled button's pressed flag alone.
   */
  predicate EndsPress(input: Input)
  {
    !input.childCaptured && (input.event == Release || input.event == FingerLost)
  }

  /** The number of releases in a run that reach the button. */
  function Releases(inputs: seq<Input>): nat
  {
    if |inputs| == 0 then 0
    else (if IsRelease(inputs[0]) then 1 else 0) + Releases(inputs[1..])
  }

  /**
   The handler applied to each input in turn, starting from the pressed flag
   `isPressed` and the committed status `status`. Every message published is
   the callback's message, there is at most one per release, and a disabled
   button publishes nothing, never becomes pressed and, until it has
   committed a status other than `Disabled`, never asks for a redraw.
   */
  function Run<M>(onPress: Option<OnPress<M>>, isPressed: bool, status: Option<Status>, inputs: seq<Input>): (t: Trace<M>)
    ensures |t.messages| <= Releases(inputs)
    ensures forall i | 0 <= i < |t.messages| :: onPress.Some? && t.messages[i] == onPress.value.Get()
    ensures onPress.None? ==> |t.messages| == 0 && (t.isPressed ==> isPressed)
    ensures onPress.None? && (status.None? || status == Some(Disabled)) ==>
              t.redraws == 0 && (t.status.None? || t.status == Some(Disabled))
    decreases |inputs|
  {
    if |inputs| == 0 then Trace(isPressed, status, [], 0)
    else
      var r := Handle(onPress, isPressed, status, inputs[0]);
      var rest := Run(onPress, r.isPressed, r.status, inputs[1..]);
      Trace(rest.isPressed, rest.status, Emitted(r.message) + rest.messages,
            (if r.redraw then 1 else 0) + rest.redraws)
  }

  /** One step of `Run`, unfolded. */
  lemma RunCons<M>(onPress: Option<OnPress<M>>, isPressed: bool, status: Option<Status>, inputs: seq<Input>)
    requires |inputs| > 0
    ensures var r := Handle(onPress, isPressed, status, inputs[0]);
            var rest := Run(onPress, r.isPressed, r.status, inputs[1..]);
            Run(onPress, isPressed, status, inputs)
              == Trace(rest.isPressed, rest.status, Emitted(r.message) + rest.messages,
                       (if r.redraw then 1 else 0) + rest.redraws)
  {
  }

  /** Running `a + b` is running `a`, then `b` from where `a` left off. */
  lemma {:induction false} RunConcat<M>(onPress: Option<OnPress<M>>, isPressed: bool, status: Option<Status>,
                                       a: seq<Input>, b: seq<Input>)
    ensures var ta := Run(onPress, isPressed, status, a);
            var tb := Run(onPress, ta.isPressed, ta.status, b);
            Run(onPress, isPressed, status, a + b)
              == Trace(tb.isPressed, tb.status, ta.messages + tb.messages, ta.redraws + tb.redraws)
    decreases |a|
  {
    if |a| == 0 {
      assert a + b == b;
    } else {
      var r := Handle(onPress, isPressed, status, a[0]);
      assert (a + b)[0] == a[0];
      assert (a + b)[1..] == a[1..] + b;
      RunCons(onPress, isPressed, status, a);
      RunCons(onPress, isPressed, status, a + b);
      RunConcat(onPress, r.isPressed, r.status, a[1..], b);
      var ta' := Run(onPress, r.isPressed, r.status, a[1..]);
      var tb := Run(onPress, ta'.isPressed, ta'.status, b);
      assert Emitted(r.message) + (ta'.messages + tb.messages)
          == (Emitted(r.message) + ta'.messages) + tb.messages;
    }
  }

  /**
   Once pressed, a button stays pressed and publishes nothing until a
   release or a lost finger reaches it: presses, cursor moves, redraw
   requests and events the child captures do not end the press.
   */
  lemma {:induction false} HeldUntilReleased<M>(onPress: Option<OnPress<M>>, status: Option<Status>, inputs: seq<Input>)
    requires forall i | 0 <= i < |inputs| :: !EndsPress(inputs[i])
    ensures var t := Run(onPress, true, status, inputs);
            t.isPressed && t.messages == []
    decreases |inputs|
  {
    if |inputs| > 0 {
      assert !EndsPress(inputs[0]);
      var r := Handle(onPress, true, status, inputs[0]);
      assert r.isPressed && r.message.None?;
      HeldUntilReleased(onPress, r.status, inputs[1..]);
    }
  }

  /** The press over an enabled button, as the child does not capture it. */
  function PressOver(): Input { Input(Press, false, true) }

  /**
   A completed click: an enabled button pressed with the cursor over it,
   any events that do not end the press, then released over it, publishes
   the callback's message exactly once and is left not pressed. If the
   release happens with the cursor elsewhere, nothing is published and the
   button is still left not pressed.
   */
  lemma {:induction false} ClickPublishesOnce<M>(onPress: OnPress<M>, isPressed: bool, status: Option<Status>,
                                                moves: seq<Input>, releaseOver: bool)
    requires forall i | 0 <= i < |moves| :: !EndsPress(moves[i])
    ensures var t := Run(Some(onPress), isPressed, status, [PressOver()] + moves + [Input(Release, false, releaseOver)]);
            && !t.isPressed
            && t.messages == (if releaseOver then [onPress.Get()] else [])
  {
    var release := Input(Release, false, releaseOver);
    var p := Handle(Some(onPress), isPressed, status, PressOver());
    assert p.isPressed && p.message.None?;
    RunConcat(Some(onPress), isPressed, status, [PressOver()], moves);
    var tp := Run(Some(onPress), isPressed, status, [PressOver()]);
    assert tp.isPressed && tp.messages == [];
    HeldUntilReleased(Some(onPress), tp.status, moves);
    var tm := Run(Some(onPress), tp.isPressed, tp.status, moves);
    RunConcat(Some(onPress), isPressed, status, [PressOver()] + moves, [release]);
    var rr := Handle(Some(onPress), tm.isPressed, tm.status, release);
    assert !rr.isPressed;
    assert rr.message == (if releaseOver then Some(onPress.Get()) else None);
    var tr := Run(Some(onPress), tm.isPressed, tm.status, [release]);
    assert tr.messages == Emitted(rr.message);
  }

  /**
   A release that was not preceded by a press publishes nothing, whatever
   the callback and the cursor: the pressed flag, not the release, arms a click.
   */
  lemma ReleaseWithoutPressPublishesNothing<M>(onPress: Option<OnPress<M>>, status: Option<Status>, input: Input)
    requires input.event == Release
    ensures var r := Handle(onPress, false, status, input);
            r.message.None? && !r.isPressed
  {
  }

  /**
   After a redraw request commits the status, a later event that reaches
   the status logic asks for a redraw exactly when the status it computes
   differs from the committed one: recomputing with nothing changed asks
   for none, a hover entering or leaving asks for one.
   */
  lemma CommittedStatusDrivesRedraw<M>(onPress: Option<OnPress<M>>, isPressed: bool, status: Option<Status>,
                                       overAtCommit: bool, next: Input)
    requires FallsThrough(onPress, next) && next.event != RedrawRequested
    ensures var c := Handle(onPress, isPressed, status, Input(RedrawRequested, false, overAtCommit));
            var r := Handle(onPress, c.isPressed, c.status, next);
            && c.status == Some(CurrentStatus(onPress, isPressed, overAtCommit))
            && r.status == c.status
            && (r.redraw <==> CurrentStatus(onPress, isPressed, next.cursorOver)
                              != CurrentStatus(onPress, isPressed, overAtCommit))
  {
  }

  /**
   A stale committed status is not a one-shot trigger: every event that
   reaches the status logic, other than a redraw request, asks for a redraw
   again for as long as the committed status differs from the one it computes.
   */
  lemma {:induction false} StaleStatusRedrawsEveryEvent<M>(onPress: Option<OnPress<M>>, isPressed: bool,
                                                          status: Option<Status>, inputs: seq<Input>)
    requires status.Some?
    requires forall i | 0 <= i < |inputs| ::
               && FallsThrough(onPress, inputs[i]) && inputs[i].event != RedrawRequested
               && CurrentStatus(onPress, isPressed, inputs[i].cursorOver) != status.value
    ensures var t := Run(onPress, isPressed, status, inputs);
            t.redraws == |inputs| && t.status == status && t.isPressed == isPressed && t.messages == []
    decreases |inputs|
  {
    if |inputs| > 0 {
      var r := Handle(onPress, isPressed, status, inputs[0]);
      assert r.redraw && r.status == status && r.isPressed == isPressed && r.message.None?;
      StaleStatusRedrawsEveryEvent(onPress, isPressed, status, inputs[1..]);
    }
  }

  /**
   A click played through the imperative widget, one frame per event:
   hovering and committing, pressing, committing, releasing, committing.
   The statuses committed are Hovered, Pressed and Hovered again, and the
   only message published is the configured one.
   */
  method ClickScenario<M, L>(m: M, w: L, h: L) returns (published: seq<M>, committed: seq<Status>)
    ensures published == [m]
    ensures committed == [Hovered, Pressed, Hovered]
  {
    var tree := new Tree();
    var widget := new Widget(New<M, L>(w, h).SetOnPress(m));
    published, committed := [], [];

    var result, message, redraw := widget.OnEvent(tree, RedrawRequested, false, true);
    published := published + Emitted(message);
    committed := committed + [widget.button.status.value];

    result, message, redraw := widget.OnEvent(tree, Press, false, true);
    assert result == Captured && tree.state.isPressed;
    published := published + Emitted(message);
    result, message, redraw := widget.OnEvent(tree, RedrawRequested, false, true);
    published := published + Emitted(message);
    committed := committed + [widget.button.status.value];

    result, message, redraw := widget.OnEvent(tree, Release, false, true);
    assert result == Captured && !tree.state.isPressed;
    published := published + Emitted(message);
    result, message, redraw := widget.OnEvent(tree, RedrawRequested, false, true);
    published := published + Emitted(message);
    committed := committed + [widget.button.status.value];
  }
}
