/**
 The retro push-button widget: its builder-style configuration, the
 interaction status it derives, and its event handler.

 The GUI toolkit around the widget is abstracted away: the wrapped child
 widget becomes a boolean "the child captured this event", hit-testing of the
 cursor against the layout bounds becomes a boolean "the cursor is over the
 bounds", and the shell's `publish` and `request_redraw` become outputs of the
 event handler. Widths and heights are the toolkit's sizing values and are
 kept opaque as the type parameter `L`; messages are the type parameter `M`.
 */
module AeroButton {
  import opened Wrappers

  /** Space between the button's border and its child, in logical pixels. */
  datatype Padding = Padding(top: real, right: real, bottom: real, left: real)

  /** The padding a new button gets: 6 above and below, 20 left and right. */
  const DefaultPadding: Padding := Padding(6.0, 20.0, 6.0, 20.0)

  /** The click callback: a fixed message, or a producer evaluated at click time. */
  datatype OnPress<M> = Direct(message: M) | Closure(produce: () -> M)
  {
    /** The message a click publishes. */
    function Get(): (m: M)
      ensures Direct? ==> m == message
      ensures Closure? ==> m == produce()
    {
      match this
      case Direct(message) => message
      case Closure(produce) => produce()
    }
  }

  /** The interaction status that selects the button's look. */
  datatype Status = Active | Hovered | Pressed | Disabled

  /**
   The widget descriptor, rebuilt by every view pass. `status` is the status
   committed by the last redraw-request event, `None` until there was one.
   */
  datatype Button<M, L> = Button(
    onPress: Option<OnPress<M>>,
    width: L,
    height: L,
    padding: Padding,
    clip: bool,
    status: Option<Status>)
  {
    function SetWidth(w: L): (b: Button<M, L>)
      ensures b.width == w
      ensures b.onPress == onPress && b.height == height && b.padding == padding
      ensures b.clip == clip && b.status == status
    {
      this.(width := w)
    }

    function SetHeight(h: L): (b: Button<M, L>)
      ensures b.height == h
      ensures b.onPress == onPress && b.width == width && b.padding == padding
      ensures b.clip == clip && b.status == status
    {
      this.(height := h)
    }

    function SetPadding(p: Padding): (b: Button<M, L>)
      ensures b.padding == p
      ensures b.onPress == onPress && b.width == width && b.height == height
      ensures b.clip == clip && b.status == status
    {
      this.(padding := p)
    }

    /** Configures a fixed message; a click then publishes exactly `m`. */
    function SetOnPress(m: M): (b: Button<M, L>)
      ensures b.onPress.Some? && b.onPress.value.Direct? && b.onPress.value.Get() == m
      ensures b.width == width && b.height == height && b.padding == padding
      ensures b.clip == clip && b.status == status
    {
      this.(onPress := Some(Direct(m)))
    }

    /** Configures a producer; a click then publishes whatever `f` produces. */
    function SetOnPressWith(f: () -> M): (b: Button<M, L>)
      ensures b.onPress.Some? && b.onPress.value.Closure? && b.onPress.value.Get() == f()
      ensures b.width == width && b.height == height && b.padding == padding
      ensures b.clip == clip && b.status == status
    {
      this.(onPress := Some(Closure(f)))
    }

    /** `None` disables the button; `Some(m)` behaves like `SetOnPress(m)`. */
    function SetOnPressMaybe(m: Option<M>): (b: Button<M, L>)
      ensures b.onPress.None? <==> m.None?
      ensures m.Some? ==> b.onPress.value.Direct? && b.onPress.value.Get() == m.value
      ensures b.width == width && b.height == height && b.padding == padding
      ensures b.clip == clip && b.status == status
    {
      this.(onPress := match m case None => None case Some(v) => Some(Direct(v)))
    }

    function SetClip(c: bool): (b: Button<M, L>)
      ensures b.clip == c
      ensures b.onPress == onPress && b.width == width && b.height == height
      ensures b.padding == padding && b.status == status
    {
      this.(clip := c)
    }
  }

  /**
   A new button around a child whose size hint, made fluid, is
   `fluidWidth` by `fluidHeight`: disabled, not clipping, no status yet, and
   the default padding.
   */
  function New<M, L>(fluidWidth: L, fluidHeight: L): (b: Button<M, L>)
    ensures b.onPress.None? && !b.clip && b.status.None?
    ensures b.padding.top == 6.0 && b.padding.bottom == 6.0
    ensures b.padding.left == 20.0 && b.padding.right == 20.0
    ensures b.width == fluidWidth && b.height == fluidHeight
  {
    Button(None, fluidWidth, fluidHeight, DefaultPadding, false, None)
  }

  /** The persistent per-node state; the toolkit creates it as `State(false)`. */
  datatype State = State(isPressed: bool)

  /**
   The event kinds the handler tells apart. `Press` is a left mouse button
   press or a finger press, `Release` a left mouse button release or a finger
   lift, `FingerLost` a cancelled touch, `RedrawRequested` the window's frame
   event; every other event (other mouse buttons included) is `Other`.
   */
  datatype Event = Press | Release | FingerLost | RedrawRequested | Other

  /** What one call of the handler is given besides the widget's own state. */
  datatype Input = Input(event: Event, childCaptured: bool, cursorOver: bool)

  /** Whether the event was consumed. */
  datatype EventStatus = Captured | Ignored

  /**
   Everything one call of the handler decides: its result, the new pressed
   flag, the new committed status, the message it publishes (if any) and
   whether it asks for a redraw on the next frame.
   */
  datatype Reaction<M> = Reaction(
    result: EventStatus,
    isPressed: bool,
    status: Option<Status>,
    message: Option<M>,
    redraw: bool)

  /**
   The status the button shows. A pressed button only looks pressed while
   the cursor is over it; with the cursor elsewhere it looks active.
   */
  function CurrentStatus<M>(onPress: Option<OnPress<M>>, isPressed: bool, cursorOver: bool): (s: Status)
    ensures s == Disabled <==> onPress.None?
    ensures s == Pressed <==> onPress.Some? && cursorOver && isPressed
    ensures s == Hovered <==> onPress.Some? && cursorOver && !isPressed
    ensures s == Active <==> onPress.Some? && !cursorOver
  {
    if onPress.None? then Disabled
    else if cursorOver then (if isPressed then Pressed else Hovered)
    else Active
  }

  /**
   Whether an input gets past the event-specific branches of the handler to
   the status logic: the child did not capture it, and it is a redraw
   request, an unrelated event, or a press the button does not take.
   */
  predicate FallsThrough<M>(onPress: Option<OnPress<M>>, input: Input)
  {
    !input.childCaptured &&
    match input.event
    case Press => !(onPress.Some? && input.cursorOver)
    case Release => false
    case FingerLost => false
    case RedrawRequested => true
    case Other => true
  }

  /**
   One call of the event handler, as a function of the callback, the
   persistent pressed flag and the committed status before the call.
   */
  function Handle<M>(onPress: Option<OnPress<M>>, isPressed: bool, status: Option<Status>, input: Input): (r: Reaction<M>)
    // An event the child captured is captured and changes nothing.
    ensures input.childCaptured ==> r == Reaction(Captured, isPressed, status, None, false)
    // A press over an enabled button presses it and is captured.
    ensures !input.childCaptured && input.event == Press && onPress.Some? && input.cursorOver ==>
              r == Reaction(Captured, true, status, None, false)
    // A release is always captured. It publishes the callback's message
    // exactly when the button was pressed, is enabled and the cursor is
    // over it, and it clears the pressed flag of an enabled button.
    ensures !input.childCaptured && input.event == Release ==>
              && r.result == Captured
              && (r.message.Some? <==> onPress.Some? && isPressed && input.cursorOver)
              && (r.message.Some? ==> r.message.value == onPress.value.Get())
              && r.isPressed == (isPressed && onPress.None?)
              && r.status == status && !r.redraw
    // A lost finger always clears the pressed flag and is captured.
    ensures !input.childCaptured && input.event == FingerLost ==>
              r == Reaction(Captured, false, status, None, false)
    // Everything else reaches the status logic and is ignored: a redraw
    // request commits the current status; any other event leaves the
    // committed status alone and asks for a redraw exactly when it differs.
    ensures FallsThrough(onPress, input) ==>
              && r.result == Ignored && r.isPressed == isPressed && r.message.None?
              && var current := CurrentStatus(onPress, isPressed, input.cursorOver);
                 if input.event == RedrawRequested then r.status == Some(current) && !r.redraw
                 else r.status == status && (r.redraw <==> status.Some? && status.value != current)
    ensures r.result == Ignored <==> FallsThrough(onPress, input)
    ensures r.message.Some? ==> !input.childCaptured && input.event == Release
  {
    if input.childCaptured then Reaction(Captured, isPressed, status, None, false)
    else match input.event
      case Press =>
        if onPress.Some? && input.cursorOver then Reaction(Captured, true, status, None, false)
        else StatusReaction(onPress, isPressed, status, input)
      case Release =>
        if onPress.Some? && isPressed then
          Reaction(Captured, false, status, if input.cursorOver then Some(onPress.value.Get()) else None, false)
        else Reaction(Captured, isPressed, status, None, false)
      case FingerLost => Reaction(Captured, false, status, None, false)
      case RedrawRequested => StatusReaction(onPress, isPressed, status, input)
      case Other => StatusReaction(onPress, isPressed, status, input)
  }

  /** The status logic reached by the inputs that fall through. */
  function StatusReaction<M>(onPress: Option<OnPress<M>>, isPressed: bool, status: Option<Status>, input: Input): Reaction<M>
  {
    var current := CurrentStatus(onPress, isPressed, input.cursorOver);
    if input.event == RedrawRequested then Reaction(Ignored, isPressed, Some(current), None, false)
    else Reaction(Ignored, isPressed, status, None, status.Some? && status.value != current)
  }

  /** The host's state slot for one button: it outlives the descriptors. */
  class Tree {
    var state: State

    /** The slot as the toolkit creates it on first insertion. */
    constructor ()
      ensures !state.isPressed
    {
      state := State(false);
    }
  }

  /** A button descriptor placed in the widget tree. */
  class Widget<M, L> {
    var button: Button<M, L>

    /** A disabled button has never committed a status other than `Disabled`. */
    ghost predicate Valid()
      reads this
    {
      button.onPress.None? ==> button.status.None? || button.status == Some(Disabled)
    }

    constructor (b: Button<M, L>)
      requires b.onPress.None? ==> b.status.None? || b.status == Some(Disabled)
      ensures button == b && Valid()
    {
      button := b;
    }

    /**
     Handles one event: offers it to the child first, then updates the
     persistent pressed flag in `tree`, the committed status, and reports
     the result, the message to publish and whether to request a redraw.
     */
    method OnEvent(tree: Tree, event: Event, childCaptured: bool, cursorOver: bool)
      returns (result: EventStatus, message: Option<M>, redraw: bool)
      requires Valid()
      modifies this, tree
      ensures Valid()
      ensures var r := Handle(old(button.onPress), old(tree.state.isPressed), old(button.status),
                              Input(event, childCaptured, cursorOver));
              && result == r.result && message == r.message && redraw == r.redraw
              && tree.state == State(r.isPressed)
              && button == old(button).(status := r.status)
    {
      message, redraw := None, false;
      if childCaptured {
        return Captured, message, redraw;
      }
      match event {
        case Press =>
          if button.onPress.Some? && cursorOver {
            tree.state := tree.state.(isPressed := true);
            return Captured, message, redraw;
          }
        case Release =>
          if button.onPress.Some? {
            var onPress := button.onPress.value.Get();
            if tree.state.isPressed {
              tree.state := tree.state.(isPressed := false);
              if cursorOver {
                message := Some(onPress);
              }
            }
          }
          return Captured, message, redraw;
        case FingerLost =>
          tree.state := tree.state.(isPressed := false);
          return Captured, message, redraw;
        case RedrawRequested =>
        case Other =>
      }
      var current := CurrentStatus(button.onPress, tree.state.isPressed, cursorOver);
      if event == RedrawRequested {
        button := button.(status := Some(current));
      } else if button.status.Some? && button.status.value != current {
        redraw := true;
      }
      result := Ignored;
    }
  }
}
