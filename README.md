# Aero button: a verified model of the retro push-button widget

The repository provides one widget for the iced GUI toolkit: a "retro" push
button that wraps a child element, tracks whether it is pressed, derives an
interaction status (Active, Hovered, Pressed, Disabled) for its look, and
publishes a message when clicked. This project models the widget's
configuration and its event handler and proves how the handler behaves.

- `wrappers.dfy`: the `Option` datatype.
- `aero_button.dfy`, module `AeroButton`:
  - the callback `OnPress` (`Direct(m)` or `Closure(f)`) and its `Get`;
  - the descriptor `Button` with the builder `New` and the setters;
  - `DefaultPadding`, and the persistent `State` held by the host in a `Tree` slot;
  - `CurrentStatus`, the status derivation;
  - `Handle`, one call of `on_event` as a pure function of the callback, the pressed flag, the committed status and the input;
  - class `Widget`, whose method `OnEvent` performs the same call step by step. It updates the tree's pressed flag and the descriptor's status in place. Its contract ties it to `Handle`.
- `button_traces.dfy`, module `ButtonTraces`:
  - `Run` folds the handler over a sequence of inputs;
  - lemmas about press/release sequences (the exactly-once click rule);
  - a client method that plays a click through `Widget.OnEvent`.

The toolkit is abstracted away:
- The child widget's own `on_event` becomes the input "the child captured the event".
- `cursor.is_over(layout.bounds())` becomes the input "the cursor is over the bounds". Within one call the code evaluates it for the same cursor and bounds each time, so one boolean stands for all of those evaluations.
- `shell.publish` and `shell.request_redraw` become outputs of the handler: an optional message and a redraw flag.
- Widths and heights are kept opaque, as a type parameter. `New` receives the child's size hint already made fluid.
- Messages are a type parameter. A closure callback is a pure Dafny function `() -> M`.

Behaviour worth noting in the code:
- The code makes the status `Pressed` only while the cursor is also over the bounds. A pressed button with the cursor outside reports `Active` (src/components/aero_button.rs:374-382).
- A release is reported captured even when no callback is configured (src/components/aero_button.rs:359).
- A press the button takes (callback set, cursor over), every release and every lost finger return before the status logic. Only the other events, including presses the button does not take, can commit a status or ask for a redraw.
- A redraw request is not a one-shot signal. Every event that reaches the status logic, other than a redraw request, asks for a redraw again for as long as the committed status differs from the computed one (src/components/aero_button.rs:387-388).
- Drawing does not tolerate a missing status. It unwraps it (src/components/aero_button.rs:174). A descriptor only gets a status from a redraw-request event.

## Model

| member | source | states |
|---|---|---|
| AeroButton.OnPress.Get | src/components/aero_button.rs:28-35 | a `Direct(m)` callback yields `m`; a closure yields what the closure produces |
| AeroButton.New | src/components/aero_button.rs:42-55 | a new button has no callback, does not clip, has no status, has padding 6 top/bottom and 20 left/right (the constant `DefaultPadding`, `DEFAULT_PADDING` at src/components/aero_button.rs:395-400), and takes the child's fluid width and height |
| AeroButton.Button.SetWidth | src/components/aero_button.rs:56-59 | sets the width and leaves every other field as it was |
| AeroButton.Button.SetHeight | src/components/aero_button.rs:61-64 | sets the height and leaves every other field as it was |
| AeroButton.Button.SetPadding | src/components/aero_button.rs:66-69 | sets the padding and leaves every other field as it was |
| AeroButton.Button.SetOnPress | src/components/aero_button.rs:71-74 | installs a `Direct` callback whose `Get` is the given message; nothing else changes |
| AeroButton.Button.SetOnPressWith | src/components/aero_button.rs:76-79 | installs a closure callback whose `Get` is what the closure produces; nothing else changes |
| AeroButton.Button.SetOnPressMaybe | src/components/aero_button.rs:81-84 | `None` removes the callback; `Some(m)` installs `Direct(m)`; nothing else changes |
| AeroButton.Button.SetClip | src/components/aero_button.rs:86-89 | sets the clip flag and leaves every other field as it was |
| AeroButton.Tree.constructor | src/components/aero_button.rs:102-116 | the persistent state starts not pressed |
| AeroButton.CurrentStatus | src/components/aero_button.rs:372-383 | Disabled iff no callback; otherwise Pressed iff the cursor is over and the button is pressed, Hovered iff over and not pressed, Active iff the cursor is not over (even while pressed) |
| AeroButton.Handle | src/components/aero_button.rs:315-391 | child-captured events are captured and change nothing. An enabled press over the bounds sets pressed and is captured. A release is always captured and publishes `Get()` exactly when enabled, pressed and over; it clears pressed iff a callback exists. A lost finger clears pressed and is captured. Every other event is ignored and keeps pressed: a redraw request commits the current status without a redraw, other events keep the status and redraw exactly when the committed status differs from the current one |
| AeroButton.Widget.OnEvent | src/components/aero_button.rs:304-392 | the in-place handler returns the result, message and redraw flag of `Handle`, and leaves the tree's pressed flag and the descriptor's status as `Handle` says, changing no other descriptor field; it keeps a disabled button's committed status `None` or `Disabled` |
| ButtonTraces.Run | src/components/aero_button.rs:344-360 | over any sequence of inputs, at most one message is published per release that reaches the button; every message is the callback's `Get()`; a disabled button publishes nothing, never becomes pressed, and (from no status or `Disabled`) never asks for a redraw |
| ButtonTraces.HeldUntilReleased | src/components/aero_button.rs:328-367 | a pressed button stays pressed and publishes nothing until a release or lost finger reaches it |
| ButtonTraces.ClickPublishesOnce | src/components/aero_button.rs:330-360 | with a callback: an event sequence of press-over, then events that do not end the press, then release-over publishes exactly `[Get()]`; with release-outside instead it publishes nothing; either way the button ends not pressed |
| ButtonTraces.ReleaseWithoutPressPublishesNothing | src/components/aero_button.rs:344-360 | a release on a button that is not pressed publishes nothing and leaves it not pressed |
| ButtonTraces.CommittedStatusDrivesRedraw | src/components/aero_button.rs:372-389 | after a redraw request commits the status, a later fall-through event keeps it and requests a redraw exactly when the status it computes differs from the committed one |
| ButtonTraces.StaleStatusRedrawsEveryEvent | src/components/aero_button.rs:385-389 | over a run of fall-through events other than redraw requests, each computing a status different from the committed one, every event asks for a redraw, and the committed status, pressed flag and published messages stay as they were |
| ButtonTraces.ClickScenario | src/components/aero_button.rs:304-392 | the imperative widget, driven through hover-and-commit, press, commit, release, commit, commits Hovered, Pressed, Hovered; over all five calls the only message published is the configured one, exactly once |

## Left out

- `draw` (src/components/aero_button.rs:163-302): floating-point colours, gradients, inset arithmetic and renderer calls. It needs a committed status, since it unwraps it.
- `size`, `children`, `diff`, `operate`, `layout` and the conversion into a toolkit element: each only delegates to toolkit functions that are not part of this model.
- `aero_button` (src/components/aero_button.rs:92-100) only calls `new`, so `New` models it.
- Padding values are `real` in the model where the code uses 32-bit floats (`f32`). The model does no arithmetic on them, so only the four constants matter.
- The `Into` conversions of the setters' arguments belong to the toolkit. The setters take a `Padding` and a width or height value directly.
- The child widget's own event handling, including anything it publishes. It is an input flag only.
- Side effects of a closure callback. `get` runs the closure on every release of an enabled button, even when the button is not pressed. Pure functions cannot observe that.
- Rebuilding the descriptor between frames is not modelled in `Run`. It folds the handler over one descriptor. The pressed flag lives in the `Tree` slot, which a rebuild keeps. A rebuilt descriptor starts again with no status.
- The demo application (src/main.rs): window setup, the view and a message printed on click.
