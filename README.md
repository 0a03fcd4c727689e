# Widget tree, focus and pointer dispatch

This project models the base `Widget` class of a small retained-mode GUI
library (include/Widget.hpp). That class is a tree of rectangles. Each widget
keeps the following:

- an ordered list of children. The back element of the list is the focused
  and top-most child;
- a parent pointer;
- a parent-relative rect and a hidden flag;
- press state: `m_down`, `m_downBtn` and the "a child took the point" flag
  `m_testInsideChild`;
- a hover target;
- the last pointer position it saw, in its own frame.

The class keeps the child lists and the parent pointers in step. It reorders
children to move focus. It routes presses, releases, hover, pointer motion,
wheel, key and draw signals down the tree.

All widgets live in one arena, the class `Widget.Arena`:

- `nodes` maps each widget's identity to its fields (`Tree.Node`);
- `log` records, in order, every virtual hook that fires (`Tree.Event`).
  The hooks are `onAdopt`, `onFocusLost`, `onPress`, `onClick`,
  `onMouseEnter` and so on;
- a ghost `anc` maps each widget to the set of its strict ancestors.

`Valid()` is the tree invariant `Tree.WellFormed`. It says:

- a parent lists a child exactly when the child names it as parent;
- no list names a widget twice;
- `anc` follows the parent links and is acyclic.

The recursive handlers terminate because each step down to a child shrinks
`nodes.Keys - anc[w]`.

Each source method is a method of `Widget.Arena` that acts on the widget `w`
and changes the arena the way the C++ changes the objects. Two kinds of
contract are used:

- Recursive handlers are proved against ghost specification functions of
  the arena they start from. For example, `OnUpdate` leaves
  `Hover.Refresh(old(nodes), anc, w)` and appends
  `Hover.UpdateLog(old(nodes), anc, w)`. The properties the source promises
  are then lemmas about those functions.
- The press and release handlers are specified at every widget of the
  subtree they are sent to (`Levels.Handled`). A widget the handler reaches,
  with no hidden widget between it and `w`, leaves its children as
  `Press.PressedLevel` or `Release.ReleasedLevel` says for the point it
  receives, and its children hear exactly `Press.PressNotices` or
  `Release.ReleaseNoticesOf`. Below a hidden widget nothing changes and
  nobody is told anything. Nothing outside the subtree of `w` changes.

Modules:

- `Seqs`: sequence helpers (the back-move of the focus code, erase, reverse
  search).
- `Tree`: the data model, the invariant, `isHidden` and `isFocused` as
  recursive predicates.
- `HitTest`: the half-open hit test, the reverse "top-most" scan, and the
  event filters used to say who hears what.
- `Focus`: `setFocus(idx)`, `setFocus(ptr)` and `popFocus` on a child
  list, including the pointer variant as written.
- `Adoption`: `addWidget` and `removeWidget` as arena updates.
- `Press` and `Release`: the outcome of `onMouseDown` and `onMouseUp` at
  one level.
- `Levels`: the same two handlers over the whole subtree, and the lemmas
  that lift a child's result to its parent.
- `Gesture`: a press followed by a release (the click law).
- `Walk`: the loop state shared by the handlers that rewrite a subtree.
- `Hover`: the hover pass of `onUpdate`.
- `Motion`: `onMouseMove`.
- `Broadcasts`: `onDraw`, `onMouseWheel`, `onKeyDown`, `onKeyUp` and
  `onKeyText`.
- `Widget`: the arena class and its methods.

Coordinates:

- Coordinates are unbounded integers.
- The hit test is `x <= px < x + width`, with the same for `y`.
- A point handed to a child is `Tree.Rel(x, child.x)`, that is, `x - child.x`.

## Model

| member | source | states |
|---|---|---|
| Widget.Arena.constructor | include/Widget.hpp:62-72 | the empty arena, the state before any widget is constructed, satisfies the tree invariant; each `Widget()` itself is `Widget.Arena.NewWidget` |
| Widget.Arena.NewWidget | include/Widget.hpp:62-72 | a constructed widget gets an identity no widget has. It has no parent or children, an empty rect at the origin and all flags cleared. The tree invariant is kept and no hook fires |
| Tree.FreshKeepsTree | include/Widget.hpp:62-72 | adding a parentless, childless widget keeps the tree invariant |
| Widget.Arena.AddWidget | include/Widget.hpp:173-182 | the child is pushed to the back of the parent's list and names the parent. `onAdopt` on the parent fires before `onAdopted` on the child. The invariant and the updated ancestry are kept |
| Adoption.AdoptFocusesChild | include/Widget.hpp:173-182 | after adopting, the new child is `getFocused()` and `isFocusedChild()`. The earlier children keep their order and the list grows by one |
| Adoption.AdoptKeepsTree | include/Widget.hpp:173-182 | adopting a parentless widget that is not an ancestor of the parent keeps the tree invariant |
| Widget.Arena.RemoveWidget | include/Widget.hpp:185-208 | the reverse scan finds the last occurrence and erases it, clears the child's parent, and fires `onDisown` then `onDisowned`, returning true. Without a match nothing changes and it returns false |
| Adoption.DisownRemovesChild | include/Widget.hpp:185-208 | removal succeeds exactly when the parent lists the child. The child is then parentless and no longer listed. The list is the old one with that entry cut out and the others in order. Every other widget and field is unchanged |
| Adoption.DisownKeepsTree | include/Widget.hpp:185-208 | removing a listed child keeps the tree invariant under the reduced ancestry |
| Adoption.DisownUndoesAdopt | include/Widget.hpp:173-208 | removing a freshly added child returns true and restores the arena and the ancestry exactly. Removing it again returns false and changes nothing |
| Seqs.LastIndexOf | include/Widget.hpp:190-205 | the reverse scan `for (i = size; i--;)` finds nothing exactly when the value is absent. Otherwise it finds the last occurrence |
| Seqs.RemoveAtMembers | include/Widget.hpp:197 | `erase` at `i` keeps a distinct list distinct and removes exactly the element at `i` |
| Widget.Arena.HasWidget | include/Widget.hpp:211-221 | the reverse scan reports true exactly when the parent lists the widget |
| Tree.ListedIffParent | include/Widget.hpp:211-242 | in a well-formed arena, a parent lists a child exactly when the child names that parent |
| Widget.Arena.HasParent | include/Widget.hpp:227-230 | true exactly when some widget of the arena lists this one |
| Widget.Arena.GetParent | include/Widget.hpp:233-242 | a returned parent exists and lists the widget. No parent means no widget lists it |
| Tree.GetFocused | include/Widget.hpp:325-344 | nothing exactly for an empty list. Otherwise the result is the back child of the list |
| Widget.Arena.SetFocusAt | include/Widget.hpp:275-295 | `setFocus(idx)` leaves the child list as `Focus.FocusAt` reorders it, appends its notifications and keeps the invariant |
| Focus.FocusAt | include/Widget.hpp:275-295 | nothing happens for an index out of range or for the back child. Otherwise the target moves to the back, the others keep their relative order, and `onFocusLost` on the previous back child precedes `onFocusGained` on the target |
| Focus.FocusAtPermutes | include/Widget.hpp:289-290 | the push and erase only rearrange the list |
| Seqs.MoveToBackPermutes | include/Widget.hpp:289-290 | moving an element to the back is a permutation |
| Focus.FocusAtKeepsTree | include/Widget.hpp:275-295 | a focus change keeps the tree invariant |
| Widget.Arena.SetFocusTo | include/Widget.hpp:298-322 | `setFocus(ptr)` with the guard of `setFocus(idx)` (see Findings): the list and the log become `Focus.FocusTo` of the old list |
| Focus.FocusToFocuses | include/Widget.hpp:298-322 | a listed child ends at the back. The list is permuted. The two notifications fire exactly when the child was not already at the back. An unlisted child changes nothing |
| Focus.RefocusIsSilent | include/Widget.hpp:298-322 | focusing the same child a second time keeps the order and fires nothing |
| Focus.AsWrittenAgreesWhenFocused | include/Widget.hpp:298-322 | under a focused parent, the code as written is defined and coincides with the corrected variant |
| Focus.SoleChildOutOfRange | include/Widget.hpp:298-322 | the code as written indexes outside the list for the only child of an unfocused widget |
| Focus.FocusedChildNotifiedAgain | include/Widget.hpp:298-322 | the code as written notifies a sibling that never had focus when the back child of an unfocused widget is focused again |
| Widget.Arena.PopFocus | include/Widget.hpp:382-398 | nothing happens unless the widget is the focused child of a parent with at least two children. In that case it trades places with the child before it, loses focus, and that child gains it |
| Focus.PopFocusSwapsLastTwo | include/Widget.hpp:382-398 | `setFocus(size - 2)` swaps the last two children and fires lost-then-gained on them |
| Focus.PopFocusTwiceRestores | include/Widget.hpp:382-398 | popping the focus twice restores the original order. The second pop gives the focus back to the child the first one took it from |
| Widget.Arena.IsFocused | include/Widget.hpp:347-368 | the walk up the parent chain returns the recursive `isFocused` predicate |
| Tree.FocusedIffPathFocused | include/Widget.hpp:347-379 | focused exactly when every widget on the path to the root is its parent's back child. A parentless widget counts as focused |
| Widget.Arena.IsHidden | include/Widget.hpp:145-161 | the walk up the parent chain returns the recursive `isHidden` predicate |
| Tree.HiddenIffPathHidden | include/Widget.hpp:145-161 | hidden exactly when some widget on the path to the root has its own flag set |
| Widget.Arena.Hide | include/Widget.hpp:164-167 | only the widget's own flag changes and no hook fires |
| Tree.HidingHidesSubtree | include/Widget.hpp:145-167 | hiding a widget makes every widget of its subtree hidden |
| Widget.Arena.Move | include/Widget.hpp:83-89 | the rect is shifted by the displacement, which `onMove` reports. Nothing else changes |
| Widget.Arena.SetPosition | include/Widget.hpp:91-98 | the widget ends at the given position. This is a move by the displacement from the old position, which `onMove` reports |
| Widget.Arena.SetSize | include/Widget.hpp:117-123 | the size is replaced, the position kept, and `onResize` fires |
| Widget.Arena.IsHeldDown | include/Widget.hpp:404-412 | reports `m_down`, and the holding button when held |
| Widget.Arena.IsMouseHovering | include/Widget.hpp:415-424 | true exactly when the widget's parent lists it and has it as hover target. A parentless widget is never hovered |
| Widget.Arena.OnMouseDown | include/Widget.hpp:622-671 | a hidden widget changes nothing. Otherwise the widget's own hold is kept and it records whether a visible child contains the point. Nothing outside the subtree changes. At every widget of the subtree (`Levels.Handled`): if it is reached with no hidden widget on the way, its children are left as `Press.PressedLevel` says for the point it receives and hear exactly `Press.PressNotices`; otherwise its children and their order are untouched and hear nothing. No widget's hover target or last pointer position changes (`Tree.PointerKept`) |
| Widget.Arena.PressChildren | include/Widget.hpp:631-636 | the reverse forwarding loop leaves every child settled with its own claim, and the subtree of every child handled as `Levels.Handled` says. It changes only the subtree and tells the widget's own children nothing. No widget's hover target or last pointer position changes (`Tree.PointerKept`) |
| Widget.Arena.SelectPressed | include/Widget.hpp:640-670 | the second reverse scan stops at the first visible child containing the point, or finds none |
| Widget.Arena.PressTarget | include/Widget.hpp:650-666 | the chosen child is held, moved to the back with the focus notifications, and sent `onPress` unless it claimed the point |
| Press.Hold | include/Widget.hpp:652-657 | a held child records the button only if it was not already down. Nothing else changes |
| Press.PressNoticesShape | include/Widget.hpp:629-670 | at most one `onPress` is sent per press, and it is the last notification. Its target is the first visible child containing the point in reverse order, and it fires only if that child did not claim the point. Nothing is sent when the widget is hidden or no child is hit |
| HitTest.Topmost | include/Widget.hpp:640-670 | the reverse scan returns a hit child with no hit child after it, or none exactly when no child is hit |
| HitTest.TopmostFindsAny | include/Widget.hpp:640-670 | the scan finds a child exactly when some child is hit |
| Widget.Arena.MouseDown | include/Widget.hpp:461-484 | the root handler plus the root's own hold and `onPress`. The root is pressed exactly when it is visible, no child claimed the point, and the point is inside its own rect compared in the same coordinates. The whole subtree is handled as `Levels.Handled` says. No widget's hover target or last pointer position changes (`Tree.PointerKept`) |
| Widget.Arena.OnMouseUp | include/Widget.hpp:675-721 | a hidden widget changes nothing. Otherwise every child held by the button is released and the others keep their hold. The widget records whether any child contains the point. At every widget of the subtree that is reached, its children are left as `Release.ReleasedLevel` says and hear exactly `Release.ReleaseNoticesOf`. Below a hidden widget nothing changes and nothing is heard. No widget's hover target or last pointer position changes (`Tree.PointerKept`) |
| Widget.Arena.ReleaseChildren | include/Widget.hpp:685-720 | the forward loop visits every child, produces the notices for the whole list and leaves the subtree of every child handled. No widget's hover target or last pointer position changes (`Tree.PointerKept`) |
| Widget.Arena.ReleaseChild | include/Widget.hpp:687-719 | one turn of the forward loop extends the notices by the current child's. The current child's subtree is then handled, the earlier ones stay handled and the later ones untouched. No widget's hover target or last pointer position changes (`Tree.PointerKept`) |
| Widget.Arena.ReleaseTurn | include/Widget.hpp:691-719 | after the child's own handler, the claim is recorded, a hold by the button is dropped even if the child is hidden, and `onRelease`/`onClick` fire as `Release.ReleaseFired` says |
| Release.ReleaseOfShape | include/Widget.hpp:698-719 | a child hears only its own notifications. `onRelease` fires exactly when the button holds it and it is visible. `onClick` fires exactly when, in addition, its own children did not take the point and the point is in its rect |
| Release.ReleaseNoticesShape | include/Widget.hpp:682-720 | over the child list, only listed children are notified. Each one gets `onRelease` and `onClick` exactly under those conditions |
| Widget.Arena.MouseUp | include/Widget.hpp:488-514 | the root handler plus the root's own release: its hold by the button is dropped, and `onRelease` then `onClick` fire as `Release.RootReleaseFired` says. The whole subtree is handled as `Levels.Handled` says. No widget's hover target or last pointer position changes (`Tree.PointerKept`) |
| Levels.OpenChild | include/Widget.hpp:622-721 | a widget below child `c` of `w` is reached from `w` exactly when `w` is visible and it is reached from `c` |
| Levels.OpenRoot | include/Widget.hpp:622-721 | nothing is reached below a hidden widget |
| Levels.HandledHidden | include/Widget.hpp:622-721 | a handler sent to a hidden widget leaves the whole subtree as it was and fires nothing |
| Levels.LevelDoneAgree | include/Widget.hpp:622-721 | what one level does and says depends only on that widget, its children and the geometry |
| Levels.HandledLift | include/Widget.hpp:632-689 | what a child's handler does in the child's subtree, sent the child-relative point, is what the parent's handler must do there |
| Levels.HandledFrame | include/Widget.hpp:622-721 | later steps that keep the child lists of a subtree, keep everything strictly below its root and fire nothing there keep it handled |
| Levels.PressRound | include/Widget.hpp:631-636 | one turn of the reverse forwarding loop: the current child's subtree becomes handled, later ones stay handled, earlier ones untouched |
| Levels.ReleaseRound | include/Widget.hpp:685-720 | one turn of the forward loop: the current child's subtree becomes handled, earlier ones stay handled, later ones untouched |
| Levels.SelectionHandled | include/Widget.hpp:640-670 | the second loop of `onMouseDown` keeps every child's subtree handled and completes the widget's own level |
| Levels.RootReleaseHandled | include/Widget.hpp:495-513 | the root's drop of its own hold and its own notifications keep the subtree handled |
| Gesture.ReleaseOnlyOne | include/Widget.hpp:685-720 | at one level of the release, a listed child hears exactly its own `onRelease`/`onClick` |
| Gesture.PressThenRelease | include/Widget.hpp:622-721 | press then release with the same button: the press goes to the top-most visible child containing the point, which hears `onPress` exactly when none of its visible children contains it. If that child was free or held by the same button, the release sends it one `onRelease`, then one `onClick` exactly when the release point is inside it and on none of its children, hidden ones included |
| Gesture.HiddenChildSuppressesClick | include/Widget.hpp:640-716 | a widget with a hidden child over its whole rect is pressed, but the release at the same point sends it `onRelease` and no `onClick` |
| Widget.Arena.HoverPass | include/Widget.hpp:560-594 | the reverse hover scan sets the hover target to `Hover.HoverTarget` and fires `Hover.HoverFired` |
| Widget.Arena.HoverMoves | include/Widget.hpp:575-585 | changing the hover target fires `onMouseLeave` on the old target (if any) and then `onMouseEnter` on the new one |
| Hover.HoverTarget | include/Widget.hpp:560-587 | the target is the first child in reverse order whose rect contains the recorded pointer, or none exactly when no child does. Hidden children are not skipped |
| Hover.HoverFiredShape | include/Widget.hpp:572-594 | at most two notifications, none exactly when the target is unchanged. Leave goes to the old target and precedes enter to the new one |
| Hover.HoverPassSettles | include/Widget.hpp:560-594 | a second hover pass right after the first fires nothing |
| Widget.Arena.OnUpdate | include/Widget.hpp:556-599 | the arena becomes `Hover.Refresh` (every widget of the subtree hovers its target) and the log grows by `Hover.UpdateLog`. The pass runs at the widget first, then recursively in forward child order |
| Widget.Arena.UpdateChild | include/Widget.hpp:597-598 | one turn of the forward loop: the child's subtree reaches its refreshed state and the log its notifications |
| Hover.RefreshIsCalm | include/Widget.hpp:556-599 | after an update every widget of the subtree hovers its own target |
| Hover.CalmIsQuiet | include/Widget.hpp:556-599 | an update over a subtree where everybody already hovers its target fires nothing |
| Hover.UpdateIdempotent | include/Widget.hpp:556-599 | a second update without pointer motion changes nothing and fires nothing |
| Widget.Arena.OnMouseMove | include/Widget.hpp:739-753 | every widget of the subtree, hidden ones included, records the pointer in its own frame (`Motion.Moves`). No hook fires |
| Widget.Arena.MoveChild | include/Widget.hpp:748-752 | one turn of the forward loop brings the child's subtree to its moved state |
| Motion.MovesConfined | include/Widget.hpp:739-753 | a move changes only the pointer fields of the subtree and keeps the tree |
| Motion.LocalChild | include/Widget.hpp:748-752 | the point a descendant sees from a child, sent the child-relative point, is the one it sees from the parent |
| Motion.MoveLastWins | include/Widget.hpp:739-753 | moving twice is moving to the last point |
| Motion.MovedFramesAgree | include/Widget.hpp:566-567 | after a move, a child contains the point its parent recorded exactly when the point the child recorded lies in `[0, width) × [0, height)` |
| Widget.Arena.Dispatch | include/Widget.hpp:603-618 | the broadcast handlers append exactly `Broadcasts.Broadcast`: the widget is reached, then each child in forward order with the translated signal, except that the draw signal skips hidden widgets |
| Widget.Arena.DispatchChild | include/Widget.hpp:611-617 | one turn of the forward broadcast loop |
| Widget.Arena.OnDraw | include/Widget.hpp:603-618 | `onDraw` is the draw broadcast from the given screen position |
| Widget.Arena.Draw | include/Widget.hpp:454-457 | `draw()` starts the draw broadcast at the widget's own offset |
| Widget.Arena.OnMouseWheel | include/Widget.hpp:725-735 | `onMouseWheel` is the wheel broadcast |
| Widget.Arena.OnKeyDown | include/Widget.hpp:757-762 | `onKeyDown` is the key-down broadcast |
| Widget.Arena.OnKeyUp | include/Widget.hpp:766-771 | `onKeyUp` is the key-up broadcast |
| Widget.Arena.OnKeyText | include/Widget.hpp:775-780 | `onKeyText` is the text broadcast |
| Broadcasts.TranslateKeepsKind | include/Widget.hpp:603-780 | passing a signal to a child keeps its kind. Key and text signals pass unchanged |
| Broadcasts.BroadcastHas | include/Widget.hpp:603-618 | every entry of a broadcast is a widget of the subtree that the signal reaches, with its translated signal. Every reached widget of the subtree appears |
| Broadcasts.BroadcastOnce | include/Widget.hpp:725-780 | a broadcast reaches each widget at most once |
| Broadcasts.NonDrawReachesAll | include/Widget.hpp:725-780 | wheel and key signals reach every widget of the subtree, hidden ones included |
| Broadcasts.DrawReachesVisible | include/Widget.hpp:603-618 | the draw signal reaches a widget exactly when it is the root of the broadcast or no widget from it up to that root is hidden |
| Broadcasts.ReachChild | include/Widget.hpp:611-617 | a descendant is reached from the parent exactly when it is reached from the child, sent the translated signal, and neither of the two is skipped |
| Broadcasts.WheelAt | include/Widget.hpp:725-735 | the wheel point a widget receives is the point in its own frame, and the delta is unchanged |
| Broadcasts.DrawAt | include/Widget.hpp:603-618 | the screen position a widget is drawn at is the start position plus the offsets of the widgets below the root down to it |
| Broadcasts.KeyAt | include/Widget.hpp:757-780 | key and text signals arrive unchanged at every depth |

## Left out

- WidgetTemplate.cpp and WidgetTemplate.hpp are not part of this model. They hold empty hooks and forwards only.
- Widget.Arena.AddWidget: requires that the child has no parent and is not the new parent or one of its ancestors. The source has no guard, and adopting a parented widget or creating a cycle leaves the objects inconsistent, so recursion into them would not end.
- The rect fields are `double` in the source and points are truncated with `static_cast<int>`. Here the fields are integers, so the casts are exact. Floating-point rounding is not modelled.
- `m_testInsideChild` is never initialised by the constructor. The model starts it false.
- Widget.Arena.IsHeldDown: the source writes through a `btn` pointer that defaults to NULL, which is undefined when the widget is held. The model returns the button as a second result instead.
- The destructor does nothing and ownership is external, so memory lifetime is not modelled. So is a dangling hover pointer, which here is just an identity that may no longer be listed.
- Hooks are virtual and may be overridden. In the model each hook is an entry appended to `log`, and overrides are not modelled. That includes re-entrant tree changes made from inside a hook during a dispatch loop. `onMove` and `onResize` likewise become log entries.
- `onUpdate(dt)` ignores `dt` apart from passing it down, so the model has no `dt`. `onMouseMove` passes `dx, dy` unchanged to every widget and uses them nowhere, so they are left out too.
- `udata` in `draw`/`onDraw` is an opaque rendering pointer and is left out. A drawn widget is logged with its accumulated screen position.
- The public `update`, `mouseWheel`, `mouseMove`, `keyDown`, `keyUp` and `keyText` only forward to the matching handler (include/Widget.hpp:448-451, 518-547). They are modelled by `OnUpdate`, `OnMouseMove`, `OnMouseWheel`, `OnKeyDown`, `OnKeyUp` and `OnKeyText`.
- Plain field reads are not modelled as separate members: `getPosition*`, `getSize`, `getWidth`, `getHeight`, `hasChildren`, `getChild`, `getNumOfChildren` and `getRelativeMouse*`. `getChild`'s out-of-range index is undefined.
- Widget.Arena.OnMouseDown, Widget.Arena.OnMouseUp, Widget.Arena.MouseDown, Widget.Arena.MouseUp: each level's share of the log and the set of notifications are stated, but not how the shares of different levels interleave in the log.
- Widget.Arena.SetFocusTo: uses the `isFocusedChild()` guard of `setFocus(idx)` (see Findings). The code as written is kept only as `Focus.FocusToAsWritten`, where its undefined case is an explicit outcome.
- Kept as the source has them rather than fixed:
  - `mouseDown` and `mouseUp` compare the widget-relative point with the widget's own parent-relative rect;
  - the click test at line 709 reads the child's own `m_testInsideChild`;
  - the hover scan does not skip hidden children;
  - `onMouseUp` drops the hold of a hidden child too;
  - `onMouseUp` sets `m_testInsideChild` from the rects of all children, hidden ones included (lines 691-696), while the press scan skips hidden children (line 644). A hidden child over the pressed point therefore turns the click into a plain release (`Gesture.HiddenChildSuppressesClick`).

## Findings

| source | as written | input that shows it | evidently intended | confidence | as-written member | corrected member |
|---|---|---|---|---|---|---|
| include/Widget.hpp:310-318 | `setFocus(ptr)` skips only when `isFocused()` holds for the whole path to the root. It then pushes and erases, and notifies `m_widgets[size - 2]` | root 0 lists 1 then 2, and 1 lists only 3; `setFocus(3)` on 1, which is not focused: 3 is pushed again and `m_widgets[size - 2]` lies before the start of the one-element list | the `isFocusedChild()` guard of `setFocus(idx)`, which returns early for the back child | not executed; high | Focus.SoleChildOutOfRange | Focus.FocusToFocuses |
| include/Widget.hpp:310-318 | the same guard | root 0 lists 1 then 2, and 1 lists 3 then 4; `setFocus(4)` on 1, which is not focused: the order stays, but 3, which never had focus, is told it lost focus and 4 is told it gained it | no notification when the child is already at the back | not executed; medium | Focus.FocusedChildNotifiedAgain | Focus.FocusToFocuses |
