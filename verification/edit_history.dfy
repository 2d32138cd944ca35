/** The undo/redo history (EditHistory.kt): edits are recorded in groups,
    groups may nest, a closed outermost group goes on a bounded undo
    stack, and undoing or redoing a group replays its edits with
    recording switched off.

    What an edit does when undone or redone (circuit and board changes)
    is outside this module: an edit is its circuit's manager and an
    identity, and replaying records which edits were applied, in which
    direction and order. Stacks are sequences with the top first. */
module EditHistory {
  import opened Wrappers

  /** The most groups the undo stack keeps. */
  const MAX_HISTORY: nat := 300

  /** An edit of some circuit: the manager it belongs to and an identity. */
  datatype Edit = Edit(manager: nat, id: nat)

  datatype History = History(
    editStack: seq<seq<Edit>>,
    redoStack: seq<seq<Edit>>,
    disableDepth: int,
    groupDepth: nat,
    groups: seq<seq<Edit>>)

  /** A new history. */
  const Fresh: History := History([], [], 0, 0, [])

  /** What the operations keep: one open group list per nesting level, at
      most `MAX_HISTORY` groups to undo, and no empty group on a stack. */
  predicate WellFormed(h: History)
  {
    && |h.groups| == h.groupDepth
    && |h.editStack| <= MAX_HISTORY
    && (forall i | 0 <= i < |h.editStack| :: h.editStack[i] != [])
    && (forall i | 0 <= i < |h.redoStack| :: h.redoStack[i] != [])
  }

  /** `clear`: both stacks emptied. */
  function Clear(h: History): (r: History)
    ensures r.editStack == [] && r.redoStack == []
    ensures r.groups == h.groups && r.groupDepth == h.groupDepth && r.disableDepth == h.disableDepth
    ensures WellFormed(h) ==> WellFormed(r)
  {
    h.(editStack := [], redoStack := [])
  }

  /** `disable`: one level deeper. */
  function Disable(h: History): (r: History)
    ensures r.disableDepth == h.disableDepth + 1 && r == h.(disableDepth := r.disableDepth)
  {
    h.(disableDepth := h.disableDepth + 1)
  }

  /** `enable`: one level shallower; going below zero is reported after
      the counter has changed. */
  function Enable(h: History): (r: Outcome<History>)
    ensures r.value == h.(disableDepth := h.disableDepth - 1)
    ensures r.fault.Some? <==> h.disableDepth <= 0
    ensures r.fault.Some? ==> r.fault.value == IllegalState("This should never happen!")
  {
    var h' := h.(disableDepth := h.disableDepth - 1);
    if h'.disableDepth >= 0 then Outcome(h', None)
    else Outcome(h', Some(IllegalState("This should never happen!")))
  }

  /** Disabling and then enabling changes nothing and cannot fail. */
  lemma DisableEnable(h: History)
    requires h.disableDepth >= 0
    ensures Enable(Disable(h)) == Outcome(h, None)
  {
  }

  /** `beginGroup`: a new, empty innermost group. */
  function BeginGroup(h: History): (r: History)
    ensures r.groupDepth == h.groupDepth + 1 && r.groups == h.groups + [[]]
    ensures r.editStack == h.editStack && r.redoStack == h.redoStack && r.disableDepth == h.disableDepth
    ensures WellFormed(h) ==> WellFormed(r)
  {
    h.(groupDepth := h.groupDepth + 1, groups := h.groups + [[]])
  }

  /** Puts a group on top of the undo stack, dropping the oldest group when
      the stack would exceed its bound. */
  function Push(stack: seq<seq<Edit>>, g: seq<Edit>): (r: seq<seq<Edit>>)
    requires |stack| <= MAX_HISTORY
    ensures |r| <= MAX_HISTORY && r != [] && r[0] == g
    ensures |stack| < MAX_HISTORY ==> r == [g] + stack
    ensures |stack| == MAX_HISTORY ==> r == [g] + stack[..|stack| - 1]
  {
    var pushed := [g] + stack;
    if |pushed| > MAX_HISTORY then pushed[..|pushed| - 1] else pushed
  }

  /** `endGroup`: closing with no group open fails and changes nothing.
      Closing the outermost group pushes its edits, if any, on the undo
      stack; closing an inner one appends its edits to the enclosing
      group. The checks and list accesses that the well-formed state
      rules out fail as the source does. */
  function EndGroup(h: History): (r: Outcome<History>)
    requires |h.editStack| <= MAX_HISTORY
    ensures h.groupDepth == 0 ==> r == Outcome(h, Some(IllegalState("Mismatched call to endGroup.")))
    ensures WellFormed(h) ==> (r.fault.None? <==> h.groupDepth != 0)
    ensures WellFormed(h) ==> WellFormed(r.value)
    ensures WellFormed(h) && h.groupDepth == 1 ==>
      (&& r.value.groups == [] && r.value.redoStack == h.redoStack
       && r.value.editStack == (if h.groups[0] == [] then h.editStack else Push(h.editStack, h.groups[0])))
    ensures WellFormed(h) && h.groupDepth > 1 ==>
      (&& r.value.editStack == h.editStack && r.value.redoStack == h.redoStack
       && r.value.groups == h.groups[..h.groupDepth - 2] + [h.groups[h.groupDepth - 2] + h.groups[h.groupDepth - 1]])
    ensures r.value.disableDepth == h.disableDepth
  {
    if h.groupDepth == 0 then Outcome(h, Some(IllegalState("Mismatched call to endGroup.")))
    else
      var depth := h.groupDepth - 1;
      var h' := h.(groupDepth := depth);
      if depth == 0 then
        if |h.groups| != 1 then Outcome(h', Some(IllegalState("There should only be a single group left")))
        else
          var edits := h.groups[0];
          var stack := if edits == [] then h.editStack else Push(h.editStack, edits);
          Outcome(h'.(editStack := stack, groups := []), None)
      else if |h.groups| <= depth then Outcome(h', Some(IndexOutOfBounds))
      else
        var merged := h.groups[depth - 1] + h.groups[depth];
        Outcome(h'.(groups := h.groups[..depth - 1] + [merged] + h.groups[depth + 1..]), None)
  }

  /** `clearGroup` as written: its null check on the group list can never
      fail, so with no group open it reads the list at index -1. */
  function ClearGroupAsWritten(h: History): (r: Result<History>)
    ensures h.groupDepth == 0 ==> r == Failure(IndexOutOfBounds)
    ensures h.groupDepth > 0 && |h.groups| >= h.groupDepth ==> r == Success(ClearGroup(h).value)
  {
    if h.groupDepth == 0 || |h.groups| < h.groupDepth then Failure(IndexOutOfBounds)
    else Success(h.(groups := h.groups[..h.groupDepth - 1] + [[]]))
  }

  /** `clearGroup` as its message intends: with no group open it reports
      that no group was started; otherwise the innermost group is emptied
      and any deeper lists are dropped. */
  function ClearGroup(h: History): (r: Result<History>)
    ensures r.Failure? <==> h.groupDepth == 0 || |h.groups| < h.groupDepth
    ensures h.groupDepth == 0 ==> r == Failure(IllegalState("No group started"))
    ensures r.Success? ==>
      (r.value.groups == h.groups[..h.groupDepth - 1] + [[]] && r.value == h.(groups := r.value.groups))
    ensures WellFormed(h) && r.Success? ==> WellFormed(r.value)
  {
    if h.groupDepth == 0 then Failure(IllegalState("No group started"))
    else if |h.groups| < h.groupDepth then Failure(IndexOutOfBounds)
    else Success(h.(groups := h.groups[..h.groupDepth - 1] + [[]]))
  }

  /** The two agree whenever a group is open, and differ in the failure
      they report when none is. */
  lemma ClearGroupDiffers(h: History)
    ensures h.groupDepth > 0 ==> ClearGroupAsWritten(h) == ClearGroup(h)
    ensures h.groupDepth == 0 ==> ClearGroupAsWritten(h) != ClearGroup(h)
  {
  }

  /** `addAction`: while recording is enabled the edit is wrapped in its
      own group, so it joins any open group or else becomes a group of
      its own on the undo stack; the redo stack is cleared and the
      listeners are told. While disabled nothing happens. Returns the
      edits the listeners were told of. */
  function AddAction(h: History, action: Edit): (r: (History, seq<Edit>))
    requires WellFormed(h)
    ensures WellFormed(r.0)
    ensures h.disableDepth != 0 ==> r == (h, [])
    ensures h.disableDepth == 0 ==> r.1 == [action] && r.0.redoStack == [] && r.0.disableDepth == 0
    ensures h.disableDepth == 0 && h.groupDepth == 0 ==> r.0.groups == [] && r.0.editStack == Push(h.editStack, [action])
    ensures h.disableDepth == 0 && h.groupDepth > 0 ==>
      (r.0.editStack == h.editStack && r.0.groups == h.groups[..h.groupDepth - 1] + [h.groups[h.groupDepth - 1] + [action]])
  {
    if h.disableDepth != 0 then (h, [])
    else
      var begun := BeginGroup(h);
      var depth := begun.groupDepth;
      var withAction := begun.(groups := begun.groups[depth - 1 := begun.groups[depth - 1] + [action]]);
      assert begun.groups[depth - 1] + [action] == [action];
      assert withAction.groups == h.groups + [[action]];
      assert depth > 1 ==> withAction.groups[..depth - 2] == h.groups[..h.groupDepth - 1];
      var closed := EndGroup(withAction).value;
      (closed.(redoStack := []), [action])
  }

  /** `editStackSize`: an open group counts as one more entry. */
  function EditStackSize(h: History): (n: nat)
    ensures n == |h.editStack| || (n == |h.editStack| + 1 && h.groups != [])
    ensures WellFormed(h) ==> n <= MAX_HISTORY + 1
  {
    |h.editStack| + (if h.groups == [] then 0 else 1)
  }

  /** `redoStackSize`. */
  function RedoStackSize(h: History): nat
  {
    |h.redoStack|
  }

  /** One edit replayed: undone, or redone. */
  datatype Step = Undone(edit: Edit) | Redone(edit: Edit)

  /** What `undo` and `redo` leave: the history, the manager they return
      (`null` when there was nothing to replay), the edits replayed in
      order, the boards whose `rejoinWiresEnabled` was switched off during
      the replay and back on after it, and a failure of the closing
      `enable`, if any. */
  datatype Replay = Replay(history: History, manager: Option<nat>, steps: seq<Step>, boards: set<nat>, fault: Option<Fault>)

  /** The edits of a group undone last to first. */
  function UndoSteps(g: seq<Edit>): (r: seq<Step>)
    ensures |r| == |g| && forall i | 0 <= i < |g| :: r[i] == Undone(g[|g| - 1 - i])
  {
    if g == [] then [] else [Undone(g[|g| - 1])] + UndoSteps(g[..|g| - 1])
  }

  /** The edits of a group redone first to last. */
  function RedoSteps(g: seq<Edit>): (r: seq<Step>)
    ensures |r| == |g| && forall i | 0 <= i < |g| :: r[i] == Redone(g[i])
  {
    if g == [] then [] else [Redone(g[0])] + RedoSteps(g[1..])
  }

  /** The managers of a group's edits. */
  function Managers(g: seq<Edit>): (r: set<nat>)
    ensures forall m :: m in r <==> exists i | 0 <= i < |g| :: g[i].manager == m
  {
    set i | 0 <= i < |g| :: g[i].manager
  }

  /** `undo`: with nothing to undo, nothing happens and `null` is returned.
      Otherwise the top group moves to the redo stack and its edits are
      undone in reverse order with recording disabled; the group's first
      edit's manager is returned. */
  function Undo(h: History): (r: Replay)
    requires WellFormed(h)
    ensures h.editStack == [] <==> r.manager.None?
    ensures h.editStack == [] ==> r == Replay(h, None, [], {}, None)
    ensures h.editStack != [] ==> && r.history.editStack == h.editStack[1..]
                                  && r.history.redoStack == [h.editStack[0]] + h.redoStack
                                  && r.steps == UndoSteps(h.editStack[0])
                                  && r.manager == Some(h.editStack[0][0].manager)
                                  && r.boards == Managers(h.editStack[0])
    ensures r.history.groups == h.groups && r.history.disableDepth == h.disableDepth
    ensures r.fault.Some? <==> h.editStack != [] && h.disableDepth < 0
    ensures WellFormed(r.history)
  {
    if h.editStack == [] then Replay(h, None, [], {}, None)
    else
      var popped := h.editStack[0];
      var moved := h.(editStack := h.editStack[1..], redoStack := [popped] + h.redoStack);
      var closing := Enable(Disable(moved));
      Replay(closing.value, Some(popped[0].manager), UndoSteps(popped), Managers(popped), closing.fault)
  }

  /** `redo`: with nothing to redo, nothing happens and `null` is returned.
      Otherwise the top redo group goes back on the undo stack (dropping
      the oldest group if the stack is full) and its edits are redone in
      order with recording disabled. */
  function Redo(h: History): (r: Replay)
    requires WellFormed(h)
    ensures h.redoStack == [] <==> r.manager.None?
    ensures h.redoStack == [] ==> r == Replay(h, None, [], {}, None)
    ensures h.redoStack != [] ==> && r.history.redoStack == h.redoStack[1..]
                                  && r.history.editStack == Push(h.editStack, h.redoStack[0])
                                  && r.steps == RedoSteps(h.redoStack[0])
                                  && r.manager == Some(h.redoStack[0][0].manager)
                                  && r.boards == Managers(h.redoStack[0])
    ensures r.history.groups == h.groups && r.history.disableDepth == h.disableDepth
    ensures r.fault.Some? <==> h.redoStack != [] && h.disableDepth < 0
    ensures WellFormed(r.history)
  {
    if h.redoStack == [] then Replay(h, None, [], {}, None)
    else
      var popped := h.redoStack[0];
      var moved := h.(redoStack := h.redoStack[1..], editStack := Push(h.editStack, popped));
      var closing := Enable(Disable(moved));
      Replay(closing.value, Some(popped[0].manager), RedoSteps(popped), Managers(popped), closing.fault)
  }

  /** Redoing what was just undone restores the history and replays the
      same edits in the opposite direction and order. */
  lemma UndoThenRedo(h: History)
    requires WellFormed(h) && h.editStack != []
    ensures var u := Undo(h);
      var r := Redo(u.history);
      && r.history == h
      && |r.steps| == |u.steps|
      && forall i | 0 <= i < |u.steps| :: u.steps[i] == Undone(r.steps[|r.steps| - 1 - i].edit)
  {
  }

  /** Undoing what was just redone restores the history, unless the undo
      stack was full and the redo pushed its oldest group out. */
  lemma RedoThenUndo(h: History)
    requires WellFormed(h) && h.redoStack != []
    ensures var r := Redo(h);
      var u := Undo(r.history);
      && (|h.editStack| < MAX_HISTORY <==> u.history == h)
      && u.steps == UndoSteps(h.redoStack[0])
  {
    var r := Redo(h);
    var u := Undo(r.history);
    if |h.editStack| == MAX_HISTORY {
      assert |u.history.editStack| == MAX_HISTORY - 1;
    }
  }

  /** Every well-formed history is reachable in the sense that all
      operations keep it well formed, so the undo stack never holds more
      than `MAX_HISTORY` groups. Recording a fresh edit into a full undo
      stack drops the oldest group and keeps the rest. */
  lemma FullStackDropsOldest(h: History, action: Edit)
    requires WellFormed(h) && h.disableDepth == 0 && h.groupDepth == 0 && |h.editStack| == MAX_HISTORY
    ensures var r := AddAction(h, action).0;
      |r.editStack| == MAX_HISTORY && r.editStack[0] == [action] && r.editStack[1..] == h.editStack[..MAX_HISTORY - 1]
  {
  }
}
