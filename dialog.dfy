/** `Dialog`: a stack of full-screen dialogs kept in step with the browser history.
    `show` pushes a dialog and a history entry carrying its z-index; a `popstate` event
    whose entry has a lower z-index pops the top dialog; only the top one is visible. */
module Dialog {
  import opened Wrappers

  /** The z-index the counter starts from (`initData`). */
  const InitZIndex: int := 1001

  /** A shown dialog: its component (named) and the z-index it was shown at. */
  datatype Com = Com(fn: string, zIndex: int)

  /** The history call a step makes. `state` is the current history state with only
      `zIndex` overwritten; its other fields and the URL are not modelled. */
  datatype HistoryCall = ReplaceState(zIndex: int) | PushState(zIndex: int) | Back

  /** The two signals, `coms` and `zIndex`, as a value. */
  datatype DialogState = DialogState(coms: seq<Com>, zIndex: int)

  /** `e.state?.zIndex || 0`: the z-index of the entry reached, with a missing state, a
      missing z-index or a falsy one read as 0. */
  function EventIndex(ev: Option<int>): int {
    if ev.Some? then ev.value else 0
  }

  /** `Dialog.show(fn, replace)` as a step. */
  function ShowStep(st: DialogState, fn: string, replace: bool): (r: (DialogState, HistoryCall))
    ensures r.0.zIndex == st.zIndex + 1
    ensures r.0.coms == st.coms + [Com(fn, st.zIndex + 1)]
    ensures r.1 == if replace then ReplaceState(st.zIndex + 1) else PushState(st.zIndex + 1)
  {
    var z := st.zIndex + 1;
    (DialogState(st.coms + [Com(fn, z)], z), if replace then ReplaceState(z) else PushState(z))
  }

  /** The `popstate` listener as a step: a lower index pops the top dialog (none when the
      stack is empty) and lowers the counter anyway; a higher one goes back in history;
      an equal one does nothing. */
  function PopStep(st: DialogState, ev: Option<int>): (r: (DialogState, Option<HistoryCall>))
    ensures EventIndex(ev) < st.zIndex ==>
      && r.0.zIndex == st.zIndex - 1 && r.1 == None
      && r.0.coms == (if st.coms == [] then [] else st.coms[..|st.coms| - 1])
    ensures EventIndex(ev) > st.zIndex ==> r == (st, Some(Back))
    ensures EventIndex(ev) == st.zIndex ==> r == (st, None)
  {
    var index := EventIndex(ev);
    if index < st.zIndex then
      var rest := if st.coms == [] then [] else st.coms[..|st.coms| - 1];
      (DialogState(rest, st.zIndex - 1), None)
    else if index > st.zIndex then (st, Some(Back))
    else (st, None)
  }

  /** `App`: one flag per dialog, `visible` exactly for the last one. */
  function Visibility(coms: seq<Com>): (r: seq<bool>)
    ensures |r| == |coms|
    ensures forall i :: 0 <= i < |r| ==> (r[i] <==> i == |coms| - 1)
  {
    seq(|coms|, i requires 0 <= i < |coms| => i == |coms| - 1)
  }

  /** The module's state. */
  class DialogStack {
    var coms: seq<Com>
    var zIndex: int

    function State(): DialogState
      reads this
    {
      DialogState(coms, zIndex)
    }

    /** Module initialisation: no dialog, the counter at `initData`. */
    constructor ()
      ensures coms == [] && zIndex == InitZIndex
      ensures Synced(State())
    {
      coms := [];
      zIndex := InitZIndex;
    }

    /** `Dialog.show(fn, replace)` */
    method Show(fn: string, replace: bool) returns (call: HistoryCall)
      modifies this
      ensures (State(), call) == ShowStep(old(State()), fn, replace)
      ensures coms == old(coms) + [Com(fn, zIndex)] && zIndex == old(zIndex) + 1
    {
      zIndex := zIndex + 1;
      coms := coms + [Com(fn, zIndex)];
      if replace {
        call := ReplaceState(zIndex);
      } else {
        call := PushState(zIndex);
      }
    }

    /** The `popstate` listener, given the z-index of the state reached (if any). */
    method OnPopState(ev: Option<int>) returns (call: Option<HistoryCall>)
      modifies this
      ensures (State(), call) == PopStep(old(State()), ev)
    {
      var index := EventIndex(ev);
      call := None;
      if index < zIndex {
        if coms != [] {
          coms := coms[..|coms| - 1];
        }
        zIndex := zIndex - 1;
      } else if index > zIndex {
        call := Some(Back);
      }
    }
  }

  // ---------------------------------------------------------------------------
  // Properties

  /** The counter is `initData` plus the number of dialogs, and the `i`-th dialog was
      shown at `initData + 1 + i`. */
  predicate Synced(st: DialogState) {
    && st.zIndex == InitZIndex + |st.coms|
    && forall i :: 0 <= i < |st.coms| ==> st.coms[i].zIndex == InitZIndex + 1 + i
  }

  lemma ShowKeepsSynced(st: DialogState, fn: string, replace: bool)
    requires Synced(st)
    ensures Synced(ShowStep(st, fn, replace).0)
  {
  }

  /** A back event keeps the counter in step, unless it comes with no dialog to pop. */
  lemma PopKeepsSynced(st: DialogState, ev: Option<int>)
    requires Synced(st)
    requires st.coms != [] || EventIndex(ev) >= st.zIndex
    ensures Synced(PopStep(st, ev).0)
  {
  }

  /** With no dialog shown, an entry below the counter still lowers it: the counter then
      runs one below the stack, and the next dialog is shown at `initData`. */
  lemma PopEmptyDrifts(ev: Option<int>)
    requires EventIndex(ev) < InitZIndex
    ensures var st := PopStep(DialogState([], InitZIndex), ev).0;
      && st == DialogState([], InitZIndex - 1) && !Synced(st)
      && ShowStep(st, "f", false).0.coms == [Com("f", InitZIndex)]
  {
  }

  /** Going back from a dialog's entry to the one it was pushed over (which carried the
      previous counter) undoes the `show`. */
  lemma ShowThenBack(st: DialogState, fn: string, replace: bool)
    ensures PopStep(ShowStep(st, fn, replace).0, Some(st.zIndex)) == (st, None)
  {
    var s1 := ShowStep(st, fn, replace).0;
    assert s1.coms[..|s1.coms| - 1] == st.coms;
  }

  /** A forward move to an entry above the counter is sent back and changes nothing. */
  lemma ForwardIsUndone(st: DialogState, z: int)
    requires z > st.zIndex
    ensures PopStep(st, Some(z)) == (st, Some(Back))
  {
  }

  /** One event pops at most one dialog, however far back the entry reached lies. */
  lemma OnePopPerEvent(st: DialogState, ev: Option<int>)
    ensures var r := PopStep(st, ev).0;
      |st.coms| - 1 <= |r.coms| <= |st.coms| && r.coms == st.coms[..|r.coms|]
  {
  }

  /** A shown dialog is the only one visible; the one below shows again after a pop. */
  lemma ShownIsVisible(st: DialogState, fn: string, replace: bool)
    ensures var v := Visibility(ShowStep(st, fn, replace).0.coms);
      v[|st.coms|] && forall i :: 0 <= i < |st.coms| ==> !v[i]
  {
  }

  lemma PopRevealsBelow(st: DialogState, ev: Option<int>)
    requires |st.coms| >= 2 && EventIndex(ev) < st.zIndex
    ensures var r := PopStep(st, ev).0;
      Visibility(r.coms)[|st.coms| - 2] && r.coms[|st.coms| - 2] == st.coms[|st.coms| - 2]
  {
  }
}
