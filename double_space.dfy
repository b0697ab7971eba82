/**
 * The double-space gesture on touch devices. One space tap is typed as a
 * space and opens a 300 ms window; a second tap inside the window, while a
 * suggestion is pending, confirms it instead of typing a second space; a
 * window that runs out cancels the suggestion. The clock, the device class
 * and whether a suggestion is pending are inputs of every step; the confirm
 * and cancel callbacks come out as a list of calls.
 */
module DoubleSpaceConfirmation {
  import opened Options
  import opened CompletionNode
  import opened Transactions
  import opened Editors

  const DoubleTapWindow: int := 300

  /** A call to one of the callbacks the hook is given. */
  datatype Callback = ConfirmCompletion | CancelCompletion

  /**
   * A `setTimeout` registration: its handle, when it is due, and the value of
   * `hasActiveCompletion` its callback closed over when it was scheduled.
   */
  datatype Timer = Timer(handle: nat, deadline: int, activeWhenScheduled: bool)

  /**
   * The hook's refs (`lastSpaceTime`, `doubleSpaceTimeout`) together with the
   * timers still registered with the runtime and the next handle it hands out.
   * A fired timer stays in `doubleSpaceTimeout`, since nothing clears the ref
   * when it fires; it is just no longer live.
   */
  datatype Gesture = Gesture(lastSpaceTime: int, doubleSpaceTimeout: Option<Timer>, live: set<Timer>, nextHandle: nat) {
    /** At most one timeout is live, and it is the one the ref holds. */
    predicate Valid() {
      && (doubleSpaceTimeout.None? ==> live == {})
      && (doubleSpaceTimeout.Some? ==> live <= {doubleSpaceTimeout.value} && doubleSpaceTimeout.value.handle < nextHandle)
    }
  }

  const Initial: Gesture := Gesture(0, None, {}, 1)

  /** `clearTimeout(doubleSpaceTimeout.current)` when the ref is set. */
  function ClearPending(g: Gesture): (live: set<Timer>)
    ensures live <= g.live
    ensures g.Valid() ==> live == {}
  {
    if g.doubleSpaceTimeout.Some? then g.live - {g.doubleSpaceTimeout.value} else g.live
  }

  /** `now - lastSpaceTime.current < 300 && hasActiveCompletion && isMobileDevice()`. */
  predicate IsDoubleTap(g: Gesture, now: int, active: bool, mobile: bool)
    ensures IsDoubleTap(g, now, active, mobile) ==> active && mobile && now < g.lastSpaceTime + DoubleTapWindow
    ensures active && mobile && now < g.lastSpaceTime + DoubleTapWindow ==> IsDoubleTap(g, now, active, mobile)
  {
    now - g.lastSpaceTime < DoubleTapWindow && active && mobile
  }

  /** What a step leaves behind: the new refs and timers, the editor state, and the callbacks called. */
  datatype Step = Step(gesture: Gesture, state: EditorState, calls: seq<Callback>)

  /** `handleSpacePress` at time `now`. */
  function SpacePress(g: Gesture, st: EditorState, now: int, active: bool, mobile: bool): (r: Step)
    requires g.Valid() && st.Valid()
    ensures r.gesture.Valid() && r.state.Valid()
    ensures IsDoubleTap(g, now, active, mobile) ==>
              && r.calls == [ConfirmCompletion] && r.state == st
              && r.gesture.live == {} && r.gesture.doubleSpaceTimeout.None? && r.gesture.lastSpaceTime == 0
    ensures !IsDoubleTap(g, now, active, mobile) ==>
              && r.calls == [] && r.state == InsertTextState(st, " ")
              && r.gesture.lastSpaceTime == now
              && r.gesture.live == {Timer(g.nextHandle, now + DoubleTapWindow, active)}
              && r.gesture.doubleSpaceTimeout == Some(Timer(g.nextHandle, now + DoubleTapWindow, active))
  {
    if IsDoubleTap(g, now, active, mobile) then
      Step(Gesture(0, None, ClearPending(g), g.nextHandle), st, [ConfirmCompletion])
    else
      var t := Timer(g.nextHandle, now + DoubleTapWindow, active);
      Step(Gesture(now, Some(t), ClearPending(g) + {t}, g.nextHandle + 1), InsertTextState(st, " "), [])
  }

  /** The keydown handler: a space with a pending suggestion on a touch device is taken over; any other key is left alone. */
  function KeyDown(g: Gesture, st: EditorState, key: string, now: int, active: bool, mobile: bool): (r: (bool, Step))
    requires g.Valid() && st.Valid()
    ensures r.1.gesture.Valid() && r.1.state.Valid()
    ensures r.0 <==> key == " " && active && mobile
    ensures !r.0 ==> r.1 == Step(g, st, [])
  {
    if key == " " && active && mobile then (true, SpacePress(g, st, now, active, mobile))
    else (false, Step(g, st, []))
  }

  /** The characters `String.prototype.trim` removes. */
  predicate IsJsWhitespace(c: char) {
    c == '\t' || c == '\n' || c == '\U{000B}' || c == '\U{000C}' || c == '\r' || c == ' ' ||
    c == '\U{00A0}' || c == '\U{1680}' || ('\U{2000}' <= c <= '\U{200A}') ||
    c == '\U{2028}' || c == '\U{2029}' || c == '\U{202F}' || c == '\U{205F}' || c == '\U{3000}' || c == '\U{FEFF}'
  }

  /** `String.prototype.trimStart`. */
  function TrimStart(s: string): (r: string)
    ensures |r| <= |s| && r == s[|s| - |r|..]
    ensures r == [] || !IsJsWhitespace(r[0])
  {
    if s != [] && IsJsWhitespace(s[0]) then TrimStart(s[1..]) else s
  }

  /** `String.prototype.trimEnd`. */
  function TrimEnd(s: string): (r: string)
    ensures |r| <= |s| && r == s[..|r|]
    ensures r == [] || !IsJsWhitespace(r[|r| - 1])
  {
    if s != [] && IsJsWhitespace(s[|s| - 1]) then TrimEnd(s[..|s| - 1]) else s
  }

  /** `String.prototype.trim`. */
  function Trim(s: string): (r: string)
    ensures |r| <= |s|
  {
    TrimEnd(TrimStart(s))
  }

  lemma {:induction false} TrimStartEmpty(s: string)
    ensures TrimStart(s) == [] <==> forall i :: 0 <= i < |s| ==> IsJsWhitespace(s[i])
  {
    if s != [] {
      TrimStartEmpty(s[1..]);
      assert forall i :: 1 <= i < |s| ==> s[i] == s[1..][i - 1];
    }
  }

  lemma {:induction false} TrimEndEmpty(s: string)
    ensures TrimEnd(s) == [] ==> forall i :: 0 <= i < |s| ==> IsJsWhitespace(s[i])
  {
    if s != [] && IsJsWhitespace(s[|s| - 1]) {
      TrimEndEmpty(s[..|s| - 1]);
      assert forall i :: 0 <= i < |s| - 1 ==> s[i] == s[..|s| - 1][i];
    }
  }

  /** A string trims to nothing exactly when `trim` would remove every one of its characters. */
  lemma TrimEmpty(s: string)
    ensures Trim(s) == [] <==> forall i :: 0 <= i < |s| ==> IsJsWhitespace(s[i])
  {
    TrimStartEmpty(s);
    TrimEndEmpty(TrimStart(s));
  }

  /** `s.trim() === ""`. */
  predicate Blank(s: string)
    ensures Blank(s) <==> forall i :: 0 <= i < |s| ==> IsJsWhitespace(s[i])
  {
    TrimEmpty(s);
    Trim(s) == ""
  }

  /**
   * The space the input method just typed is taken back (when the text just
   * before the cursor is a space), and the press is then handled like a
   * space key.
   */
  function TypedSpace(g: Gesture, st: EditorState, now: int, active: bool, mobile: bool): (r: Step)
    requires g.Valid() && st.Valid()
    ensures r.gesture.Valid() && r.state.Valid()
  {
    var st' := if st.cursor > 0 && TextBefore(st) == " " then DeleteBeforeState(st) else st;
    SpacePress(g, st', now, active, mobile)
  }

  /** The compositionend handler; `data` is absent when the event carries none. */
  function CompositionEnd(g: Gesture, st: EditorState, data: Option<string>, now: int, active: bool, mobile: bool): (r: Step)
    requires g.Valid() && st.Valid()
    ensures r.gesture.Valid() && r.state.Valid()
    ensures !active || !mobile ==> r == Step(g, st, [])
    ensures active && mobile && data == Some(" ") ==> r == TypedSpace(g, st, now, active, mobile)
    ensures data.Some? && data.value != " " && !Blank(data.value) && active && mobile ==> r == Step(g, st, [CancelCompletion])
    ensures (data.None? || (data.value != " " && Blank(data.value))) ==> r == Step(g, st, [])
  {
    if !active || !mobile then Step(g, st, [])
    else if data == Some(" ") then TypedSpace(g, st, now, active, mobile)
    else if data.Some? && data.value != "" && !Blank(data.value) then Step(g, st, [CancelCompletion])
    else Step(g, st, [])
  }

  /** The input handler; `data` is absent when the event carries none. */
  function Input(g: Gesture, st: EditorState, inputType: string, data: Option<string>, isComposing: bool,
                 now: int, active: bool, mobile: bool): (r: Step)
    requires g.Valid() && st.Valid()
    ensures r.gesture.Valid() && r.state.Valid()
    ensures !active || !mobile || isComposing ==> r == Step(g, st, [])
    ensures inputType != "insertText" ==> r == Step(g, st, [])
    ensures active && mobile && !isComposing && inputType == "insertText" && data == Some(" ") ==>
              r == TypedSpace(g, st, now, active, mobile)
    ensures active && mobile && !isComposing && inputType == "insertText" && data.Some? && data.value != "" && data.value != " " ==>
              r == Step(g, st, [CancelCompletion])
    ensures active && mobile && !isComposing && inputType == "insertText" && (data.None? || data == Some("")) ==>
              r == Step(g, st, [])
  {
    if !active || !mobile then Step(g, st, [])
    else if isComposing then Step(g, st, [])
    else if inputType == "insertText" && data == Some(" ") then TypedSpace(g, st, now, active, mobile)
    else if inputType == "insertText" && data.Some? && data.value != "" && data.value != " " then Step(g, st, [CancelCompletion])
    else Step(g, st, [])
  }

  /**
   * The clock reaches `now`: a live timeout that is due fires and leaves the
   * live set. Its callback cancels only if a suggestion was pending when it
   * was scheduled and the device is (still) a touch device.
   */
  function Tick(g: Gesture, now: int, mobile: bool): (r: (Gesture, seq<Callback>))
    requires g.Valid()
    ensures r.0.Valid() && r.0.live <= g.live
    ensures |r.1| <= 1 && (r.1 != [] ==> r.1 == [CancelCompletion])
    ensures r.1 != [] <==> exists t :: t in g.live && t.deadline <= now && t.activeWhenScheduled && mobile
  {
    match g.doubleSpaceTimeout
    case Some(t) =>
      if t in g.live && t.deadline <= now then
        (g.(live := g.live - {t}), if t.activeWhenScheduled && mobile then [CancelCompletion] else [])
      else
        (g, [])
    case None => (g, [])
  }

  /** The cleanup on unmount. */
  function Unmount(g: Gesture): (r: Gesture)
    requires g.Valid()
    ensures r.Valid() && r.live == {} && r.doubleSpaceTimeout.None? && r.lastSpaceTime == g.lastSpaceTime
  {
    if g.doubleSpaceTimeout.Some? then g.(doubleSpaceTimeout := None, live := ClearPending(g)) else g
  }

  // ---------------------------------------------------------------------------
  // The hook, with its refs as fields

  class DoubleSpaceGesture {
    var lastSpaceTime: int
    var doubleSpaceTimeout: Option<Timer>
    var liveTimers: set<Timer>
    var nextHandle: nat
    const editor: Editor

    function Model(): Gesture
      reads this
    {
      Gesture(lastSpaceTime, doubleSpaceTimeout, liveTimers, nextHandle)
    }

    ghost predicate Valid()
      reads this, editor
    {
      editor.Valid() && Model().Valid()
    }

    constructor (editor: Editor)
      requires editor.Valid()
      ensures Valid() && this.editor == editor && Model() == Initial
    {
      this.editor := editor;
      lastSpaceTime := 0;
      doubleSpaceTimeout := None;
      liveTimers := {};
      nextHandle := 1;
    }

    /** `clearTimeout(doubleSpaceTimeout.current)` when it is set; the ref itself is left alone. */
    method ClearTimeout()
      requires Valid()
      modifies this
      ensures Valid() && liveTimers == {}
      ensures lastSpaceTime == old(lastSpaceTime) && doubleSpaceTimeout == old(doubleSpaceTimeout) && nextHandle == old(nextHandle)
    {
      if doubleSpaceTimeout.Some? {
        liveTimers := liveTimers - {doubleSpaceTimeout.value};
      }
    }

    method HandleSpacePress(now: int, active: bool, mobile: bool) returns (calls: seq<Callback>)
      requires Valid()
      modifies this, editor
      ensures Valid()
      ensures Step(Model(), editor.state, calls) == SpacePress(old(Model()), old(editor.state), now, active, mobile)
    {
      var timeSinceLastSpace := now - lastSpaceTime;
      var doubleTapDetected := timeSinceLastSpace < DoubleTapWindow && active && mobile;
      if doubleTapDetected {
        calls := [ConfirmCompletion];
        if doubleSpaceTimeout.Some? {
          ClearTimeout();
          doubleSpaceTimeout := None;
        }
        lastSpaceTime := 0;
        return;
      }
      lastSpaceTime := now;
      ClearTimeout();
      editor.InsertText(" ");
      var t := Timer(nextHandle, now + DoubleTapWindow, active);
      nextHandle := nextHandle + 1;
      liveTimers := liveTimers + {t};
      doubleSpaceTimeout := Some(t);
      calls := [];
    }

    method OnKeyDown(key: string, now: int, active: bool, mobile: bool) returns (prevented: bool, calls: seq<Callback>)
      requires Valid()
      modifies this, editor
      ensures Valid()
      ensures (prevented, Step(Model(), editor.state, calls)) == KeyDown(old(Model()), old(editor.state), key, now, active, mobile)
    {
      prevented := false;
      calls := [];
      if key == " " && active && mobile {
        prevented := true;
        calls := HandleSpacePress(now, active, mobile);
      }
    }

    method RemoveTypedSpace()
      requires Valid()
      modifies editor
      ensures Valid()
      ensures editor.state == if old(editor.state).cursor > 0 && TextBefore(old(editor.state)) == " "
                              then DeleteBeforeState(old(editor.state)) else old(editor.state)
    {
      var from := editor.state.cursor;
      if from > 0 && TextBefore(editor.state) == " " {
        editor.DeleteBefore();
      }
    }

    method OnCompositionEnd(data: Option<string>, now: int, active: bool, mobile: bool) returns (calls: seq<Callback>)
      requires Valid()
      modifies this, editor
      ensures Valid()
      ensures Step(Model(), editor.state, calls) == CompositionEnd(old(Model()), old(editor.state), data, now, active, mobile)
    {
      calls := [];
      if !active || !mobile {
        return;
      }
      if data == Some(" ") {
        RemoveTypedSpace();
        calls := HandleSpacePress(now, active, mobile);
      } else if data.Some? && data.value != "" && !Blank(data.value) {
        calls := [CancelCompletion];
      }
    }

    method OnInput(inputType: string, data: Option<string>, isComposing: bool, now: int, active: bool, mobile: bool)
      returns (calls: seq<Callback>)
      requires Valid()
      modifies this, editor
      ensures Valid()
      ensures Step(Model(), editor.state, calls) ==
              Input(old(Model()), old(editor.state), inputType, data, isComposing, now, active, mobile)
    {
      calls := [];
      if !active || !mobile {
        return;
      }
      if isComposing {
        return;
      }
      if inputType == "insertText" && data == Some(" ") {
        RemoveTypedSpace();
        calls := HandleSpacePress(now, active, mobile);
      } else if inputType == "insertText" && data.Some? && data.value != "" && data.value != " " {
        calls := [CancelCompletion];
      }
    }

    /** The runtime runs the callback of the pending timeout once the clock reaches its deadline. */
    method OnTick(now: int, mobile: bool) returns (calls: seq<Callback>)
      requires Valid()
      modifies this
      ensures Valid()
      ensures (Model(), calls) == Tick(old(Model()), now, mobile)
    {
      calls := [];
      if doubleSpaceTimeout.Some? {
        var t := doubleSpaceTimeout.value;
        if t in liveTimers && t.deadline <= now {
          liveTimers := liveTimers - {t};
          if t.activeWhenScheduled && mobile {
            calls := [CancelCompletion];
          }
        }
      }
    }

    method OnUnmount()
      requires Valid()
      modifies this
      ensures Valid()
      ensures Model() == Unmount(old(Model()))
    {
      if doubleSpaceTimeout.Some? {
        ClearTimeout();
        doubleSpaceTimeout := None;
      }
    }
  }

  // ---------------------------------------------------------------------------
  // Tap sequences

  /**
   * A second tap inside the window after a single tap confirms: the document
   * keeps the one space of the first tap, and the first tap's timeout can no
   * longer fire a cancel, whenever the clock is read next.
   */
  lemma QuickSecondTapConfirms(g: Gesture, st: EditorState, t1: int, t2: int, mobile: bool, later: int)
    requires g.Valid() && st.Valid() && mobile
    requires !IsDoubleTap(g, t1, true, mobile) && t2 - t1 < DoubleTapWindow
    ensures var first := SpacePress(g, st, t1, true, mobile);
            var second := SpacePress(first.gesture, first.state, t2, true, mobile);
            && first.calls == [] && second.calls == [ConfirmCompletion]
            && second.state == InsertTextState(st, " ")
            && Tick(second.gesture, later, mobile).1 == []
  {
  }

  /** A lone tap whose window runs out cancels the suggestion, and not before the window is over. */
  lemma LoneTapCancelsAfterWindow(g: Gesture, st: EditorState, t1: int, now: int, mobile: bool)
    requires g.Valid() && st.Valid() && mobile
    requires !IsDoubleTap(g, t1, true, mobile)
    ensures var first := SpacePress(g, st, t1, true, mobile);
            Tick(first.gesture, now, mobile).1 == (if now >= t1 + DoubleTapWindow then [CancelCompletion] else [])
  {
  }

  /**
   * The timeout reads the `hasActiveCompletion` captured when it was
   * scheduled: a timer set while a suggestion was pending still cancels once
   * the window is over, even though the prop has turned false meanwhile and
   * a keydown seen in that state left the timer alone.
   */
  lemma TimerUsesCapturedActive(g: Gesture, st: EditorState, t1: int, now: int, key: string)
    requires g.Valid() && st.Valid() && !IsDoubleTap(g, t1, true, true)
    requires now >= t1 + DoubleTapWindow
    ensures var first := SpacePress(g, st, t1, true, true);
            var later := KeyDown(first.gesture, first.state, key, now, false, true).1;
            later.gesture == first.gesture && Tick(later.gesture, now, true).1 == [CancelCompletion]
  {
  }

  /**
   * A space typed by the input method (already in the document just before
   * the cursor): a single tap leaves that one space where it is, a double tap
   * takes it out again.
   */
  lemma TypedSpaceNetEffect(g: Gesture, st: EditorState, now: int, active: bool, mobile: bool)
    requires g.Valid() && st.Valid() && st.cursor > 0 && st.doc[st.cursor - 1] == Char(' ')
    ensures var r := TypedSpace(g, st, now, active, mobile);
            r.state == (if IsDoubleTap(g, now, active, mobile) then DeleteBeforeState(st) else st)
  {
    if !IsDoubleTap(g, now, active, mobile) {
      InsertSpaceRestoresDeleted(st);
    }
  }

  /** After an unmount no timeout is left to fire. */
  lemma NothingFiresAfterUnmount(g: Gesture, now: int, mobile: bool)
    requires g.Valid()
    ensures Tick(Unmount(g), now, mobile).1 == []
  {
  }
}
