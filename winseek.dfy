/**
 * The process glue of src/main.rs: the launcher width, the hotkey listener
 * loop, the session guard (IS_OPEN) around create_frame, and the consumer
 * loop that opens a frame per signal.
 *
 * The two threads are modelled one after the other: the listener turns the
 * messages GetMessageW returns into a count of signals, and the consumer's
 * receipt of those signals, as well as the tray menu's request, become
 * calls on a Launcher object holding the IS_OPEN flag.
 */
module WinSeek {
  import opened Wrappers
  import opened WinShit
  import App

  const WM_QUIT: nat := 0x0012
  const WM_HOTKEY: nat := 0x0312
  const MIN_APP_WIDTH: int := 400

  // ---------------------------------------------------------------------
  // Launcher width
  // ---------------------------------------------------------------------

  /** Rust's `/` on i32: the quotient truncated toward zero. */
  function TruncDiv(a: int, b: int): (q: int)
    requires b > 0
    ensures a >= 0 ==> 0 <= a - b * q < b
    ensures a < 0 ==> -b < a - b * q <= 0
  {
    if a >= 0 then a / b else -((-a) / b)
  }

  /** `max(screen_width / 3, 400)`: a third of the screen, never under 400. */
  function AppWidth(screenWidth: int): (w: int)
    ensures w >= MIN_APP_WIDTH
    ensures w >= TruncDiv(screenWidth, 3)
    ensures w == MIN_APP_WIDTH || w == TruncDiv(screenWidth, 3)
  {
    var third := TruncDiv(screenWidth, 3);
    if third >= MIN_APP_WIDTH then third else MIN_APP_WIDTH
  }

  /** On a screen at least 1200 wide the launcher is a third of it, rounded down. */
  lemma AppWidthThird(screenWidth: int)
    requires screenWidth >= 3 * MIN_APP_WIDTH
    ensures AppWidth(screenWidth) == screenWidth / 3
    ensures 3 * AppWidth(screenWidth) <= screenWidth < 3 * AppWidth(screenWidth) + 3
  {
  }

  // ---------------------------------------------------------------------
  // Hotkey listener
  // ---------------------------------------------------------------------

  datatype Msg = Msg(message: nat, wParam: nat)

  /**
   * One turn of the listener loop: the message GetMessageW returns, and the
   * message the PeekMessageW(PM_REMOVE) after it takes off the queue, if one
   * was already queued. The peeked message is never looked at: the next
   * GetMessageW overwrites it.
   */
  datatype Wake = Wake(got: Msg, peeked: Option<Msg>)

  predicate IsHotkey(m: Msg)
  {
    m.message == WM_HOTKEY && m.wParam == HOTKEY_ID as nat
  }

  /** The turns the loop runs: those before the first WM_QUIT, on which
      GetMessageW answers FALSE. */
  function UntilQuit(wakes: seq<Wake>): (r: seq<Wake>)
    ensures |r| <= |wakes| && r == wakes[..|r|]
    ensures forall i :: 0 <= i < |r| ==> r[i].got.message != WM_QUIT
    ensures |r| < |wakes| ==> wakes[|r|].got.message == WM_QUIT
  {
    if wakes == [] || wakes[0].got.message == WM_QUIT then []
    else [wakes[0]] + UntilQuit(wakes[1..])
  }

  /** The signals a run of turns sends: one per returned hotkey message. */
  function Signals(wakes: seq<Wake>): nat
  {
    if wakes == [] then 0
    else Signals(wakes[..|wakes| - 1]) + (if IsHotkey(wakes[|wakes| - 1].got) then 1 else 0)
  }

  /** The hotkey messages among some messages. */
  function HotkeysIn(msgs: seq<Msg>): nat
  {
    if msgs == [] then 0
    else HotkeysIn(msgs[..|msgs| - 1]) + (if IsHotkey(msgs[|msgs| - 1]) then 1 else 0)
  }

  /** Every message the turns take off the queue, in queue order. */
  function Dequeued(wakes: seq<Wake>): seq<Msg>
  {
    if wakes == [] then []
    else
      var w := wakes[|wakes| - 1];
      Dequeued(wakes[..|wakes| - 1]) + [w.got] + (if w.peeked.Some? then [w.peeked.value] else [])
  }

  /** The hotkey messages PeekMessageW discards. */
  function SwallowedHotkeys(wakes: seq<Wake>): nat
  {
    if wakes == [] then 0
    else
      var w := wakes[|wakes| - 1];
      SwallowedHotkeys(wakes[..|wakes| - 1]) + (if w.peeked.Some? && IsHotkey(w.peeked.value) then 1 else 0)
  }

  lemma {:induction false} HotkeysInAppend(a: seq<Msg>, b: seq<Msg>)
    ensures HotkeysIn(a + b) == HotkeysIn(a) + HotkeysIn(b)
    decreases |b|
  {
    if b == [] {
      assert a + b == a;
    } else {
      assert (a + b)[..|a + b| - 1] == a + b[..|b| - 1];
      HotkeysInAppend(a, b[..|b| - 1]);
    }
  }

  /**
   * Every hotkey message taken off the queue either sends one signal (when
   * GetMessageW returned it) or none (when PeekMessageW discarded it).
   */
  lemma {:induction false} SignalsAccountForQueue(wakes: seq<Wake>)
    ensures Signals(wakes) + SwallowedHotkeys(wakes) == HotkeysIn(Dequeued(wakes))
  {
    if wakes != [] {
      var init := wakes[..|wakes| - 1];
      var w := wakes[|wakes| - 1];
      SignalsAccountForQueue(init);
      var extra := if w.peeked.Some? then [w.peeked.value] else [];
      HotkeysInAppend(Dequeued(init) + [w.got], extra);
      HotkeysInAppend(Dequeued(init), [w.got]);
      assert [w.got][..0] == [];
      if w.peeked.Some? {
        assert extra[..0] == [];
      }
    }
  }

  /** When PeekMessageW never finds a hotkey message queued, the listener sends
      exactly one signal per hotkey message. */
  lemma OneSignalPerHotkey(wakes: seq<Wake>)
    requires forall i :: 0 <= i < |wakes| ==> wakes[i].peeked.None? || !IsHotkey(wakes[i].peeked.value)
    ensures Signals(wakes) == HotkeysIn(Dequeued(wakes))
  {
    SignalsAccountForQueue(wakes);
    NoneSwallowed(wakes);
  }

  lemma {:induction false} NoneSwallowed(wakes: seq<Wake>)
    requires forall i :: 0 <= i < |wakes| ==> wakes[i].peeked.None? || !IsHotkey(wakes[i].peeked.value)
    ensures SwallowedHotkeys(wakes) == 0
  {
    if wakes != [] {
      NoneSwallowed(wakes[..|wakes| - 1]);
    }
  }

  /** Two presses queued before the listener wakes send a single signal. */
  lemma QueuedPressesCoalesce()
    ensures var hotkey := Msg(WM_HOTKEY, 1);
      var wakes := [Wake(hotkey, Some(hotkey)), Wake(Msg(WM_QUIT, 0), None)];
      && HotkeysIn(Dequeued(UntilQuit(wakes))) == 2
      && Signals(UntilQuit(wakes)) == 1
  {
    var hotkey := Msg(WM_HOTKEY, 1);
    var wakes := [Wake(hotkey, Some(hotkey)), Wake(Msg(WM_QUIT, 0), None)];
    assert UntilQuit(wakes) == [Wake(hotkey, Some(hotkey))];
    SignalsAccountForQueue(UntilQuit(wakes));
  }

  /**
   * The listener thread: register the hotkey (its outcome is an input) and
   * stop at once if that failed; otherwise count a signal for every
   * WM_HOTKEY with the hotkey's id, until GetMessageW answers WM_QUIT, and
   * then unregister. A run of turns without WM_QUIT leaves the loop blocked,
   * still registered.
   */
  method HotkeyListener(registered: bool, wakes: seq<Wake>) returns (signals: nat, unregisterCalled: bool)
    ensures !registered ==> signals == 0 && !unregisterCalled
    ensures registered ==> signals == Signals(UntilQuit(wakes))
    ensures registered ==> (unregisterCalled <==> |UntilQuit(wakes)| < |wakes|)
  {
    if !registered {
      return 0, false;
    }
    signals := 0;
    var i := 0;
    while i < |wakes| && wakes[i].got.message != WM_QUIT
      invariant 0 <= i <= |wakes|
      invariant forall k :: 0 <= k < i ==> wakes[k].got.message != WM_QUIT
      invariant signals == Signals(wakes[..i])
    {
      var msg := wakes[i].got;
      if msg.message == WM_HOTKEY {
        if msg.wParam == HOTKEY_ID as nat {
          signals := signals + 1;
        }
      }
      assert wakes[..i + 1][..i] == wakes[..i];
      i := i + 1;
    }
    UntilQuitIsPrefix(wakes, i);
    unregisterCalled := i < |wakes|;
  }

  lemma UntilQuitIsPrefix(wakes: seq<Wake>, i: nat)
    requires i <= |wakes|
    requires forall k :: 0 <= k < i ==> wakes[k].got.message != WM_QUIT
    requires i < |wakes| ==> wakes[i].got.message == WM_QUIT
    ensures UntilQuit(wakes) == wakes[..i]
  {
  }

  // A listener that takes every message with GetMessageW and peeks nothing.
  // It is the corrected listener of the README's findings: every hotkey
  // message taken off the queue sends one signal.

  /** The messages such a listener takes before the first WM_QUIT. */
  function MessagesUntilQuit(msgs: seq<Msg>): (r: seq<Msg>)
    ensures r <= msgs
    ensures forall k :: 0 <= k < |r| ==> r[k].message != WM_QUIT
    ensures |r| < |msgs| ==> msgs[|r|].message == WM_QUIT
  {
    if msgs == [] || msgs[0].message == WM_QUIT then [] else [msgs[0]] + MessagesUntilQuit(msgs[1..])
  }

  lemma MessagesUntilQuitIsPrefix(msgs: seq<Msg>, i: nat)
    requires i <= |msgs|
    requires forall k :: 0 <= k < i ==> msgs[k].message != WM_QUIT
    requires i < |msgs| ==> msgs[i].message == WM_QUIT
    ensures MessagesUntilQuit(msgs) == msgs[..i]
  {
  }

  /** The listener without the PeekMessageW call: one signal per WM_HOTKEY
      message with the hotkey's id, up to WM_QUIT. */
  method HotkeyListenerWithoutPeek(registered: bool, msgs: seq<Msg>) returns (signals: nat, unregisterCalled: bool)
    ensures !registered ==> signals == 0 && !unregisterCalled
    ensures registered ==> signals == HotkeysIn(MessagesUntilQuit(msgs))
    ensures registered ==> (unregisterCalled <==> |MessagesUntilQuit(msgs)| < |msgs|)
  {
    if !registered {
      return 0, false;
    }
    signals := 0;
    var i := 0;
    while i < |msgs| && msgs[i].message != WM_QUIT
      invariant 0 <= i <= |msgs|
      invariant forall k :: 0 <= k < i ==> msgs[k].message != WM_QUIT
      invariant signals == HotkeysIn(msgs[..i])
    {
      if msgs[i].message == WM_HOTKEY {
        if msgs[i].wParam == HOTKEY_ID as nat {
          signals := signals + 1;
        }
      }
      assert msgs[..i + 1][..i] == msgs[..i];
      i := i + 1;
    }
    MessagesUntilQuitIsPrefix(msgs, i);
    unregisterCalled := i < |msgs|;
  }

  /** Two presses queued together send two signals once nothing is peeked. */
  lemma QueuedPressesBothSignal()
    ensures var hotkey := Msg(WM_HOTKEY, 1);
      HotkeysIn(MessagesUntilQuit([hotkey, hotkey, Msg(WM_QUIT, 0)])) == 2
  {
    var hotkey := Msg(WM_HOTKEY, 1);
    var quit := Msg(WM_QUIT, 0);
    assert [hotkey, hotkey, quit][1..] == [hotkey, quit];
    assert [hotkey, quit][1..] == [quit];
    assert MessagesUntilQuit([quit]) == [];
    assert MessagesUntilQuit([hotkey, quit]) == [hotkey];
    assert MessagesUntilQuit([hotkey, hotkey, quit]) == [hotkey, hotkey];
    assert IsHotkey(hotkey);
    assert [hotkey][..0] == [];
    assert HotkeysIn([hotkey]) == 1;
    assert [hotkey, hotkey][..1] == [hotkey];
  }

  // ---------------------------------------------------------------------
  // Session guard
  // ---------------------------------------------------------------------

  datatype Guard = Idle | Open

  /** An open request (create_frame) or the end of the running session
      (run_native returning). */
  datatype LaunchEvent = OpenRequest | SessionReturned

  /** IS_OPEN as a state machine: the new state, and whether a session starts. */
  function Step(g: Guard, e: LaunchEvent): (r: (Guard, bool))
    ensures r.1 <==> g == Idle && e == OpenRequest
    ensures e == SessionReturned ==> r.0 == Idle
    ensures e == OpenRequest ==> r.0 == Open
  {
    match e
    case OpenRequest => (Open, g == Idle)
    case SessionReturned => (Idle, false)
  }

  function Run(g: Guard, events: seq<LaunchEvent>): Guard
    decreases |events|
  {
    if events == [] then g else Run(Step(g, events[0]).0, events[1..])
  }

  /** The sessions a run of events starts. */
  function SessionsStarted(g: Guard, events: seq<LaunchEvent>): nat
    decreases |events|
  {
    if events == [] then 0
    else (if Step(g, events[0]).1 then 1 else 0) + SessionsStarted(Step(g, events[0]).0, events[1..])
  }

  function Returns(events: seq<LaunchEvent>): nat
  {
    if events == [] then 0 else (if events[0] == SessionReturned then 1 else 0) + Returns(events[1..])
  }

  /** Sessions are bounded by returns: every session after the first needs
      one before it to have returned. */
  lemma {:induction false} SessionsBoundedByReturns(g: Guard, events: seq<LaunchEvent>)
    ensures SessionsStarted(g, events) <= Returns(events) + (if g == Idle then 1 else 0)
    decreases |events|
  {
    if events != [] {
      SessionsBoundedByReturns(Step(g, events[0]).0, events[1..]);
    }
  }

  lemma {:induction false} RunAppend(g: Guard, a: seq<LaunchEvent>, b: seq<LaunchEvent>)
    ensures Run(g, a + b) == Run(Run(g, a), b)
    decreases |a|
  {
    if a == [] {
      assert a + b == b;
    } else {
      assert (a + b)[1..] == a[1..] + b;
      RunAppend(Step(g, a[0]).0, a[1..], b);
    }
  }

  /** Whether the event at index i starts a session, from guard g. */
  predicate StartsAt(g: Guard, events: seq<LaunchEvent>, i: nat)
    requires i < |events|
  {
    Step(Run(g, events[..i]), events[i]).1
  }

  lemma GuardAfter(g: Guard, events: seq<LaunchEvent>, k: nat)
    requires k < |events|
    ensures Run(g, events[..k + 1]) == Step(Run(g, events[..k]), events[k]).0
  {
    assert events[..k + 1] == events[..k] + [events[k]];
    RunAppend(g, events[..k], [events[k]]);
    assert [events[k]][1..] == [];
  }

  lemma {:induction false} StaysOpen(g: Guard, events: seq<LaunchEvent>, i: nat, j: nat)
    requires i < j <= |events|
    requires Run(g, events[..i + 1]) == Open
    requires forall k :: i < k < j ==> events[k] == OpenRequest
    ensures Run(g, events[..j]) == Open
    decreases j - i
  {
    if j > i + 1 {
      StaysOpen(g, events, i, j - 1);
      GuardAfter(g, events, j - 1);
    }
  }

  /** Sessions never overlap: between any two events that start a session
      there is a session return. */
  lemma SessionReturnBetweenStarts(g: Guard, events: seq<LaunchEvent>, i: nat, j: nat)
    requires i < j < |events|
    requires StartsAt(g, events, i) && StartsAt(g, events, j)
    ensures exists k :: i < k < j && events[k] == SessionReturned
  {
    if forall k :: i < k < j ==> events[k] == OpenRequest {
      GuardAfter(g, events, i);
      StaysOpen(g, events, i, j);
    }
  }

  /** Requests that arrive while a session is open start nothing. */
  lemma {:induction false} SuppressedWhileOpen(events: seq<LaunchEvent>)
    requires forall i :: 0 <= i < |events| ==> events[i] == OpenRequest
    ensures SessionsStarted(Open, events) == 0 && Run(Open, events) == Open
  {
    if events != [] {
      SuppressedWhileOpen(events[1..]);
    }
  }

  /** The consumer's turns: create_frame blocks in run_native, so each received
      signal is a request followed by that session's return. */
  function ConsumerEvents(n: nat): (events: seq<LaunchEvent>)
    ensures |events| == 2 * n
  {
    if n == 0 then [] else [OpenRequest, SessionReturned] + ConsumerEvents(n - 1)
  }

  /** Each signal the consumer receives from idle opens exactly one session,
      Idle to Open to Idle. */
  lemma {:induction false} OneSessionPerConsumedSignal(n: nat)
    ensures SessionsStarted(Idle, ConsumerEvents(n)) == n
    ensures Run(Idle, ConsumerEvents(n)) == Idle
  {
    if n > 0 {
      OneSessionPerConsumedSignal(n - 1);
      var e := ConsumerEvents(n);
      assert e[1..][1..] == ConsumerEvents(n - 1);
    }
  }

  /** A session handed a fresh snapshot of desktop, with an empty query. */
  ghost predicate Serves(app: App.MyApp, desktop: seq<WindowDescriptor>)
    reads app
  {
    app.query == "" && app.windows == Inventory(desktop)
  }

  /** The process-wide IS_OPEN flag and create_frame. */
  class Launcher {
    var isOpen: bool

    /** `static mut IS_OPEN: bool = false` */
    constructor ()
      ensures !isOpen
    {
      isOpen := false;
    }

    function State(): Guard
      reads this
    {
      if isOpen then Open else Idle
    }

    /**
     * create_frame up to run_native: while a session is open it returns at
     * once, enumerating nothing and changing nothing; otherwise it takes a
     * fresh snapshot into an empty list, sizes the launcher, sets IS_OPEN and
     * hands the snapshot to a new MyApp with an empty query.
     */
    method CreateFrame(desktop: seq<WindowDescriptor>, screenWidth: int)
      returns (app: App.MyApp?, width: int)
      modifies this
      ensures (State(), app != null) == Step(old(State()), OpenRequest)
      ensures old(isOpen) ==> app == null && isOpen
      ensures !old(isOpen) ==>
        && isOpen
        && app != null && fresh(app)
        && app.query == "" && app.windows == Inventory(desktop)
        && width == AppWidth(screenWidth)
    {
      if isOpen {
        return null, 0;
      }
      var windows := EnumerateWindows(desktop);
      width := AppWidth(screenWidth);
      isOpen := true;
      app := new App.MyApp(windows);
    }

    /** After run_native returns, IS_OPEN is reset. */
    method SessionReturned()
      modifies this
      ensures State() == Step(old(State()), LaunchEvent.SessionReturned).0
      ensures !isOpen
    {
      isOpen := false;
    }

    /**
     * The consumer loop `while let Ok(_) = rx.recv() { create_frame() }`:
     * one create_frame per received signal, in receipt order, each one
     * blocking until its session returns. snapshots[i] is what the platform
     * reports when the i-th signal is handled.
     */
    method ConsumeSignals(snapshots: seq<(seq<WindowDescriptor>, int)>) returns (apps: seq<App.MyApp>)
      requires !isOpen
      modifies this
      ensures !isOpen
      ensures |apps| == |snapshots| == SessionsStarted(Idle, ConsumerEvents(|snapshots|))
      ensures forall i :: 0 <= i < |apps| ==> fresh(apps[i]) && Serves(apps[i], snapshots[i].0)
    {
      OneSessionPerConsumedSignal(|snapshots|);
      apps := [];
      var i := 0;
      while i < |snapshots|
        invariant 0 <= i <= |snapshots|
        invariant !isOpen
        invariant |apps| == i
        invariant forall k :: 0 <= k < i ==> fresh(apps[k]) && Serves(apps[k], snapshots[k].0)
      {
        var app, _ := CreateFrame(snapshots[i].0, snapshots[i].1);
        assert app != null && Serves(app, snapshots[i].0);
        apps := apps + [app];
        SessionReturned();
        i := i + 1;
      }
    }
  }
}
