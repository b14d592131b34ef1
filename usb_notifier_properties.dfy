/** What the window procedure, the message pump and the loop of
    UsbNotifier/UsbNotifier.c guarantee, stated over their specification
    functions. */
module UsbNotifierProperties {
  import opened Utilities
  import opened UsbNotifier

  /* ---------------------------------------------------------------------
     Observations on a call history.
     --------------------------------------------------------------------- */

  /** A device-change message whose subcode is DBT_DEVICEARRIVAL. */
  predicate IsArrival(m: Msg)
  {
    m.message == WmDeviceChange && m.wParam == DbtDeviceArrival
  }

  /** The messages handed to DispatchMessageW, in call order. */
  function Dispatched(t: seq<Call>): seq<Msg>
  {
    if t == [] then []
    else Dispatched(t[..|t| - 1]) + (if t[|t| - 1].DispatchMessage? then [t[|t| - 1].msg] else [])
  }

  /** The messages handed to TranslateMessage, in call order. */
  function Translated(t: seq<Call>): seq<Msg>
  {
    if t == [] then []
    else Translated(t[..|t| - 1]) + (if t[|t| - 1].TranslateMessage? then [t[|t| - 1].msg] else [])
  }

  /** The number of LockWorkStation calls. */
  function Locks(t: seq<Call>): nat
  {
    if t == [] then 0
    else Locks(t[..|t| - 1]) + (if t[|t| - 1].LockWorkStation? then 1 else 0)
  }

  /** The number of arrival messages. */
  function Arrivals(ms: seq<Msg>): nat
  {
    if ms == [] then 0
    else Arrivals(ms[..|ms| - 1]) + (if IsArrival(ms[|ms| - 1]) then 1 else 0)
  }

  /** The messages GetMessageW retrieved. */
  function Messages(q: seq<Fetched>): (ms: seq<Msg>)
    ensures |ms| == |q| && forall i | 0 <= i < |q| :: ms[i] == q[i].msg
  {
    seq(|q|, i requires 0 <= i < |q| => q[i].msg)
  }

  /** Every UnregisterDeviceNotification call from position `from` on gets handle h. */
  predicate UnregistersOnly(t: seq<Call>, from: nat, h: Handle)
  {
    forall i | from <= i < |t| :: t[i].UnregisterDeviceNotification? ==> t[i].notifyHandle == h
  }

  /** No call from position `from` on, except possibly the last, is ExitProcess. */
  predicate ExitOnlyLast(t: seq<Call>, from: nat)
  {
    forall i | from <= i < |t| - 1 :: !t[i].ExitProcess?
  }

  lemma {:induction false} DispatchedAppend(a: seq<Call>, b: seq<Call>)
    ensures Dispatched(a + b) == Dispatched(a) + Dispatched(b)
    decreases |b|
  {
    if b == [] {
      assert a + b == a;
    } else {
      assert (a + b)[..|a + b| - 1] == a + b[..|b| - 1];
      DispatchedAppend(a, b[..|b| - 1]);
    }
  }

  lemma {:induction false} TranslatedAppend(a: seq<Call>, b: seq<Call>)
    ensures Translated(a + b) == Translated(a) + Translated(b)
    decreases |b|
  {
    if b == [] {
      assert a + b == a;
    } else {
      assert (a + b)[..|a + b| - 1] == a + b[..|b| - 1];
      TranslatedAppend(a, b[..|b| - 1]);
    }
  }

  lemma {:induction false} LocksAppend(a: seq<Call>, b: seq<Call>)
    ensures Locks(a + b) == Locks(a) + Locks(b)
    decreases |b|
  {
    if b == [] {
      assert a + b == a;
    } else {
      assert (a + b)[..|a + b| - 1] == a + b[..|b| - 1];
      LocksAppend(a, b[..|b| - 1]);
    }
  }

  lemma {:induction false} ArrivalsAppend(a: seq<Msg>, b: seq<Msg>)
    ensures Arrivals(a + b) == Arrivals(a) + Arrivals(b)
    decreases |b|
  {
    if b == [] {
      assert a + b == a;
    } else {
      assert (a + b)[..|a + b| - 1] == a + b[..|b| - 1];
      ArrivalsAppend(a, b[..|b| - 1]);
    }
  }

  /* ---------------------------------------------------------------------
     usbnotifier_RegisterDevice
     --------------------------------------------------------------------- */

  /** Registration succeeds exactly when the GUID parses and the OS returns a
      non-NULL handle; after a parse failure RegisterDeviceNotificationW is
      never called; the two failure statuses are distinct and negative. */
  lemma RegisterDeviceOutcome(hWnd: Handle, t: seq<Call>, o: Oracle)
    ensures var parsed := t + [IIDFromString(KeyboardHidGuidString)];
            var r := RegisterDeviceSpec(hWnd, t, o);
            (r.ret == RetStatusSuccess <==> o.parseGuid(parsed).Some? && o.result(r.trace) != Null) &&
            (r.ret == RetStatusSuccess || (Failed(r.ret) && r.ret in {-92, -107})) &&
            (o.parseGuid(parsed).None? ==> r == Step(parsed, -92)) &&
            (o.parseGuid(parsed).Some? ==>
               |r.trace| == |parsed| + 1 && r.trace[..|parsed|] == parsed &&
               r.trace[|parsed|].RegisterDeviceNotification? &&
               (r.ret == -107 <==> o.result(r.trace) == Null))
  {
  }

  /** IIDFromString is asked to parse KEYBOARD_HID_GUID_STRING; the filter
      then passed to RegisterDeviceNotificationW has its own size, the
      device-interface type and the class identifier that parse produced,
      and asks for delivery to the window handle hWnd. */
  lemma RegisterDeviceFilter(hWnd: Handle, t: seq<Call>, o: Oracle)
    requires o.parseGuid(t + [IIDFromString(KeyboardHidGuidString)]).Some?
    ensures var guid := o.parseGuid(t + [IIDFromString(KeyboardHidGuidString)]).value;
            var r := RegisterDeviceSpec(hWnd, t, o);
            |r.trace| == |t| + 2 &&
            r.trace[|t|] == IIDFromString("{884b96c3-56ef-11d1-bc8c-00a0c91405dd}") &&
            r.trace[|t| + 1]
              == RegisterDeviceNotification(hWnd, Filter(32, 5, guid), 0)
  {
  }

  /* ---------------------------------------------------------------------
     USBNOTIFIER_WinProcCallback, message by message.
     --------------------------------------------------------------------- */

  /** WM_CREATE: registration is attempted; on failure ExitProcess receives
      the (negative) status, on success nothing else happens. Returns 1. */
  lemma CreateRegistersOrExits(h: Handle, hWnd: Handle, m: Msg, t: seq<Call>, o: Oracle)
    requires m.message == WmCreate
    ensures var r := RegisterDeviceSpec(hWnd, t, o);
            var w := WinProcSpec(h, hWnd, m, t, o);
            w.ret == 1 &&
            (r.ret != RetStatusSuccess ==> r.ret < 0 && w.trace == r.trace + [ExitProcess(r.ret)]) &&
            (r.ret == RetStatusSuccess ==> w.trace == r.trace && !EndsInExit(w.trace))
  {
  }

  /** WM_DEVICECHANGE: LockWorkStation is called exactly once when the
      subcode is DBT_DEVICEARRIVAL and not at all otherwise; the LPARAM
      payload plays no part. Returns 1. */
  lemma DeviceChangeLocksOnArrival(h: Handle, hWnd: Handle, wParam: nat, lParam1: int, lParam2: int, t: seq<Call>, o: Oracle)
    ensures var w := WinProcSpec(h, hWnd, Msg(WmDeviceChange, wParam, lParam1), t, o);
            w.ret == 1 &&
            w.trace == t + (if wParam == DbtDeviceArrival then [LockWorkStation] else []) &&
            w == WinProcSpec(h, hWnd, Msg(WmDeviceChange, wParam, lParam2), t, o)
  {
  }

  /** WM_CLOSE: the context's handle is unregistered (result ignored), then
      the window is destroyed. Returns 1. Nothing guards a second close: two
      WM_CLOSE messages unregister the same handle twice. */
  lemma CloseUnregistersThenDestroys(h: Handle, hWnd: Handle, m: Msg, t: seq<Call>, o: Oracle)
    requires m.message == WmClose
    ensures var w := WinProcSpec(h, hWnd, m, t, o);
            w == Step(t + [UnregisterDeviceNotification(h), DestroyWindow(hWnd)], 1) &&
            WinProcSpec(h, hWnd, m, w.trace, o).trace
              == t + [UnregisterDeviceNotification(h), DestroyWindow(hWnd),
                      UnregisterDeviceNotification(h), DestroyWindow(hWnd)]
  {
  }

  /** WM_DESTROY: PostQuitMessage(0). Returns 1. */
  lemma DestroyPostsQuit(h: Handle, hWnd: Handle, m: Msg, t: seq<Call>, o: Oracle)
    requires m.message == WmDestroy
    ensures WinProcSpec(h, hWnd, m, t, o) == Step(t + [PostQuitMessage(0)], 1)
  {
  }

  /** Every other message goes to DefWindowProcW unchanged, and its result
      is returned unchanged. */
  lemma OtherMessagesForwarded(h: Handle, hWnd: Handle, m: Msg, t: seq<Call>, o: Oracle)
    requires m.message !in {WmCreate, WmDeviceChange, WmClose, WmDestroy}
    ensures var w := WinProcSpec(h, hWnd, m, t, o);
            w.trace == t + [DefWindowProc(hWnd, m)] && w.ret == o.result(w.trace)
  {
  }

  /** What every message does to the observations the pump accumulates: the
      history only grows, no message is translated or dispatched from inside
      the window procedure, one lock is added exactly for an arrival, any
      unregistration uses the context's handle, and an ExitProcess call ends
      the step. */
  lemma WinProcStep(h: Handle, hWnd: Handle, m: Msg, t: seq<Call>, o: Oracle)
    ensures var w := WinProcSpec(h, hWnd, m, t, o).trace;
            |t| <= |w| && w[..|t|] == t &&
            Dispatched(w) == Dispatched(t) &&
            Translated(w) == Translated(t) &&
            Locks(w) == Locks(t) + (if IsArrival(m) then 1 else 0) &&
            UnregistersOnly(w, |t|, h) &&
            ExitOnlyLast(w, |t|) &&
            (EndsInExit(w) && |w| > |t| <==> m.message == WmCreate && RegisterDeviceSpec(hWnd, t, o).ret != RetStatusSuccess)
  {
    var added := WinProcAdded(h, hWnd, m, t, o);
    Extend(t, added, h);
    if IsArrival(m) {
      assert added[..0] == [];
    } else {
      Unobserved(added);
    }
  }

  /** The calls the window procedure appends to the history, message by message. */
  lemma WinProcAdded(h: Handle, hWnd: Handle, m: Msg, t: seq<Call>, o: Oracle) returns (added: seq<Call>)
    ensures WinProcSpec(h, hWnd, m, t, o).trace == t + added
    ensures |added| <= 3
    ensures forall i | 0 <= i < |added| :: !added[i].DispatchMessage? && !added[i].TranslateMessage?
    ensures forall i | 0 <= i < |added| :: added[i].UnregisterDeviceNotification? ==> added[i].notifyHandle == h
    ensures forall i | 0 <= i < |added| - 1 :: !added[i].ExitProcess?
    ensures IsArrival(m) ==> added == [LockWorkStation]
    ensures !IsArrival(m) ==> forall i | 0 <= i < |added| :: !added[i].LockWorkStation?
    ensures |added| > 0 && added[|added| - 1].ExitProcess?
            <==> m.message == WmCreate && RegisterDeviceSpec(hWnd, t, o).ret != RetStatusSuccess
  {
    if m.message == WmCreate {
      added := CreateAdded(h, hWnd, m, t, o);
    } else if m.message == WmDeviceChange {
      added := if IsArrival(m) then [LockWorkStation] else [];
      assert WinProcSpec(h, hWnd, m, t, o).trace == t + added;
    } else if m.message == WmClose {
      added := [UnregisterDeviceNotification(h), DestroyWindow(hWnd)];
    } else if m.message == WmDestroy {
      added := [PostQuitMessage(0)];
    } else {
      added := [DefWindowProc(hWnd, m)];
    }
  }

  /** The calls WM_CREATE appends: IIDFromString, then (if the GUID parsed)
      RegisterDeviceNotificationW, then (if registration failed) ExitProcess. */
  lemma CreateAdded(h: Handle, hWnd: Handle, m: Msg, t: seq<Call>, o: Oracle) returns (added: seq<Call>)
    requires m.message == WmCreate
    ensures WinProcSpec(h, hWnd, m, t, o).trace == t + added
    ensures 0 < |added| <= 3
    ensures forall i | 0 <= i < |added| ::
              !added[i].DispatchMessage? && !added[i].TranslateMessage? &&
              !added[i].LockWorkStation? && !added[i].UnregisterDeviceNotification?
    ensures forall i | 0 <= i < |added| - 1 :: !added[i].ExitProcess?
    ensures added[|added| - 1].ExitProcess? <==> RegisterDeviceSpec(hWnd, t, o).ret != RetStatusSuccess
  {
    var parsed := [IIDFromString(KeyboardHidGuidString)];
    var r := RegisterDeviceSpec(hWnd, t, o);
    match o.parseGuid(t + parsed)
    case None =>
      added := parsed + [ExitProcess(r.ret)];
    case Some(guid) =>
      var registration := RegisterDeviceNotification(hWnd, Filter(FilterSize, DbtDevtypDeviceInterface, guid), DeviceNotifyWindowHandle);
      assert t + parsed + [registration] == t + (parsed + [registration]);
      if r.ret == RetStatusSuccess {
        added := parsed + [registration];
      } else {
        added := parsed + [registration, ExitProcess(r.ret)];
        assert r.trace + [ExitProcess(r.ret)] == t + added;
      }
  }

  /** Appending calls that translate and dispatch nothing, unregister only h
      and exit at most last keeps the observations of the prefix. */
  lemma Extend(t: seq<Call>, added: seq<Call>, h: Handle)
    requires forall i | 0 <= i < |added| :: !added[i].DispatchMessage? && !added[i].TranslateMessage?
    requires forall i | 0 <= i < |added| :: added[i].UnregisterDeviceNotification? ==> added[i].notifyHandle == h
    requires forall i | 0 <= i < |added| - 1 :: !added[i].ExitProcess?
    ensures var w := t + added;
            w[..|t|] == t && Dispatched(w) == Dispatched(t) && Translated(w) == Translated(t) &&
            Locks(w) == Locks(t) + Locks(added) &&
            UnregistersOnly(w, |t|, h) && ExitOnlyLast(w, |t|)
  {
    DispatchedAppend(t, added);
    TranslatedAppend(t, added);
    LocksAppend(t, added);
    Unobserved(added);
    var w := t + added;
    assert w[..|t|] == t;
    forall i | |t| <= i < |w|
      ensures w[i].UnregisterDeviceNotification? ==> w[i].notifyHandle == h
    {
      assert w[i] == added[i - |t|];
    }
    forall i | |t| <= i < |w| - 1
      ensures !w[i].ExitProcess?
    {
      assert w[i] == added[i - |t|];
    }
  }

  /** A list of calls without DispatchMessage dispatches nothing, one
      without TranslateMessage translates nothing, and one without
      LockWorkStation locks nothing. */
  lemma {:induction false} Unobserved(s: seq<Call>)
    ensures (forall i | 0 <= i < |s| :: !s[i].DispatchMessage?) ==> Dispatched(s) == []
    ensures (forall i | 0 <= i < |s| :: !s[i].TranslateMessage?) ==> Translated(s) == []
    ensures (forall i | 0 <= i < |s| :: !s[i].LockWorkStation?) ==> Locks(s) == 0
    decreases |s|
  {
    if s != [] {
      Unobserved(s[..|s| - 1]);
    }
  }

  /* ---------------------------------------------------------------------
     usbnotifier_MessagePump
     --------------------------------------------------------------------- */

  /** How many queued messages the pump dispatched: the ones it consumed,
      less the final one when GetMessageW ended the pump. */
  function Served(q: seq<Fetched>, p: PumpRun): int
  {
    var consumed := |q| - |p.queue|;
    if p.end == Quit || p.end == GetMessageFailed then consumed - 1 else consumed
  }

  /** Every DispatchMessageW call from position `from` on comes right after
      TranslateMessage of the same message. */
  predicate TranslatedJustBefore(t: seq<Call>, from: nat)
  {
    forall i | from <= i < |t| ::
      t[i].DispatchMessage? ==> from < i && t[i - 1] == TranslateMessage(t[i].msg)
  }

  /** What a single call contributes to each observation. */
  lemma SingleCall(c: Call)
    ensures Dispatched([c]) == (if c.DispatchMessage? then [c.msg] else [])
    ensures Translated([c]) == (if c.TranslateMessage? then [c.msg] else [])
    ensures Locks([c]) == (if c.LockWorkStation? then 1 else 0)
  {
    assert [c][..0] == [];
  }

  /** The calls of one turn translate and dispatch exactly its message and
      lock nothing. */
  lemma TurnObservations(m: Msg)
    ensures Dispatched([GetMessage, TranslateMessage(m), DispatchMessage(m)]) == [m]
    ensures Translated([GetMessage, TranslateMessage(m), DispatchMessage(m)]) == [m]
    ensures Locks([GetMessage, TranslateMessage(m), DispatchMessage(m)]) == 0
    ensures Arrivals([m]) == (if IsArrival(m) then 1 else 0)
  {
    var turn := [GetMessage, TranslateMessage(m), DispatchMessage(m)];
    assert turn[..2] == [GetMessage, TranslateMessage(m)];
    assert turn[..2][..1] == [GetMessage];
    SingleCall(GetMessage);
    assert [m][..0] == [];
  }

  /** One turn of the pump for a message GetMessageW returned with a
      positive value translates and dispatches that message once and locks
      once for an arrival. */
  lemma PumpTurnCounts(h: Handle, hWnd: Handle, m: Msg, t: seq<Call>, o: Oracle)
    ensures var handled := WinProcSpec(h, hWnd, m, t + [GetMessage, TranslateMessage(m), DispatchMessage(m)], o).trace;
            Dispatched(handled) == Dispatched(t) + [m] &&
            Translated(handled) == Translated(t) + [m] &&
            Locks(handled) == Locks(t) + Arrivals([m])
  {
    var turn := [GetMessage, TranslateMessage(m), DispatchMessage(m)];
    TurnObservations(m);
    DispatchedAppend(t, turn);
    TranslatedAppend(t, turn);
    LocksAppend(t, turn);
    WinProcStep(h, hWnd, m, t + turn, o);
  }

  /** One turn of the pump only extends the history, unregisters only the
      context's handle, and calls ExitProcess at most as its last call, with
      a failed status. */
  lemma PumpTurnSafety(h: Handle, hWnd: Handle, m: Msg, t: seq<Call>, o: Oracle)
    ensures var handled := WinProcSpec(h, hWnd, m, t + [GetMessage, TranslateMessage(m), DispatchMessage(m)], o).trace;
            |t| + 3 <= |handled| && handled[..|t|] == t &&
            UnregistersOnly(handled, |t|, h) &&
            ExitOnlyLast(handled, |t|) &&
            (EndsInExit(handled) ==> Failed(handled[|handled| - 1].exitCode))
  {
    var dispatched := t + [GetMessage, TranslateMessage(m), DispatchMessage(m)];
    WinProcStep(h, hWnd, m, dispatched, o);
    var handled := WinProcSpec(h, hWnd, m, dispatched, o).trace;
    assert handled[..|t|] == t by {
      assert handled[..|dispatched|] == dispatched;
    }
    assert forall i | |t| <= i < |dispatched| :: handled[i] == dispatched[i];
    if EndsInExit(handled) {
      assert |handled| > |dispatched| by {
        assert handled[..|dispatched|] == dispatched;
      }
      CreateRegistersOrExits(h, hWnd, m, dispatched, o);
    }
  }

  /** In one turn TranslateMessage comes right before DispatchMessageW, and
      the window procedure dispatches nothing itself. */
  lemma PumpTurnOrder(h: Handle, hWnd: Handle, m: Msg, t: seq<Call>, o: Oracle)
    ensures var handled := WinProcSpec(h, hWnd, m, t + [GetMessage, TranslateMessage(m), DispatchMessage(m)], o).trace;
            |t| + 3 <= |handled| && handled[..|t|] == t &&
            TranslatedJustBefore(handled, |t|)
  {
    var dispatched := t + [GetMessage, TranslateMessage(m), DispatchMessage(m)];
    var added := WinProcAdded(h, hWnd, m, dispatched, o);
    var handled := dispatched + added;
    assert handled[..|t|] == t;
    forall i | |t| <= i < |handled|
      ensures handled[i].DispatchMessage? ==> |t| < i && handled[i - 1] == TranslateMessage(handled[i].msg)
    {
      if i < |dispatched| {
        assert handled[i] == dispatched[i];
      } else {
        assert handled[i] == added[i - |dispatched|];
      }
    }
  }

  /** The pump stopped at its first GetMessageW: the queue was drained, or
      GetMessageW returned zero or a negative value. */
  predicate StoppedAtOnce(q: seq<Fetched>, t: seq<Call>, p: PumpRun)
  {
    if q == [] then p == PumpRun(t, [], QueueDrained)
    else q[0].ret <= 0 && p == PumpRun(t + [GetMessage], q[1..], if q[0].ret == 0 then Quit else GetMessageFailed)
  }

  lemma PumpStopCase(h: Handle, hWnd: Handle, q: seq<Fetched>, t: seq<Call>, o: Oracle)
    requires q == [] || q[0].ret <= 0
    ensures StoppedAtOnce(q, t, PumpSpec(h, hWnd, q, t, o))
  {
  }

  /** A pump whose first message makes the process exit served exactly it. */
  lemma PumpExitServesOne(h: Handle, hWnd: Handle, q: seq<Fetched>, t: seq<Call>, o: Oracle)
    requires q != [] && q[0].ret > 0
    requires EndsInExit(WinProcSpec(h, hWnd, q[0].msg, t + [GetMessage, TranslateMessage(q[0].msg), DispatchMessage(q[0].msg)], o).trace)
    ensures var p := PumpSpec(h, hWnd, q, t, o);
            Served(q, p) == 1 && Messages(q[..1]) == [q[0].msg] &&
            p == PumpRun(WinProcSpec(h, hWnd, q[0].msg, t + [GetMessage, TranslateMessage(q[0].msg), DispatchMessage(q[0].msg)], o).trace,
                         q[1..], ProcessExited)
  {
    var m := q[0].msg;
    assert t + [GetMessage] + [TranslateMessage(m), DispatchMessage(m)]
        == t + [GetMessage, TranslateMessage(m), DispatchMessage(m)];
    assert q[..1] == [q[0]];
  }

  /** A pump that goes on after its first message is the rest of the pump,
      one message further along the queue. */
  lemma PumpContinueServes(h: Handle, hWnd: Handle, q: seq<Fetched>, t: seq<Call>, o: Oracle)
    requires q != [] && q[0].ret > 0
    requires !EndsInExit(WinProcSpec(h, hWnd, q[0].msg, t + [GetMessage, TranslateMessage(q[0].msg), DispatchMessage(q[0].msg)], o).trace)
    ensures var handled := WinProcSpec(h, hWnd, q[0].msg, t + [GetMessage, TranslateMessage(q[0].msg), DispatchMessage(q[0].msg)], o).trace;
            var rest := PumpSpec(h, hWnd, q[1..], handled, o);
            PumpSpec(h, hWnd, q, t, o) == rest &&
            Served(q, rest) == Served(q[1..], rest) + 1
  {
    var m := q[0].msg;
    assert t + [GetMessage] + [TranslateMessage(m), DispatchMessage(m)]
        == t + [GetMessage, TranslateMessage(m), DispatchMessage(m)];
  }

  /** The first n + 1 retrieved messages are the first one followed by the
      first n of the rest. */
  lemma MessagesCons(q: seq<Fetched>, n: nat)
    requires n < |q|
    ensures Messages(q[..n + 1]) == [q[0].msg] + Messages(q[1..][..n])
  {
    assert q[..n + 1] == [q[0]] + q[1..][..n];
  }

  /* Stopping. */

  /** A run of the pump over queue q consumed a prefix of q and stopped at
      the first GetMessageW value that is not positive (zero: WM_QUIT,
      negative: an error), when the process exited, or when the queue was
      drained. */
  predicate StopsAtFirstNonPositive(q: seq<Fetched>, p: PumpRun)
  {
    var served := Served(q, p);
    |p.queue| <= |q| && p.queue == q[|q| - |p.queue|..] &&
    0 <= served <= |q| - |p.queue| &&
    (forall i | 0 <= i < served :: q[i].ret > 0) &&
    (p.end == QueueDrained ==> p.queue == []) &&
    (p.end == Quit ==> served < |q| && q[served].ret == 0) &&
    (p.end == GetMessageFailed ==> served < |q| && q[served].ret < 0) &&
    (p.end == ProcessExited ==> served > 0)
  }

  lemma {:induction false} PumpStopsAtFirstNonPositive(h: Handle, hWnd: Handle, q: seq<Fetched>, t: seq<Call>, o: Oracle)
    ensures StopsAtFirstNonPositive(q, PumpSpec(h, hWnd, q, t, o))
    decreases |q|
  {
    if q == [] || q[0].ret <= 0 {
      PumpStopCase(h, hWnd, q, t, o);
      StopsBase(q, t, PumpSpec(h, hWnd, q, t, o));
    } else {
      var m := q[0].msg;
      var handled := WinProcSpec(h, hWnd, m, t + [GetMessage, TranslateMessage(m), DispatchMessage(m)], o).trace;
      if EndsInExit(handled) {
        PumpExitServesOne(h, hWnd, q, t, o);
        StopsExit(q, PumpSpec(h, hWnd, q, t, o));
      } else {
        PumpStopsAtFirstNonPositive(h, hWnd, q[1..], handled, o);
        PumpContinueServes(h, hWnd, q, t, o);
        StopsStep(q, PumpSpec(h, hWnd, q[1..], handled, o));
      }
    }
  }

  lemma StopsBase(q: seq<Fetched>, t: seq<Call>, p: PumpRun)
    requires StoppedAtOnce(q, t, p)
    ensures StopsAtFirstNonPositive(q, p)
  {
    if q != [] {
      assert q[|q| - |q[1..]|..] == q[1..];
    }
  }

  lemma StopsExit(q: seq<Fetched>, p: PumpRun)
    requires q != [] && q[0].ret > 0
    requires p.queue == q[1..] && p.end == ProcessExited
    ensures StopsAtFirstNonPositive(q, p)
  {
    assert q[|q| - |q[1..]|..] == q[1..];
  }

  lemma StopsStep(q: seq<Fetched>, rest: PumpRun)
    requires q != [] && q[0].ret > 0
    requires StopsAtFirstNonPositive(q[1..], rest)
    requires Served(q, rest) == Served(q[1..], rest) + 1
    ensures StopsAtFirstNonPositive(q, rest)
  {
    assert q[1..][|q[1..]| - |rest.queue|..] == q[|q| - |rest.queue|..];
    forall i | 0 <= i < Served(q, rest)
      ensures q[i].ret > 0
    {
      if i > 0 {
        assert q[i] == q[1..][i - 1];
      }
    }
  }

  /* Translation, dispatch and locks. */

  /** Messages are translated and dispatched exactly once each, in
      retrieval order: none is dropped, repeated or reordered. */
  lemma {:induction false} PumpDispatchesInOrder(h: Handle, hWnd: Handle, q: seq<Fetched>, t: seq<Call>, o: Oracle)
    ensures var p := PumpSpec(h, hWnd, q, t, o);
            var served := Served(q, p);
            0 <= served <= |q| &&
            Translated(p.trace) == Translated(t) + Messages(q[..served]) &&
            Dispatched(p.trace) == Dispatched(t) + Messages(q[..served])
    decreases |q|
  {
    if q == [] || q[0].ret <= 0 {
      PumpStopCase(h, hWnd, q, t, o);
      StopObservesNothing(q, t, PumpSpec(h, hWnd, q, t, o));
    } else {
      var m := q[0].msg;
      var handled := WinProcSpec(h, hWnd, m, t + [GetMessage, TranslateMessage(m), DispatchMessage(m)], o).trace;
      PumpTurnCounts(h, hWnd, m, t, o);
      if EndsInExit(handled) {
        PumpExitServesOne(h, hWnd, q, t, o);
      } else {
        PumpDispatchesInOrder(h, hWnd, q[1..], handled, o);
        PumpContinueServes(h, hWnd, q, t, o);
        var rest := PumpSpec(h, hWnd, q[1..], handled, o);
        ServedStep(q, rest, Translated(t), Translated(handled), Translated(rest.trace));
        ServedStep(q, rest, Dispatched(t), Dispatched(handled), Dispatched(rest.trace));
      }
    }
  }

  /** Every arrival among the dispatched messages causes exactly one
      LockWorkStation call, and nothing else locks: arrivals are neither
      dropped nor merged. */
  lemma {:induction false} PumpLocksPerArrival(h: Handle, hWnd: Handle, q: seq<Fetched>, t: seq<Call>, o: Oracle)
    ensures var p := PumpSpec(h, hWnd, q, t, o);
            var served := Served(q, p);
            0 <= served <= |q| &&
            Locks(p.trace) == Locks(t) + Arrivals(Messages(q[..served]))
    decreases |q|
  {
    if q == [] || q[0].ret <= 0 {
      PumpStopCase(h, hWnd, q, t, o);
      StopObservesNothing(q, t, PumpSpec(h, hWnd, q, t, o));
    } else {
      var m := q[0].msg;
      var handled := WinProcSpec(h, hWnd, m, t + [GetMessage, TranslateMessage(m), DispatchMessage(m)], o).trace;
      PumpTurnCounts(h, hWnd, m, t, o);
      if EndsInExit(handled) {
        PumpExitServesOne(h, hWnd, q, t, o);
      } else {
        PumpLocksPerArrival(h, hWnd, q[1..], handled, o);
        PumpContinueServes(h, hWnd, q, t, o);
        var rest := PumpSpec(h, hWnd, q[1..], handled, o);
        LocksStep(q, rest, Locks(t), Locks(handled), Locks(rest.trace));
      }
    }
  }

  /** A pump that stops at once serves nothing, and its one GetMessageW call
      translates, dispatches and locks nothing. */
  lemma StopObservesNothing(q: seq<Fetched>, t: seq<Call>, p: PumpRun)
    requires StoppedAtOnce(q, t, p)
    ensures Served(q, p) == 0 && Messages(q[..0]) == []
    ensures Translated(p.trace) == Translated(t) && Dispatched(p.trace) == Dispatched(t) && Locks(p.trace) == Locks(t)
  {
    DispatchedAppend(t, [GetMessage]);
    TranslatedAppend(t, [GetMessage]);
    LocksAppend(t, [GetMessage]);
    assert [GetMessage][..0] == [];
  }

  /** The inductive step of PumpDispatchesInOrder, for either observation:
      the message of this turn comes before the ones the rest of the pump
      serves. */
  lemma ServedStep(q: seq<Fetched>, rest: PumpRun, before: seq<Msg>, mid: seq<Msg>, after: seq<Msg>)
    requires q != []
    requires mid == before + [q[0].msg]
    requires 0 <= Served(q[1..], rest) <= |q| - 1
    requires after == mid + Messages(q[1..][..Served(q[1..], rest)])
    requires Served(q, rest) == Served(q[1..], rest) + 1
    ensures 0 <= Served(q, rest) <= |q|
    ensures after == before + Messages(q[..Served(q, rest)])
  {
    var n := Served(q[1..], rest);
    MessagesCons(q, n);
    var later := Messages(q[1..][..n]);
    assert before + [q[0].msg] + later == before + ([q[0].msg] + later);
  }

  /** The inductive step of PumpLocksPerArrival. */
  lemma LocksStep(q: seq<Fetched>, rest: PumpRun, before: nat, mid: nat, after: nat)
    requires q != []
    requires mid == before + Arrivals([q[0].msg])
    requires 0 <= Served(q[1..], rest) <= |q| - 1
    requires after == mid + Arrivals(Messages(q[1..][..Served(q[1..], rest)]))
    requires Served(q, rest) == Served(q[1..], rest) + 1
    ensures 0 <= Served(q, rest) <= |q|
    ensures after == before + Arrivals(Messages(q[..Served(q, rest)]))
  {
    var n := Served(q[1..], rest);
    MessagesCons(q, n);
    ArrivalsAppend([q[0].msg], Messages(q[1..][..n]));
  }

  /** Each DispatchMessageW call the pump makes comes right after the
      TranslateMessage call for the same message. */
  lemma {:induction false} PumpTranslatesJustBefore(h: Handle, hWnd: Handle, q: seq<Fetched>, t: seq<Call>, o: Oracle)
    ensures var p := PumpSpec(h, hWnd, q, t, o);
            |t| <= |p.trace| && p.trace[..|t|] == t &&
            TranslatedJustBefore(p.trace, |t|)
    decreases |q|
  {
    if q == [] || q[0].ret <= 0 {
      PumpStopCase(h, hWnd, q, t, o);
      var p := PumpSpec(h, hWnd, q, t, o);
      assert p.trace[..|t|] == t;
      forall i | |t| <= i < |p.trace|
        ensures !p.trace[i].DispatchMessage?
      {
        assert p.trace[i] == GetMessage;
      }
    } else {
      var m := q[0].msg;
      var handled := WinProcSpec(h, hWnd, m, t + [GetMessage, TranslateMessage(m), DispatchMessage(m)], o).trace;
      PumpTurnOrder(h, hWnd, m, t, o);
      if EndsInExit(handled) {
        PumpExitServesOne(h, hWnd, q, t, o);
      } else {
        PumpTranslatesJustBefore(h, hWnd, q[1..], handled, o);
        PumpContinueServes(h, hWnd, q, t, o);
        TranslatedJustBeforeStep(t, handled, PumpSpec(h, hWnd, q[1..], handled, o).trace);
      }
    }
  }

  /** The inductive step of PumpTranslatesJustBefore. */
  lemma TranslatedJustBeforeStep(t: seq<Call>, handled: seq<Call>, u: seq<Call>)
    requires |t| <= |handled| && handled[..|t|] == t && TranslatedJustBefore(handled, |t|)
    requires |handled| <= |u| && u[..|handled|] == handled && TranslatedJustBefore(u, |handled|)
    ensures |t| <= |u| && u[..|t|] == t && TranslatedJustBefore(u, |t|)
  {
    assert u[..|t|] == t by {
      assert u[..|handled|][..|t|] == t;
    }
    forall i | |t| <= i < |u|
      ensures u[i].DispatchMessage? ==> |t| < i && u[i - 1] == TranslateMessage(u[i].msg)
    {
      if i < |handled| {
        assert u[i] == handled[i] by {
          assert u[..|handled|][i] == handled[i];
        }
        if u[i].DispatchMessage? {
          assert u[i - 1] == handled[i - 1] by {
            assert u[..|handled|][i - 1] == handled[i - 1];
          }
        }
      }
    }
  }

  /* History, handle and exit. */

  /** A run of the pump started from history t only extended it; every
      unregistration it caused used handle h; ExitProcess can only be its
      very last call, the run says the process exited exactly when it did,
      and the exit code is then a failed status. */
  predicate KeepsHandleAndStopsAtExit(t: seq<Call>, p: PumpRun, h: Handle)
  {
    |t| <= |p.trace| && p.trace[..|t|] == t &&
    UnregistersOnly(p.trace, |t|, h) &&
    ExitOnlyLast(p.trace, |t|) &&
    (p.end == ProcessExited <==> |p.trace| > |t| && EndsInExit(p.trace)) &&
    (p.end == ProcessExited ==> Failed(p.trace[|p.trace| - 1].exitCode))
  }

  lemma {:induction false} PumpKeepsHandleAndStopsAtExit(h: Handle, hWnd: Handle, q: seq<Fetched>, t: seq<Call>, o: Oracle)
    ensures KeepsHandleAndStopsAtExit(t, PumpSpec(h, hWnd, q, t, o), h)
    decreases |q|
  {
    if q == [] || q[0].ret <= 0 {
      PumpStopCase(h, hWnd, q, t, o);
      KeepsBase(q, t, PumpSpec(h, hWnd, q, t, o), h);
    } else {
      var m := q[0].msg;
      PumpTurnSafety(h, hWnd, m, t, o);
      var handled := WinProcSpec(h, hWnd, m, t + [GetMessage, TranslateMessage(m), DispatchMessage(m)], o).trace;
      if EndsInExit(handled) {
        PumpExitServesOne(h, hWnd, q, t, o);
      } else {
        PumpKeepsHandleAndStopsAtExit(h, hWnd, q[1..], handled, o);
        PumpContinueServes(h, hWnd, q, t, o);
        KeepsStep(t, handled, PumpSpec(h, hWnd, q[1..], handled, o), h);
      }
    }
  }

  lemma KeepsBase(q: seq<Fetched>, t: seq<Call>, p: PumpRun, h: Handle)
    requires StoppedAtOnce(q, t, p)
    ensures KeepsHandleAndStopsAtExit(t, p, h)
  {
    assert p.trace[..|t|] == t;
  }

  /** The inductive step of PumpKeepsHandleAndStopsAtExit. */
  lemma KeepsStep(t: seq<Call>, handled: seq<Call>, rest: PumpRun, h: Handle)
    requires |t| + 3 <= |handled| && handled[..|t|] == t
    requires UnregistersOnly(handled, |t|, h) && ExitOnlyLast(handled, |t|)
    requires !EndsInExit(handled)
    requires KeepsHandleAndStopsAtExit(handled, rest, h)
    ensures KeepsHandleAndStopsAtExit(t, rest, h)
  {
    assert rest.trace[..|t|] == t by {
      assert rest.trace[..|handled|] == handled;
    }
    forall i | |t| <= i < |handled|
      ensures rest.trace[i] == handled[i]
    {
      assert rest.trace[..|handled|][i] == handled[i];
    }
  }

  /* ---------------------------------------------------------------------
     USBNOTIFIER_Loop
     --------------------------------------------------------------------- */

  /** If the window class cannot be registered or the window cannot be
      created, the loop returns a negative status and never calls
      GetMessageW. Otherwise it runs the pump and returns RETSTATUS_SUCCESS
      whenever the pump ends on its own, including on a GetMessageW error;
      it returns nothing when the pump ended because the process exited. */
  lemma LoopOutcome(h: Handle, t: seq<Call>, q: seq<Fetched>, o: Oracle)
    ensures var classAtom := o.result(t + [RegisterClassEx]);
            var created := t + [RegisterClassEx, CreateWindowEx];
            var window := o.result(created);
            var r := LoopSpec(h, t, q, o);
            (classAtom == 0 ==> r == LoopRun(t + [RegisterClassEx], q, Returned(-249))) &&
            (classAtom != 0 && window == Null ==> r == LoopRun(created, q, Returned(-303))) &&
            (classAtom != 0 && window != Null ==>
               var p := PumpSpec(h, window, q, created, o);
               r.trace == p.trace && r.queue == p.queue &&
               (r.end == Returned(RetStatusSuccess) <==> p.end != ProcessExited) &&
               (r.end.Exited? <==> p.end == ProcessExited) &&
               (r.end.Exited? ==> r.end.exitCode == p.trace[|p.trace| - 1].exitCode)) &&
            (r.end.Returned? ==> (Failed(r.end.status) <==> classAtom == 0 || window == Null))
  {
    assert t + [RegisterClassEx] + [CreateWindowEx] == t + [RegisterClassEx, CreateWindowEx];
  }

  /** The loop ends in ExitProcess exactly when it does not return, and the
      process then exits with a failed status: the one registration
      returned on WM_CREATE. */
  lemma LoopExitsOnlyWithFailure(h: Handle, t: seq<Call>, q: seq<Fetched>, o: Oracle)
    ensures var r := LoopSpec(h, t, q, o);
            (r.end.Exited? <==> |r.trace| > |t| && EndsInExit(r.trace)) &&
            (r.end.Exited? ==> r.trace[|r.trace| - 1] == ExitProcess(r.end.exitCode) && Failed(r.end.exitCode))
  {
    var created := t + [RegisterClassEx, CreateWindowEx];
    var window := o.result(created);
    var r := LoopSpec(h, t, q, o);
    assert t + [RegisterClassEx] + [CreateWindowEx] == created;
    if o.result(t + [RegisterClassEx]) != 0 && window != Null {
      var p := PumpSpec(h, window, q, created, o);
      PumpKeepsHandleAndStopsAtExit(h, window, q, created, o);
      SetupThenPump(t, p, h);
      ExitedLikePump(t, r, p);
    } else {
      assert r.end.Returned? && |r.trace| > 0 && !r.trace[|r.trace| - 1].ExitProcess?;
    }
  }

  /** The pump case of LoopExitsOnlyWithFailure, for any loop run that
      ends as its pump run does. */
  lemma ExitedLikePump(t: seq<Call>, r: LoopRun, p: PumpRun)
    requires p.end == ProcessExited <==> |p.trace| > |t| && EndsInExit(p.trace)
    requires p.end == ProcessExited ==> Failed(p.trace[|p.trace| - 1].exitCode)
    requires r == LoopRun(p.trace, p.queue, if p.end == ProcessExited then Exited(p.trace[|p.trace| - 1].exitCode) else Returned(RetStatusSuccess))
    ensures r.end.Exited? <==> |r.trace| > |t| && EndsInExit(r.trace)
    ensures r.end.Exited? ==> r.trace[|r.trace| - 1] == ExitProcess(r.end.exitCode) && Failed(r.end.exitCode)
  {
  }

  /** Started from the zeroed context, the module only ever unregisters the
      NULL handle: the handle RegisterDeviceNotificationW returned is never
      stored, so WM_CLOSE passes g_tContext.hDeviceNotify, still NULL. */
  lemma LoopUnregistersOnlyNull(t: seq<Call>, q: seq<Fetched>, o: Oracle)
    ensures var r := LoopSpec(Null, t, q, o);
            |t| <= |r.trace| && r.trace[..|t|] == t && UnregistersOnly(r.trace, |t|, Null)
  {
    LoopOutcome(Null, t, q, o);
    var created := t + [RegisterClassEx, CreateWindowEx];
    var window := o.result(created);
    if o.result(t + [RegisterClassEx]) != 0 && window != Null {
      PumpKeepsHandleAndStopsAtExit(Null, window, q, created, o);
      SetupThenPump(t, PumpSpec(Null, window, q, created, o), Null);
    }
  }

  /** What holds of a pump run started after window creation holds of the
      whole loop. */
  lemma SetupThenPump(t: seq<Call>, p: PumpRun, h: Handle)
    requires KeepsHandleAndStopsAtExit(t + [RegisterClassEx, CreateWindowEx], p, h)
    ensures |t| <= |p.trace| && p.trace[..|t|] == t && UnregistersOnly(p.trace, |t|, h)
    ensures p.end == ProcessExited <==> |p.trace| > |t| && EndsInExit(p.trace)
  {
    var created := t + [RegisterClassEx, CreateWindowEx];
    assert p.trace[..|t|] == t by {
      assert p.trace[..|created|] == created;
    }
    forall i | |t| <= i < |created|
      ensures p.trace[i] == created[i]
    {
      assert p.trace[..|created|][i] == created[i];
    }
  }

  /** Registering the window class and creating the window neither dispatch
      nor lock. */
  lemma SetupObservesNothing(t: seq<Call>)
    ensures Locks(t + [RegisterClassEx]) == Locks(t)
    ensures Dispatched(t + [RegisterClassEx]) == Dispatched(t)
    ensures Locks(t + [RegisterClassEx, CreateWindowEx]) == Locks(t)
    ensures Dispatched(t + [RegisterClassEx, CreateWindowEx]) == Dispatched(t)
  {
    var registered := t + [RegisterClassEx];
    assert registered[..|t|] == t;
    assert (registered + [CreateWindowEx])[..|registered|] == registered;
    assert registered + [CreateWindowEx] == t + [RegisterClassEx, CreateWindowEx];
  }

  /** The locks the whole loop performs are exactly the arrivals among the
      messages it dispatched. */
  lemma LoopLocksPerArrival(h: Handle, t: seq<Call>, q: seq<Fetched>, o: Oracle)
    ensures var r := LoopSpec(h, t, q, o);
            Locks(r.trace) - Locks(t) == Arrivals(Dispatched(r.trace)) - Arrivals(Dispatched(t))
  {
    LoopOutcome(h, t, q, o);
    SetupObservesNothing(t);
    var created := t + [RegisterClassEx, CreateWindowEx];
    var window := o.result(created);
    if o.result(t + [RegisterClassEx]) != 0 && window != Null {
      PumpDispatchesInOrder(h, window, q, created, o);
      PumpLocksPerArrival(h, window, q, created, o);
      var p := PumpSpec(h, window, q, created, o);
      PumpLocksMatch(t, p.trace, Messages(q[..Served(q, p)]));
    }
  }

  /** A trace that adds to t's dispatches a list of messages, and one lock
      per arrival among them, locks once per dispatched arrival. */
  lemma PumpLocksMatch(t: seq<Call>, u: seq<Call>, ms: seq<Msg>)
    requires Dispatched(u) == Dispatched(t) + ms
    requires Locks(u) == Locks(t) + Arrivals(ms)
    ensures Locks(u) - Locks(t) == Arrivals(Dispatched(u)) - Arrivals(Dispatched(t))
  {
    ArrivalsAppend(Dispatched(t), ms);
  }
}
