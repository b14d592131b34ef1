/** The USB notifier of UsbNotifier/UsbNotifier.c: a hidden window whose
    procedure registers for keyboard-interface arrival notifications when
    the window is created, locks the workstation when a device arrives,
    unregisters and destroys the window on close, and posts the quit
    message on destroy; a message pump feeds it.

    The Win32 calls are recorded, in order, in the trace of an Os object.
    The answers the platform gives come from an Oracle (the calls whose
    results the code uses) and from the message queue that GetMessageW
    reads. */
module UsbNotifier {
  import opened Utilities

  /** HWND and HDEVNOTIFY values; NULL is Utilities.Null. */
  type Handle = int

  /* Window messages (WinUser.h) and device-change constants (Dbt.h). */
  const WmCreate: nat := 0x0001
  const WmDestroy: nat := 0x0002
  const WmClose: nat := 0x0010
  const WmDeviceChange: nat := 0x0219
  const DbtDeviceArrival: nat := 0x8000
  const DbtDevtypDeviceInterface: nat := 0x0005
  const DeviceNotifyWindowHandle: nat := 0x0000

  /** sizeof(DEV_BROADCAST_DEVICEINTERFACE_W) */
  const FilterSize: nat := 32

  /** KEYBOARD_HID_GUID_STRING */
  const KeyboardHidGuidString: string := "{884b96c3-56ef-11d1-bc8c-00a0c91405dd}"

  /** Source lines whose DEBUG_GEN_FAIL_STATUS() gives each failure status. */
  const IidFromStringFailureLine: nat := 92
  const RegisterNotificationFailureLine: nat := 107
  const RegisterClassFailureLine: nat := 249
  const CreateWindowFailureLine: nat := 303

  /** A 128-bit class identifier in its binary (GUID) layout. */
  datatype Guid = Guid(data1: bv32, data2: bv16, data3: bv16, data4: seq<bv8>)

  /** The DEV_BROADCAST_DEVICEINTERFACE filter as RegisterDevice fills it
      (its other members stay zero). */
  datatype Filter = Filter(size: nat, deviceType: nat, classGuid: Guid)

  /** A window message: its identifier, its (unsigned) WPARAM and its
      (signed) LPARAM. */
  datatype Msg = Msg(message: nat, wParam: nat, lParam: int)

  /** The Win32 calls of the core, with the arguments they receive. */
  datatype Call =
    | IIDFromString(text: string)
    | RegisterDeviceNotification(recipient: Handle, filter: Filter, flags: nat)
    | LockWorkStation
    | UnregisterDeviceNotification(notifyHandle: Handle)
    | DestroyWindow(window: Handle)
    | PostQuitMessage(quitCode: int)
    | ExitProcess(exitCode: int)
    | DefWindowProc(window: Handle, msg: Msg)
    | RegisterClassEx
    | CreateWindowEx
    | GetMessage
    | TranslateMessage(msg: Msg)
    | DispatchMessage(msg: Msg)

  datatype Option<T> = None | Some(value: T)

  /** The platform's answers. Each answer is a function of the whole call
      history, which ends with the call being answered. */
  datatype Oracle = Oracle(
    /** IIDFromString: Some(guid) when it SUCCEEDED, None when it FAILED. */
    parseGuid: seq<Call> -> Option<Guid>,
    /** The value returned by RegisterDeviceNotificationW, RegisterClassExW,
        CreateWindowExW and DefWindowProcW. */
    result: seq<Call> -> int)

  /** What one GetMessageW call returns: its return value and the message. */
  datatype Fetched = Fetched(ret: int, msg: Msg)

  /** The calls a step made and the value it returned. */
  datatype Step = Step(trace: seq<Call>, ret: int)

  /** Why the message pump stopped. QueueDrained is the model's horizon: the
      queue holds no further message, where GetMessageW would block. */
  datatype PumpEnd = Quit | GetMessageFailed | ProcessExited | QueueDrained

  datatype PumpRun = PumpRun(trace: seq<Call>, queue: seq<Fetched>, end: PumpEnd)

  /** How USBNOTIFIER_Loop ends: it returns a RETSTATUS, or the process
      ends inside it because the window procedure called ExitProcess, in
      which case the loop never returns and the exit code is what the
      process ends with. */
  datatype LoopEnd = Returned(status: int) | Exited(exitCode: int)

  datatype LoopRun = LoopRun(trace: seq<Call>, queue: seq<Fetched>, end: LoopEnd)

  /** The process has terminated: ExitProcess was the last call. */
  predicate EndsInExit(t: seq<Call>)
  {
    |t| > 0 && t[|t| - 1].ExitProcess?
  }

  /* ---------------------------------------------------------------------
     Specification functions: the calls each C function makes after the
     history t, and what it returns.
     --------------------------------------------------------------------- */

  /** usbnotifier_RegisterDevice. The handle that RegisterDeviceNotificationW
      returns is only compared with NULL; it is not stored anywhere. */
  function RegisterDeviceSpec(hWnd: Handle, t: seq<Call>, o: Oracle): Step
  {
    var parsed := t + [IIDFromString(KeyboardHidGuidString)];
    match o.parseGuid(parsed)
    case None => Step(parsed, GenFailStatus(IidFromStringFailureLine))
    case Some(guid) =>
      var filter := Filter(FilterSize, DbtDevtypDeviceInterface, guid);
      var registered := parsed + [RegisterDeviceNotification(hWnd, filter, DeviceNotifyWindowHandle)];
      if o.result(registered) == Null then Step(registered, GenFailStatus(RegisterNotificationFailureLine))
      else Step(registered, RetStatusSuccess)
  }

  /** USBNOTIFIER_WinProcCallback, with hDeviceNotify the module context's
      handle. */
  function WinProcSpec(hDeviceNotify: Handle, hWnd: Handle, m: Msg, t: seq<Call>, o: Oracle): Step
  {
    if m.message == WmCreate then
      var registered := RegisterDeviceSpec(hWnd, t, o);
      if Failed(registered.ret) then Step(registered.trace + [ExitProcess(registered.ret)], 1)
      else Step(registered.trace, 1)
    else if m.message == WmDeviceChange then
      if m.wParam == DbtDeviceArrival then Step(t + [LockWorkStation], 1) else Step(t, 1)
    else if m.message == WmClose then
      Step(t + [UnregisterDeviceNotification(hDeviceNotify), DestroyWindow(hWnd)], 1)
    else if m.message == WmDestroy then
      Step(t + [PostQuitMessage(0)], 1)
    else
      var forwarded := t + [DefWindowProc(hWnd, m)];
      Step(forwarded, o.result(forwarded))
  }

  /** usbnotifier_MessagePump over the messages left in the queue. */
  function PumpSpec(hDeviceNotify: Handle, hWnd: Handle, queue: seq<Fetched>, t: seq<Call>, o: Oracle): (p: PumpRun)
    ensures p.end == ProcessExited ==> EndsInExit(p.trace)
    decreases |queue|
  {
    if queue == [] then PumpRun(t, [], QueueDrained)
    else
      var fetched := t + [GetMessage];
      if queue[0].ret <= 0 then
        PumpRun(fetched, queue[1..], if queue[0].ret == 0 then Quit else GetMessageFailed)
      else
        var dispatched := fetched + [TranslateMessage(queue[0].msg), DispatchMessage(queue[0].msg)];
        var handled := WinProcSpec(hDeviceNotify, hWnd, queue[0].msg, dispatched, o).trace;
        if EndsInExit(handled) then PumpRun(handled, queue[1..], ProcessExited)
        else PumpSpec(hDeviceNotify, hWnd, queue[1..], handled, o)
  }

  /** usbnotifier_InitWindowClass: RegisterClassExW returns a zero atom on failure. */
  function InitWindowClassSpec(t: seq<Call>, o: Oracle): Step
  {
    var registered := t + [RegisterClassEx];
    if o.result(registered) == 0 then Step(registered, GenFailStatus(RegisterClassFailureLine))
    else Step(registered, RetStatusSuccess)
  }

  /** USBNOTIFIER_Loop */
  function LoopSpec(hDeviceNotify: Handle, t: seq<Call>, queue: seq<Fetched>, o: Oracle): LoopRun
  {
    var init := InitWindowClassSpec(t, o);
    if Failed(init.ret) then LoopRun(init.trace, queue, Returned(init.ret))
    else
      var created := init.trace + [CreateWindowEx];
      var hMainWindow := o.result(created);
      if hMainWindow == Null then LoopRun(created, queue, Returned(GenFailStatus(CreateWindowFailureLine)))
      else
        var pumped := PumpSpec(hDeviceNotify, hMainWindow, queue, created, o);
        if pumped.end == ProcessExited then
          LoopRun(pumped.trace, pumped.queue, Exited(pumped.trace[|pumped.trace| - 1].exitCode))
        else LoopRun(pumped.trace, pumped.queue, Returned(RetStatusSuccess))
  }

  /* ---------------------------------------------------------------------
     The platform and the module.
     --------------------------------------------------------------------- */

  /** The platform side: the calls made so far and the thread's queue. */
  class Os {
    var trace: seq<Call>
    var queue: seq<Fetched>
    const oracle: Oracle

    constructor (queue: seq<Fetched>, oracle: Oracle)
      ensures trace == [] && this.queue == queue && this.oracle == oracle
    {
      trace := [];
      this.queue := queue;
      this.oracle := oracle;
    }

    /** A call whose result the code ignores (or that returns nothing). */
    method Record(c: Call)
      modifies this`trace
      ensures trace == old(trace) + [c]
    {
      trace := trace + [c];
    }

    /** A call whose integer result the code uses. */
    method Ask(c: Call) returns (r: int)
      modifies this`trace
      ensures trace == old(trace) + [c]
      ensures r == oracle.result(trace)
    {
      trace := trace + [c];
      r := oracle.result(trace);
    }

    /** IIDFromString(text, &guid). */
    method ParseGuid(text: string) returns (g: Option<Guid>)
      modifies this`trace
      ensures trace == old(trace) + [IIDFromString(text)]
      ensures g == oracle.parseGuid(trace)
    {
      trace := trace + [IIDFromString(text)];
      g := oracle.parseGuid(trace);
    }

    /** GetMessageW(&tMsg, NULL, 0, 0): takes the next message off the queue. */
    method GetMessage() returns (f: Fetched)
      requires queue != []
      modifies this
      ensures trace == old(trace) + [Call.GetMessage]
      ensures f == old(queue)[0] && queue == old(queue)[1..]
    {
      trace := trace + [Call.GetMessage];
      f := queue[0];
      queue := queue[1..];
    }
  }

  /** The module: g_tContext and the functions of UsbNotifier.c. */
  class Notifier {
    /** g_tContext.hDeviceNotify */
    var hDeviceNotify: Handle
    const os: Os

    /** g_tContext starts zeroed. */
    constructor (os: Os)
      ensures hDeviceNotify == Null && this.os == os
    {
      hDeviceNotify := Null;
      this.os := os;
    }

    /** usbnotifier_RegisterDevice(hWnd, &g_tContext.hDeviceNotify). The
        out-parameter is never written: the context keeps its handle. */
    method RegisterDevice(hWnd: Handle) returns (status: int)
      modifies this, os`trace
      ensures hDeviceNotify == old(hDeviceNotify)
      ensures Step(os.trace, status) == RegisterDeviceSpec(hWnd, old(os.trace), os.oracle)
    {
      status := RetStatusInvalidValue;
      var guid := os.ParseGuid(KeyboardHidGuidString);
      if guid.None? {
        status := GenFailStatus(IidFromStringFailureLine);
        return;
      }
      var filter := Filter(FilterSize, DbtDevtypDeviceInterface, guid.value);
      var notifyHandle := os.Ask(RegisterDeviceNotification(hWnd, filter, DeviceNotifyWindowHandle));
      if notifyHandle == Null {
        status := GenFailStatus(RegisterNotificationFailureLine);
        return;
      }
      status := RetStatusSuccess;
    }

    /** USBNOTIFIER_WinProcCallback(hWnd, dwMessage, tWparam, tLparam). */
    method WinProcCallback(hWnd: Handle, m: Msg) returns (lRet: int)
      modifies this, os`trace
      ensures hDeviceNotify == old(hDeviceNotify)
      ensures Step(os.trace, lRet) == WinProcSpec(hDeviceNotify, hWnd, m, old(os.trace), os.oracle)
    {
      var status := RetStatusInvalidValue;
      lRet := 1;
      if m.message == WmCreate {
        status := RegisterDevice(hWnd);
        if Failed(status) {
          os.Record(ExitProcess(status));
        }
      } else if m.message == WmDeviceChange {
        if m.wParam == DbtDeviceArrival {
          os.Record(LockWorkStation);
        }
      } else if m.message == WmClose {
        os.Record(UnregisterDeviceNotification(hDeviceNotify));
        os.Record(DestroyWindow(hWnd));
      } else if m.message == WmDestroy {
        os.Record(PostQuitMessage(0));
      } else {
        lRet := os.Ask(DefWindowProc(hWnd, m));
      }
    }

    /** usbnotifier_MessagePump(hWnd): retrieve, translate and dispatch
        until GetMessageW returns zero (WM_QUIT) or a negative error. Every
        message goes to this module's window procedure. The pump also stops
        once the process has exited, since ExitProcess does not return. */
    method MessagePump(hWnd: Handle) returns (end: PumpEnd)
      modifies this, os
      ensures hDeviceNotify == old(hDeviceNotify)
      ensures PumpRun(os.trace, os.queue, end)
           == PumpSpec(hDeviceNotify, hWnd, old(os.queue), old(os.trace), os.oracle)
    {
      ghost var run := PumpSpec(hDeviceNotify, hWnd, os.queue, os.trace, os.oracle);
      end := QueueDrained;
      var running := true;
      while running && os.queue != []
        invariant hDeviceNotify == old(hDeviceNotify)
        invariant running ==> end == QueueDrained
        invariant running ==> PumpSpec(hDeviceNotify, hWnd, os.queue, os.trace, os.oracle) == run
        invariant !running ==> PumpRun(os.trace, os.queue, end) == run
        decreases |os.queue|
      {
        ghost var queue0, trace0 := os.queue, os.trace;
        var fetched := os.GetMessage();
        assert fetched == queue0[0] && os.queue == queue0[1..];
        if fetched.ret > 0 {
          os.Record(TranslateMessage(fetched.msg));
          os.Record(DispatchMessage(fetched.msg));
          ghost var dispatched := os.trace;
          var _ := WinProcCallback(hWnd, fetched.msg);
          assert dispatched == trace0 + [GetMessage] + [TranslateMessage(fetched.msg), DispatchMessage(fetched.msg)];
          assert os.trace == WinProcSpec(hDeviceNotify, hWnd, fetched.msg, dispatched, os.oracle).trace;
          if EndsInExit(os.trace) {
            end := ProcessExited;
            running := false;
          }
        } else {
          end := if fetched.ret == 0 then Quit else GetMessageFailed;
          running := false;
        }
      }
    }

    /** usbnotifier_InitWindowClass() */
    method InitWindowClass() returns (status: int)
      modifies os`trace
      ensures Step(os.trace, status) == InitWindowClassSpec(old(os.trace), os.oracle)
    {
      status := RetStatusInvalidValue;
      var atom := os.Ask(RegisterClassEx);
      if atom == 0 {
        status := GenFailStatus(RegisterClassFailureLine);
        return;
      }
      status := RetStatusSuccess;
    }

    /** USBNOTIFIER_Loop(). When the pump stopped because the window
        procedure called ExitProcess, the C function never returns: the
        outcome is then Exited with ExitProcess's argument. */
    method Loop() returns (outcome: LoopEnd)
      modifies this, os
      ensures hDeviceNotify == old(hDeviceNotify)
      ensures LoopRun(os.trace, os.queue, outcome)
           == LoopSpec(hDeviceNotify, old(os.trace), old(os.queue), os.oracle)
    {
      var status := InitWindowClass();
      if Failed(status) {
        outcome := Returned(status);
        return;
      }
      var hMainWindow := os.Ask(CreateWindowEx);
      if hMainWindow == Null {
        status := GenFailStatus(CreateWindowFailureLine);
        outcome := Returned(status);
        return;
      }
      var end := MessagePump(hMainWindow);
      if end == ProcessExited {
        outcome := Exited(os.trace[|os.trace| - 1].exitCode);
        return;
      }
      status := RetStatusSuccess;
      outcome := Returned(status);
    }
  }
}
