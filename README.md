# USB notifier: a Dafny model

This project models the two logical parts of the USB notifier.

**The reactor** (`UsbNotifier/UsbNotifier.c`) is a hidden window and its procedure:
- WM_CREATE registers the window for keyboard HID device-interface notifications, or exits the process if that fails.
- WM_DEVICECHANGE with the DBT_DEVICEARRIVAL subcode locks the workstation.
- WM_CLOSE unregisters the notification handle of the module context and destroys the window.
- WM_DESTROY posts the quit message.
- Every other message goes to DefWindowProcW.

A message pump retrieves, translates and dispatches messages until GetMessageW returns zero or a negative value. `USBNOTIFIER_Loop` registers the window class, creates the window and runs the pump.

**The status and utility macros** (`Common/Utilities.h`) cover:
- the RETSTATUS constants and predicates, and `DEBUG_GEN_FAIL_STATUS`;
- `IS_FLAG_ON`, `ABS`, `MAX`, `MIN` and `CEIL`;
- the release idioms `CLOSE_TO_VALUE`, `CLOSE`, `FREE` and `SET_UNLESS_NULL`;
- `utilities_SafeMemZero`.

The files are:
- `utilities.dfy`: module `Utilities`. Pure macros are functions and predicates. Macros that assign to the caller's variable work on a `Cell`. `SafeMemZero` zeroes an `array` in place.
- `usb_notifier.dfy`: module `UsbNotifier`.
  - Class `Os` records, in order, in its `trace`, every Win32 call the model keeps. GetModuleHandleW, GetLastError and the debug output are not recorded.
  - The answers the platform gives come from an `Oracle`. These are functions of the call history: IIDFromString's parse result, and the values of RegisterDeviceNotificationW, RegisterClassExW, CreateWindowExW and DefWindowProcW.
  - GetMessageW reads the thread's message queue, a finite `queue` of return value and message pairs.
  - Class `Notifier` holds `g_tContext.hDeviceNotify`. Its methods are the C functions. Each method is proved equal to a specification function over the call history (`RegisterDeviceSpec`, `WinProcSpec`, `PumpSpec`, `InitWindowClassSpec`, `LoopSpec`).
- `usb_notifier_properties.dfy`: module `UsbNotifierProperties`, lemmas about those specification functions.

The model follows the code where its comments promise more:
- `usbnotifier_RegisterDevice` documents `phDeviceNotify` as an out-parameter receiving the handle. The code never writes it: the handle RegisterDeviceNotificationW returns is only compared with NULL.
- So `g_tContext.hDeviceNotify` keeps its zero initial value. WM_CLOSE therefore unregisters NULL (`LoopUnregistersOnlyNull`).
- WM_CLOSE neither clears the handle nor guards against a second close.
- The device-change branch tests only WPARAM. It never reads the broadcast payload or its class GUID.

## Model

| member | source | states |
|---|---|---|
| Utilities.FailedIffNegative | Common/Utilities.h:326-336 | RETSTATUS_FAILED holds iff the status is negative, and RETSTATUS_SUCCEEDED is its exact negation (status >= 0) |
| Utilities.StatusConstants | Common/Utilities.h:66-75 | RETSTATUS_SUCCESS (0) succeeds; RETSTATUS_INVALID_VALUE (-1) fails |
| Utilities.GenFailStatus | Common/Utilities.h:237 | DEBUG_GEN_FAIL_STATUS() is minus the line number: a failed status that fits in 32 bits |
| Utilities.GenFailStatusInjective | Common/Utilities.h:234-237 | different lines give different failure statuses |
| Utilities.Abs | Common/Utilities.h:351 | ABS is non-negative and equals the value or its negation (INT_MIN excluded) |
| Utilities.Max | Common/Utilities.h:366 | MAX returns one of its arguments and is at least both: the larger one |
| Utilities.Min | Common/Utilities.h:381 | MIN returns one of its arguments and is at most both: the smaller one |
| Utilities.MaxMinPartition | Common/Utilities.h:366-381 | MAX and MIN together return both arguments: their sum is the arguments' sum and their set is the arguments' set |
| Utilities.Ceil | Common/Utilities.h:392 | for n >= 0, d > 0 and no overflow of n + d - 1, CEIL(n, d) = q with q >= 0, q * d >= n and (q - 1) * d < n |
| Utilities.CeilIsLeast | Common/Utilities.h:384-392 | every k with k * d >= n is at least CEIL(n, d): it is the least such multiple count |
| Utilities.FlagOnIffAllBits | Common/Utilities.h:317 | IS_FLAG_ON(v, f) holds iff every single bit of f is set in v |
| Utilities.FlagOnCoversBits | Common/Utilities.h:317 | a flag that is on has each of its bits set in the value |
| Utilities.MissingBit | Common/Utilities.h:317 | a flag that is not on has a single bit that is in the flag and clear in the value |
| Utilities.IsFlagOnTrivial | Common/Utilities.h:317 | the zero flag and the value itself are always on |
| Utilities.IsFlagOnUnion | Common/Utilities.h:317 | the union of two flags is on iff both flags are on |
| Utilities.CloseToValueSpec | Common/Utilities.h:250-256 | the variable ends at the sentinel; the close function is called iff the old value differs from it, exactly once, with the old value |
| Utilities.CloseTwiceClosesOnce | Common/Utilities.h:250-256 | two releases in a row close at most once, never on the sentinel, and the second does nothing |
| Utilities.CloseToValue | Common/Utilities.h:250-256 | the macro's new variable value and close calls are those of CloseToValueSpec |
| Utilities.Close | Common/Utilities.h:267 | CLOSE is CLOSE_TO_VALUE with the NULL sentinel |
| Utilities.Free | Common/Utilities.h:466-472 | FREE calls HeapFree once with a non-NULL pointer and none for NULL; the pointer is NULL afterwards |
| Utilities.SetUnlessNull | Common/Utilities.h:301-306 | a non-NULL pointer's target receives the value; a NULL pointer writes nothing |
| Utilities.Zeroed | Common/Utilities.h:503-519 | the first n bytes become zero and the rest keep their values |
| Utilities.SafeMemZero | Common/Utilities.h:503-519 | returns the pointer it was given; a non-NULL buffer ends as Zeroed of its old contents |
| UsbNotifier.Notifier.constructor | UsbNotifier/UsbNotifier.c:54-56 | g_tContext starts with a NULL hDeviceNotify |
| UsbNotifier.Notifier.RegisterDevice | UsbNotifier/UsbNotifier.c:70-122 | the calls made and the status returned are RegisterDeviceSpec's; the context handle is unchanged, because the out-parameter is never written |
| UsbNotifier.Notifier.WinProcCallback | UsbNotifier/UsbNotifier.c:158-216 | the calls made and the LRESULT are WinProcSpec's; the context handle is unchanged |
| UsbNotifier.Notifier.MessagePump | UsbNotifier/UsbNotifier.c:130-147 | the loop's calls, the queue it leaves and why it stopped are PumpSpec's |
| UsbNotifier.Notifier.InitWindowClass | UsbNotifier/UsbNotifier.c:223-264 | RegisterClassExW is called once; a zero atom gives the status of line 249, otherwise success |
| UsbNotifier.Notifier.Loop | UsbNotifier/UsbNotifier.c:270-321 | the calls, the queue left and how the loop ends (a returned status, or the exit code of an ExitProcess from which it never returns) are LoopSpec's; the context handle is unchanged |
| UsbNotifierProperties.RegisterDeviceOutcome | UsbNotifier/UsbNotifier.c:77-121 | success iff the GUID parses and RegisterDeviceNotificationW returns non-NULL; a parse failure returns -92 without registering; a NULL handle returns -107; no other status occurs |
| UsbNotifierProperties.RegisterDeviceFilter | UsbNotifier/UsbNotifier.c:89-104 | IIDFromString receives the keyboard HID interface string {884b96c3-56ef-11d1-bc8c-00a0c91405dd}; the filter then registered has its own size (32), the device-interface type (5) and the GUID parsed from that string, and is delivered to hWnd by window handle (flag 0) |
| UsbNotifierProperties.CreateRegistersOrExits | UsbNotifier/UsbNotifier.c:173-182 | WM_CREATE registers; a failure status is negative and goes to ExitProcess as the last call; success makes no exit; the result is 1 |
| UsbNotifierProperties.DeviceChangeLocksOnArrival | UsbNotifier/UsbNotifier.c:184-192 | WM_DEVICECHANGE calls LockWorkStation exactly once iff WPARAM is DBT_DEVICEARRIVAL, otherwise nothing; LPARAM has no effect; the result is 1 |
| UsbNotifierProperties.CloseUnregistersThenDestroys | UsbNotifier/UsbNotifier.c:194-199 | WM_CLOSE unregisters the context handle, then destroys the window, and returns 1; a second WM_CLOSE unregisters the same handle again |
| UsbNotifierProperties.DestroyPostsQuit | UsbNotifier/UsbNotifier.c:201-205 | WM_DESTROY calls exactly PostQuitMessage(0) and returns 1 |
| UsbNotifierProperties.OtherMessagesForwarded | UsbNotifier/UsbNotifier.c:207-215 | every other message is passed unchanged to DefWindowProcW, whose result is returned |
| UsbNotifierProperties.WinProcStep | UsbNotifier/UsbNotifier.c:158-216 | any message only extends the history, translates and dispatches nothing, locks once exactly for an arrival, unregisters only the context handle, and ends in ExitProcess iff it is a WM_CREATE whose registration failed |
| UsbNotifierProperties.PumpStopsAtFirstNonPositive | UsbNotifier/UsbNotifier.c:142-146 | the pump consumes a queue prefix whose served messages all had positive GetMessageW values; it stops at the first zero (quit) or negative value (error), or after ExitProcess, or when the queue is drained |
| UsbNotifierProperties.PumpDispatchesInOrder | UsbNotifier/UsbNotifier.c:142-146 | the messages translated, and the messages dispatched, are exactly the served messages, each once, in retrieval order |
| UsbNotifierProperties.PumpTranslatesJustBefore | UsbNotifier/UsbNotifier.c:142-146 | every DispatchMessageW call of the pump comes immediately after TranslateMessage of the same message |
| UsbNotifierProperties.PumpLocksPerArrival | UsbNotifier/UsbNotifier.c:142-146 | the pump's LockWorkStation calls are exactly one per arrival among the served messages |
| UsbNotifierProperties.PumpKeepsHandleAndStopsAtExit | UsbNotifier/UsbNotifier.c:142-146 | the pump only extends the history; every unregistration uses the context handle; ExitProcess can only be its last call; it reports ProcessExited exactly when that happened, and the exit code is then a failed status |
| UsbNotifierProperties.LoopOutcome | UsbNotifier/UsbNotifier.c:279-314 | class-registration failure returns -249 and window-creation failure -303, both without calling GetMessageW; otherwise the pump runs, and the loop returns RETSTATUS_SUCCESS exactly when the pump ended on its own (WM_QUIT, a GetMessageW error, the end of the queue) and does not return, with the pump's last ExitProcess code, exactly when the process exited; a returned status fails iff setup failed |
| UsbNotifierProperties.LoopExitsOnlyWithFailure | UsbNotifier/UsbNotifier.c:173-182 | the loop does not return exactly when its history ends in ExitProcess; that call receives the exit code, and the code is a failed status |
| UsbNotifierProperties.LoopUnregistersOnlyNull | UsbNotifier/UsbNotifier.c:197 | from the zeroed context, every UnregisterDeviceNotification the loop makes receives NULL |
| UsbNotifierProperties.LoopLocksPerArrival | UsbNotifier/UsbNotifier.c:270-321 | over the whole loop, the number of locks equals the number of arrivals among the dispatched messages |

## Left out

- `Main/Main.c` is not part of this model. It only forwards the loop's status as the process exit code.
- The window class fields (UsbNotifier/UsbNotifier.c:233-244) and the window's creation arguments (:289-300) are not modelled. RegisterClassExW and CreateWindowExW are oracle calls.
- IIDFromString's text parsing is a library call the code does not implement. Its result is an oracle answer.
- Win32 message delivery is not modelled. In particular, CreateWindowExW sending WM_CREATE and DestroyWindow sending WM_DESTROY are not simulated: such messages arrive through the queue like any other. Every message goes to the one window the loop creates.
- TranslateMessage has no modelled effect beyond being recorded.
- GetMessageW blocks on an empty queue. The model instead stops the pump when the queue runs out (`QueueDrained`), so it describes finite prefixes of a run.
- ExitProcess does not return. The model records it as the last call, stops the pump, and ends the loop with `Exited` and the exit code instead of a returned status.
- ExitProcess receives the LONG status converted to UINT. The model records the signed status.
- Logging and debugging macros have no behavioural content and are left out: DEBUG_MSG, DEBUG_ENTER, DEBUG_LEAVE_STATUS, DEBUG_RETMSG's message, ASSERT, COMPILE_TIME_ASSERT.
- `BEGIN_THREAD`, `ALLOCZ`, `CLOSE_HANDLE`, `CLOSE_FILE_HANDLE` and the kernel-mode branches of Common/Utilities.h are not part of this model.
- `DEBUG_GEN_FAIL_STATUS` expands to `-__LINE__`. For a call spread over several lines, the line used depends on the compiler. The model uses the line where each call starts: 92, 107, 249 and 303.
- Abs: the 32-bit overflow of ABS(INT_MIN) is excluded by a precondition, not modelled.
- Ceil: inputs where n + d - 1 overflows 32 bits are excluded by a precondition. Negative numerators and negative denominators are excluded too, because C division truncates toward zero.
- Max, Min: the double evaluation of arguments with side effects has no counterpart, since Dafny arguments are values.
- SafeMemZero: a non-NULL buffer must hold at least n bytes, which is the source's buffer annotation. RtlZeroMemory is modelled by its effect.
