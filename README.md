# Shell and taskbar appearance plugins

This project models the two appearance plugins of w11-theming-suite. Both are
DLLs injected into a XAML host process. TaskbarTAP targets explorer.exe. ShellTAP
targets any XAML shell process: explorer.exe, StartMenuExperienceHost.exe and
ShellExperienceHost.exe. Each registers with the XAML diagnostics service and
then rewrites the Fill and Opacity of selected XAML elements.

- **ShellTAP** is the generic plugin. A configuration record written by the
  controller holds up to eight name/type descriptors. Elements that match one
  are recorded in a 32-slot table. The mode is applied to every live tracked
  element in three cases: when the mode is set through SetShellTAPMode (even to
  the value it already has), when a monitor pass adopts a changed mode, and when
  an Add fills a new slot under a mode other than Default. An Add fills a slot only when the element
  matches, the table has room and discovery mode is off. Each element gets a
  new Opacity. While the chosen opacity is below 1, it also gets a transparent
  Fill brush.
- **TaskbarTAP** is a plugin for taskbars only. It recognises
  Rectangle#BackgroundFill, Rectangle#BackgroundStroke and TaskbarFrame
  elements. It groups them into an 8-slot taskbar table, and writes or clears
  the Fill and Opacity of the fill and stroke rectangles.

Both plugins share three things:

- A three-valued appearance mode: Default = 0, Transparent = 1, Acrylic = 2.
- A monitor pass that adopts a new mode from a shared-memory slot.
- A bootstrap that retries InitializeXamlDiagnosticsEx up to 60 times, each
  time on a fresh thread with a fresh endpoint name.

The modules are:

- `Xaml` (xaml.dfy): handles, the two property values, and a value standing
  for the diagnostics service.
  - The service value is an oracle. It records which handles resolve to
    elements, their property chains, property indices, which values
    CreateInstance accepts, and which writes it rejects.
  - The watchers do not call a service. They append the operations they
    request to a log (`seq<Op>`).
  - `PerformAll` gives the effect of such a log on an element's property
    overrides.
- `Modes` (modes.dfy): the mode enumeration and its integer encoding.
- `Bootstrap` (bootstrap.dfy): the SelfInjectThread retry loop. It is
  the same retry loop in native/ShellTAP/ShellTAP.cpp:189-260 and
  native/TaskbarTAP/TaskbarTAP.cpp:106-181; the two copies differ only in the
  CLSID they pass and in a debug message.
- `ShellTap` (shelltap.dfy):
  - the configuration record and the descriptor matcher;
  - the tracked-element table as a class over an array;
  - the appearance requests, proved against specification functions;
  - the module globals as a second class.
- `TaskbarTap` (taskbartap.dfy): the same structure for the TaskbarTAP plugin.

Globals that a callback reads (`g_mode`, `g_discoveryMode`, `g_config`,
`g_appearance`) are passed to the watcher methods as parameters. The
module classes pass their own fields.

Two behaviours of the code are worth knowing:

- **ShellTAP Default does not undo Transparent.** TaskbarTAP's Default clears
  both properties (native/TaskbarTAP/TaskbarTAP.cpp:605-608). ShellTAP's
  Default instead writes Opacity 1 and leaves Fill alone: SetElementOpacity
  writes Fill only when the opacity is below 1
  (native/ShellTAP/ShellTAP.cpp:727), and ShellTAP never clears a property.
  `ShellTap.DefaultKeepsTransparentFill` proves that the transparent brush
  survives a Transparent → Default round trip. TaskbarTAP does clear both
  properties, and `TaskbarTap.DefaultRestoresTemplate` proves its round trip.
- **A TaskbarTAP setter can be undone by the next poll.** The exported setters
  do not write the shared slot. So when the slot holds a different valid mode,
  the next monitor pass switches back to it
  (`TaskbarTap.PollOverridesSetter`). ShellTAP's SetShellTAPMode does mirror
  the new mode into the slot.

ShellTAP casts `config.mode` to its enumeration without a range check. The
model therefore keeps `g_mode` as an `int`. A value outside 0..2 behaves like
Default in ApplyToElement (opacity 1, no Fill).

## Model

| member | source | states |
|---|---|---|
| Xaml.Truncate | native/ShellTAP/ShellTAP.cpp:603-604 | wcsncpy_s keeps exactly the first min(length, n) characters: the whole string when it fits, else its first n |
| Modes.ToInt | native/ShellTAP/ShellTAP.h:33-37 | every mode is encoded as one of 0, 1, 2 |
| Modes.FromInt | native/TaskbarTAP/TaskbarTAP.h:28-32 | an integer names a mode exactly when it is in 0..2 |
| Modes.ModeRoundTrip | native/ShellTAP/ShellTAP.h:33-37 | decoding a mode's integer gives the mode back |
| Modes.IntRoundTrip | native/TaskbarTAP/TaskbarTAP.h:28-32 | every integer in 0..2 decodes to a mode that encodes back to it |
| Modes.ToIntInjective | native/ShellTAP/ShellTAP.h:33-37 | distinct modes have distinct integers |
| Bootstrap.DecimalString | native/ShellTAP/ShellTAP.cpp:216 | "%d" of a non-negative number is a non-empty string of decimal digits |
| Bootstrap.ParseDecimalString | native/ShellTAP/ShellTAP.cpp:216 | the decimal rendering of n reads back as n |
| Bootstrap.EndpointName | native/ShellTAP/ShellTAP.cpp:216 | every endpoint name is "VisualDiagConnection" followed by the decimal rendering of the attempt number |
| Bootstrap.EndpointNamesDistinct | native/ShellTAP/ShellTAP.cpp:214-216 | two attempts with the same endpoint name have the same number |
| Bootstrap.CallsStep | native/ShellTAP/ShellTAP.cpp:214-253 | one attempt more adds exactly its endpoint name at the end when its worker thread started, and nothing otherwise |
| Bootstrap.CallsNameAttempts | native/ShellTAP/ShellTAP.cpp:214-253 | at most one diagnostics call per attempt, each naming one of the attempts made |
| Bootstrap.CallsDistinct | native/ShellTAP/ShellTAP.cpp:214-253 | no endpoint name is used by two calls |
| Bootstrap.CallsNumbered | native/ShellTAP/ShellTAP.cpp:214-253 | when every worker thread starts, the N-th call uses "VisualDiagConnection<N>" |
| Bootstrap.RunAttempt | native/ShellTAP/ShellTAP.cpp:215-243 | one attempt adds its endpoint name to the calls exactly when its worker thread starts, and succeeds exactly when that call returns success; a thread that cannot be created leaves the failure in place |
| Bootstrap.SelfInjectThread | native/ShellTAP/ShellTAP.cpp:189-260 | without the resolved export nothing is called; otherwise 1 to 60 attempts, stopping right after the first success; failure only after all 60; the calls are those of the attempts made |
| ShellTap.ZeroConfig | native/ShellTAP/ShellTAP.cpp:68 | the zero-initialised configuration is well formed, has the wrong version and no descriptors |
| ShellTap.ScannedCount | native/ShellTAP/ShellTAP.cpp:536 | the matcher scans min(targetCount, 8) descriptors, and none for a non-positive count |
| ShellTap.MatchesTarget | native/ShellTAP/ShellTAP.cpp:532-562 | true iff some scanned descriptor matches the name ("*" or equal) and the type ("*" or substring); the stroke flag is true iff matched and the name contains "Stroke" |
| ShellTap.NewSlot | native/ShellTAP/ShellTAP.cpp:600-606 | a new slot is active, holds the handle and the stroke flag, and keeps the name and type cut to exactly 63 and 127 characters when longer, and whole otherwise |
| ShellTap.LastIndexIsLast | native/ShellTAP/ShellTAP.cpp:698-708 | the scan finds a property exactly when the chain names it, and then returns the index of the last entry with that name |
| ShellTap.ScanPropertyIndices | native/ShellTAP/ShellTAP.cpp:695-708 | the loop returns the last Fill and the last Opacity index, or UINT_MAX when absent |
| ShellTap.ModeOpsStep | native/ShellTAP/ShellTAP.cpp:641-644 | one slot more adds exactly that slot's operations at the end |
| ShellTap.ElementOpsShape | native/ShellTAP/ShellTAP.cpp:710-739 | every write for an element targets that element, uses a created value and the last scanned index, never UINT_MAX; Opacity gets the mode's level; Fill gets the transparent brush, only below opacity 1 |
| ShellTap.TargetOpacityByMode | native/ShellTAP/ShellTAP.cpp:656-672 | opacity 0 for Transparent, 0 for strokes and 0.3 otherwise under Acrylic, 1 for Default and for any value outside 0..2 |
| ShellTap.ModeOpsOnlyLive | native/ShellTAP/ShellTAP.cpp:641-644 | ApplyMode writes only to handles of active slots with a non-zero handle |
| ShellTap.CreateThenSetEffect | native/ShellTAP/ShellTAP.cpp:711-724 | a created value that is not rejected ends up on the property |
| ShellTap.ElementEffect | native/ShellTAP/ShellTAP.cpp:648-739 | on a service that creates every value and rejects nothing: an unresolved handle is left alone; otherwise the element gets the mode's opacity when its chain has Opacity, and the transparent Fill when its chain has Fill and the opacity is below 1 |
| ShellTap.DefaultKeepsTransparentFill | native/ShellTAP/ShellTAP.cpp:656-727 | Transparent then Default leaves Opacity 1 and the transparent Fill brush in place |
| ShellTap.RemoveClearsHandle | native/ShellTAP/ShellTAP.cpp:616-624 | after a Remove of a non-zero handle no slot holds it, and slots with other handles are unchanged |
| ShellTap.VisualTreeWatcher.constructor | native/ShellTAP/ShellTAP.cpp:494-501 | a new watcher has an empty 32-slot table, a zero count and an empty log |
| ShellTap.VisualTreeWatcher.GetTrackedCount | native/ShellTAP/ShellTAP.h:113 | the fill count never exceeds 32 |
| ShellTap.VisualTreeWatcher.ApplyMode | native/ShellTAP/ShellTAP.cpp:636-645 | the log grows by exactly the operations for the live slots, in slot order |
| ShellTap.VisualTreeWatcher.OnVisualTreeChange | native/ShellTAP/ShellTAP.cpp:582-627 | a tracked Add appends one slot at the old count and reapplies a non-Default mode; any other Add changes only the discovery log; a Remove deactivates and zeroes the matching slots and keeps the count |
| ShellTap.ShellTapModule.constructor | native/ShellTAP/ShellTAP.cpp:64-69 | the initial mode is Transparent, discovery mode is on, the configuration is zeroed |
| ShellTap.ShellTapModule.ReadConfig | native/ShellTAP/ShellTAP.cpp:93-132 | accepted iff the segment exists with version 1; only then are the mode and discovery := (targetCount == 0) taken from it |
| ShellTap.ShellTapModule.SetSite | native/ShellTAP/ShellTAP.cpp:444-483 | the old watcher is dropped; with a site a fresh watcher is created (all 32 slots empty, count 0, empty log and discovery log) and a mapped shared slot is seeded with the mode |
| ShellTap.ShellTapModule.Deliver | native/ShellTAP/ShellTAP.cpp:588-593 | in discovery mode a delivered change requests nothing and tracks nothing |
| ShellTap.ShellTapModule.GetShellTAPAppliedCount | native/ShellTAP/ShellTAP.cpp:348-351 | the count is in 0..32, and 0 without a watcher or in discovery mode |
| ShellTap.ShellTapModule.GetShellTAPMode | native/ShellTAP/ShellTAP.cpp:338-341 | the export reports the current mode, which may lie outside 0..2 after ReadConfig |
| ShellTap.ShellTapModule.SetShellTAPMode | native/ShellTAP/ShellTAP.cpp:329-336 | a value outside 0..2 gives E_INVALIDARG and changes nothing; otherwise the mode is set, mirrored into a mapped slot and reapplied to the watcher's unchanged table (nothing in discovery mode); the count, service and discovery log are kept |
| ShellTap.ShellTapModule.Poll | native/ShellTAP/ShellTAP.cpp:153-169 | a mapped slot value is adopted and reapplied to the watcher's unchanged table only when it is in 0..2 and differs from the mode (nothing in discovery mode); the count, service and discovery log are kept |
| TaskbarTap.ClassifyRules | native/TaskbarTAP/TaskbarTAP.cpp:447-457 | BackgroundFill iff the name is "BackgroundFill" and the type contains "Rectangle"; likewise for BackgroundStroke; TaskbarFrame iff the type contains "TaskbarFrame" and neither rectangle rule holds; nothing with a null name or type |
| TaskbarTap.WithField | native/TaskbarTAP/TaskbarTAP.cpp:484-490 | storing an element sets exactly the field of its kind and keeps the active flag |
| TaskbarTap.FirstReusable | native/TaskbarTAP/TaskbarTAP.cpp:462-473 | the result is the lowest active slot whose field of that kind is 0, or none; never a slot for a frame |
| TaskbarTap.ChosenSlot | native/TaskbarTAP/TaskbarTAP.cpp:460-481 | the chosen slot is at most the old count and inside the table |
| TaskbarTap.PlaceBounded | native/TaskbarTAP/TaskbarTAP.cpp:475-483 | the count grows by at most one and never past 8; at capacity with nothing to reuse the table is unchanged |
| TaskbarTap.PlaceWritesOneField | native/TaskbarTAP/TaskbarTAP.cpp:475-490 | the chosen slot gets the handle in the one field of its kind; a reused slot keeps its other handles, a new one is active with the others 0; other slots are unchanged |
| TaskbarTap.PlaceReusesLowest | native/TaskbarTAP/TaskbarTAP.cpp:462-476 | a reused slot is the lowest reusable one; a new slot is opened only when none is reusable; a frame always opens a new slot while there is room |
| TaskbarTap.ScrubEffect | native/TaskbarTAP/TaskbarTAP.cpp:501-514 | a Remove zeroes exactly the fields equal to the handle and deactivates a slot only when it is left with no handles |
| TaskbarTap.SetXamlProperty | native/TaskbarTAP/TaskbarTAP.cpp:530-561 | E_INVALIDARG with no call for a missing service or handle 0; otherwise CreateInstance first, SetProperty only after creation and index lookup succeeded, Ok only if it was issued |
| TaskbarTap.ClearXamlProperty | native/TaskbarTAP/TaskbarTAP.cpp:563-575 | E_INVALIDARG with no call for a missing service or handle 0; otherwise ClearProperty only after the index lookup succeeded |
| TaskbarTap.SetXamlPropertyEffect | native/TaskbarTAP/TaskbarTAP.cpp:536-560 | Ok means the value is on the property; any other status means nothing changed |
| TaskbarTap.ClearXamlPropertyEffect | native/TaskbarTAP/TaskbarTAP.cpp:568-574 | Ok means the override is gone; any other status means nothing changed |
| TaskbarTap.AppearanceOpsStep | native/TaskbarTAP/TaskbarTAP.cpp:583-584 | one slot more adds exactly that slot's operations at the end |
| TaskbarTap.RequestOpsTarget | native/TaskbarTAP/TaskbarTAP.cpp:536-575 | the helpers only write or clear properties of the handle they were given, and nothing for handle 0 |
| TaskbarTap.SlotOpsTargets | native/TaskbarTAP/TaskbarTAP.cpp:584-633 | a slot's requests touch only its fill and stroke handles, and only when it is active |
| TaskbarTap.AppearanceOpsTargets | native/TaskbarTAP/TaskbarTAP.cpp:583-634 | ApplyAppearance writes only fill and stroke handles of active slots, never a frame |
| TaskbarTap.RemovedNotTouched | native/TaskbarTAP/TaskbarTAP.cpp:500-515 | after a Remove of a non-zero handle, ApplyAppearance never writes that handle |
| TaskbarTap.RequestOpsEffect | native/TaskbarTAP/TaskbarTAP.cpp:589-633 | on a cooperative service every request of a run succeeds in order |
| TaskbarTap.ElementEffect | native/TaskbarTAP/TaskbarTAP.cpp:589-633 | fill: Transparent gives the transparent brush and Opacity 0; Acrylic gives #44000000 and Opacity 1; stroke: Transparent and Acrylic give the transparent brush and Opacity 0; Default clears both |
| TaskbarTap.DefaultRestoresTemplate | native/TaskbarTAP/TaskbarTAP.cpp:605-608 | Transparent then Default leaves neither Fill nor Opacity overridden, and every other override as it was |
| TaskbarTap.VisualTreeWatcher.constructor | native/TaskbarTAP/TaskbarTAP.cpp:401-408 | a new watcher has eight empty slots, a zero count and an empty log |
| TaskbarTap.VisualTreeWatcher.ApplyAppearance | native/TaskbarTAP/TaskbarTAP.cpp:578-635 | the log grows by exactly the requests for the active slots, in slot order; nothing without a service |
| TaskbarTap.VisualTreeWatcher.FindReusable | native/TaskbarTAP/TaskbarTAP.cpp:460-473 | the search returns the lowest reusable slot, or -1 when there is none (always for a frame) |
| TaskbarTap.VisualTreeWatcher.PlaceElement | native/TaskbarTAP/TaskbarTAP.cpp:460-490 | the table and count become those of the slot choice; an inactive slot below the count still holds no handles |
| TaskbarTap.VisualTreeWatcher.ForgetHandle | native/TaskbarTAP/TaskbarTAP.cpp:500-516 | every slot below the count is scrubbed of the handle; slots above it are unchanged |
| TaskbarTap.VisualTreeWatcher.OnVisualTreeChange | native/TaskbarTAP/TaskbarTAP.cpp:441-519 | a classified Add stores the handle by the slot choice and reapplies a non-Default appearance if a slot was written; an unclassified Add changes nothing; a Remove scrubs the table and keeps the count |
| TaskbarTap.Adopt | native/TaskbarTAP/TaskbarTAP.cpp:71-78 | the mode changes only to a mapped slot value; after a pass over a valid slot value the mode equals it |
| TaskbarTap.PollOverridesSetter | native/TaskbarTAP/TaskbarTAP.cpp:217-236 | whatever a setter chose, a pass over a valid slot value ends on that value |
| TaskbarTap.TaskbarTapModule.constructor | native/TaskbarTAP/TaskbarTAP.cpp:43-45 | the initial appearance is Transparent and there is no watcher |
| TaskbarTap.TaskbarTapModule.SetSite | native/TaskbarTAP/TaskbarTAP.cpp:340-385 | the old watcher is dropped; with a site a fresh watcher is created (all 8 slots empty, count 0, empty log) and a mapped shared slot is seeded with the appearance |
| TaskbarTap.TaskbarTapModule.Deliver | native/TaskbarTAP/TaskbarTAP.cpp:500-516 | a delivered Remove requests nothing and keeps the count |
| TaskbarTap.TaskbarTapModule.Select | native/TaskbarTAP/TaskbarTAP.cpp:219-221 | the appearance is set and reapplied to the watcher's unchanged table; S_OK; the count, service and shared slot are untouched |
| TaskbarTap.TaskbarTapModule.SetTaskbarTransparent | native/TaskbarTAP/TaskbarTAP.cpp:217-222 | the appearance becomes Transparent and is reapplied to the watcher's unchanged table; S_OK; the count, service and shared slot are untouched |
| TaskbarTap.TaskbarTapModule.SetTaskbarAcrylic | native/TaskbarTAP/TaskbarTAP.cpp:224-229 | the appearance becomes Acrylic and is reapplied to the watcher's unchanged table; S_OK; the count, service and shared slot are untouched |
| TaskbarTap.TaskbarTapModule.SetTaskbarDefault | native/TaskbarTAP/TaskbarTAP.cpp:231-236 | the appearance becomes Default and is reapplied to the watcher's unchanged table; S_OK; the count, service and shared slot are untouched |
| TaskbarTap.TaskbarTapModule.GetTaskbarTAPVersion | native/TaskbarTAP/TaskbarTAP.cpp:238-241 | the version query reports 1 |
| TaskbarTap.TaskbarTapModule.Poll | native/TaskbarTAP/TaskbarTAP.cpp:68-83 | one monitor pass: a mapped slot value is adopted and reapplied to the watcher's unchanged table only when it is in 0..2 and differs from the appearance |

## Left out

- DllMain, creating, mapping and unmapping the shared segments, and reading the `_Init` target id: Win32 I/O. The shared mode slot is a plain field. Whether it is mapped is a parameter of SetSite.
- COM plumbing: QueryInterface, AddRef/Release, the class factories, DllGetClassObject/DllCanUnloadNow and GetSite. The two interface queries of SetSite are folded into one optional service value, and SetSite returns no HRESULT.
- Threads, Sleep, the 5-second and 2-second waits, and the stop flag. The monitor loop is one pass (`Poll`). The unsynchronised sharing of the tables between the callback and monitor threads is not modelled.
- The AdviseVisualTreeChange thread started by SetSite: `Deliver` stands for the service calling the watcher once it is subscribed.
- The calls into IVisualTreeService3/IXamlDiagnostics, BSTR allocation and CoTaskMemFree. The service is a value. Requested operations go to a log. GetPropertyIndex, GetPropertyValuesChain and GetIInspectableFromHandle are lookups in that value and are not logged. A handle that does not resolve, or whose chain cannot be read, is one case. GetHandleFromIInspectable is assumed to return the handle it started from.
- Floating-point opacities and std::to_wstring: the three written levels are an enumeration, and so are the two brushes.
- Debug logging and the discovery log file, including LogElement's text format and a log file that cannot be opened. Discovery mode records the delivered elements in a sequence. ReadConfig's copy of the log path is left out with them.
- OnElementStateChanged (both plugins) only returns S_OK. GetShellTAPVersion only returns 1.
- FindParentByType, ApplyToRectangle and SetRectangleOpacity are declared in native/TaskbarTAP/TaskbarTAP.h but never defined.
- Both guids.h files hold only CLSID constants.
- Bootstrap.SelfInjectThread: HRESULTs are reduced to success or failure, and LoadLibrary/GetProcAddress to one `resolved` flag. A worker thread that cannot be created makes no call and leaves the previous (failed) result in place.
- ShellTap.ShellTapModule.ReadConfig: a segment whose view cannot be mapped leaves the zeroed configuration in place. It is passed as a record equal to the current configuration.
- ShellTap.ShellTapModule.ReadConfig: requires every descriptor of the segment to be NUL-terminated within its 64 or 128 wide characters. The source accepts any segment, and wcscmp and wcsstr would then read past the array, which is undefined behaviour, so such a segment is not modelled.
- ShellTap.ShellTapModule.Deliver and TaskbarTap.TaskbarTapModule.Deliver: these state only the consequences for the module. Their full effect is the watcher's OnVisualTreeChange contract.
- Integer widths: handles are unbounded naturals (64-bit in the source, never computed with). The counters stay below 33 and the attempt counter below 61, so no wrap-around can occur.
