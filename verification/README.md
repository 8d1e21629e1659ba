# A verified model of libhs

libhs gives programs access to serial and HID devices, and tells them when devices come and go. This
project models its platform-independent core and the protocols around it in Dafny, and proves what they
promise. `dafny verify dfyconfig.toml` checks everything.

## What is modelled

| file | models |
|---|---|
| `LinkedList.dfy`, `Lists.dfy` | the intrusive circular doubly linked list of `src/list.h`, and the lists of values that other modules keep in it |
| `HashTable.dfy` | the intrusive hash table of `src/htable.c` and `src/htable.h`, whose bucket heads are pointer cells used as nodes |
| `Registry.dfy` | what the device registry of `src/monitor.c` does, as a state machine, and the theorems about whole runs |
| `HotplugEvents.dfy` | what `hs_monitor_refresh` of `src/monitor_linux.c` makes of the registry, and what becomes of the answers of callbacks |
| `Callbacks.dfy`, `Monitor.dfy` | the same registry on the heap: rings, chains, reference counts, loops that free the node they are at |
| `Handles.dfy` | opening, closing and the two-phase close on Windows |
| `Ledger.dfy`, `Session.dfy` | who holds references to a device, over every run of operations; and a program in memory whose operations are proved to be those moves |
| `ReportQueue.dfy`, `HidHandle.dfy` | the report queue of `src/hid_darwin.c`: every interleaving of its two threads, and the report pool itself |
| `Notifications.dfy`, `MonitorWin32.dfy`, `RegistryWin32.dfy` | the hand-off of notifications in `src/monitor_win32.c`: every interleaving, the linked lists behind it, and the registry it feeds |
| `HidDescriptor.dfy` | the report descriptor parser of `src/hid_linux.c` |
| `AsyncRead.dfy` | buffered asynchronous reads on Windows, for serial and HID devices |
| `DevicePath.dfy`, `Location.dfy`, `CStrings.dfy` | device ids and paths on Windows, USB locations on macOS |
| `Wrappers.dfy` | what several of these share |

The pattern is the same throughout. A pure definition says what one step does, theorems about it range over
all runs or interleavings, and classes with mutable state, loops and arrays are proved to take exactly those
steps. User callbacks and the functions given to `hs_monitor_list` are scripts of answers, arbitrary ones; what the
system calls return is a parameter of the operation.

What is freed is recorded: devices have a ghost field `freed`, and so has the list of callbacks for its nodes. Loops
over devices, callbacks and reports that free what they are at read where to go next through functions that require
it to be still there (`Monitor.NextOf`, `Callbacks.CallbackList.NextOf`, `HidHandle.Handle.NextOf`), so none of
them reads freed memory.

## What the code does not promise

* The comment on callbacks at `include/hs/monitor.h:51-60` says that any non-zero answer stops the processing of
  events and is returned from the refresh. In `src/monitor.c:114-120` a positive answer only drops the callback, and
  `src/monitor.c:151` ignores what callbacks answer to a removal: a negative answer stops that round of calls, but not
  the refresh, and is not returned. The model follows the code. A refresh on Linux keeps to the comment exactly if every
  answer it gets is 0, or a negative one on an arrival (`HotplugEvents.RefreshObeysExactlyIf`, and
  `Registry.StepObeysExactlyIf` for one operation); `Registry.PositiveAnswerGoesOn` and
  `HotplugEvents.RemovalGoesOn` are inputs of the two kinds for which it does not. Listing devices does keep to it
  (`Registry.OfferStops`).
* The pipe of a HID handle on macOS is not readable exactly when something is pending. Wake-ups are never lost,
  but a report read before its wake-up is written leaves a byte behind for good (`ReportQueue.StaleWakeUp`).
  Exactly when: `ReportQueue.ReadableIffPendingOrRaced`; how many: `ReportQueue.RunSurplus`.
* A background error on Windows can stay unannounced: a refresh that ends with empty lists resets the event even
  if the error arrived meanwhile (`Notifications.ErrorCanBeMuted`; exactly after which runs:
  `Notifications.MutedExactlyThen`).
* A stray End Collection makes the depth counter of the descriptor parser wrap around, after which items inside
  collections are taken for top-level ones (`HidDescriptor.StrayEndCollection`; exactly when:
  `HidDescriptor.HarmlessExactlyIf`).
* After an asynchronous read on Windows completes without data, no read ever returns anything again
  (`AsyncRead.StalledForGood`; such a run: `AsyncRead.ReadsCanStall`; exactly which: `AsyncRead.StreamStallsExactlyIf` and
  `AsyncRead.MailStallsExactlyIf`).
* The id of a device survives being made a path iff it is upper-case and has no `#`
  (`DevicePath.RoundTripExactlyIf`; one that does not: `DevicePath.SomeIdsChange`).

## Model

| member | source | states |
|---|---|---|
| `Registry.FromStart` | src/monitor.c:79-158 | From creation on, over every run of adds, removes and (de)registrations and for all callback answers: the bucketed table holds a device iff a plain set would, once and in the bucket of its key; its notifications alternate online, disconnected; and it is registered iff their number is odd |
| `Registry.RunHoldsReplay` | src/monitor.c:126-158 | The same refinement of the plain set of (key, interface) pairs from any well-formed state: add inserts only what is absent, remove deletes every interface of the key, whatever keys collide |
| `Registry.StepHoldsApply` | src/monitor.c:126-158 | One operation changes the membership of every device as one step of the plain set does |
| `Registry.StepKeeps` | src/monitor.c:41-158 | Every operation keeps: no pair twice, every pair in bucket hash mod size, callback ids increasing along the list and below the counter |
| `Registry.RunAnnounces` | src/monitor.c:108-158 | Between operations the notifications issued for a device strictly alternate, online first, and tell whether it is registered; refused duplicates and removals of unknown keys issue none |
| `Registry.TriggerCalls` | src/monitor.c:108-116 | The calls go to a prefix of the callback list, in order, with the event, and each got the answer its callback gave |
| `Registry.TriggerStops` | src/monitor.c:114-123 | The called prefix ends with the first negative answer, which is returned; without one every callback was called and 0 is returned |
| `Registry.TriggerDrops` | src/monitor.c:117-120 | The list left is the old one without exactly the called callbacks that answered with a positive value, in order |
| `Registry.TriggerObeysExactlyIf` | src/monitor.c:108-124 | One notification: only 0 continues and any other answer is what trigger_callbacks returns, iff no callback it called answered with a positive value; it ends early only with a non-zero result |
| `Registry.StepObeysExactlyIf` | include/hs/monitor.h:51-60 | One operation keeps to the documented rule, that all calls but the last answered 0 and the last answer is returned, iff every callback it called answered 0, or a negative value on an arrival |
| `HotplugEvents.RefreshObeysExactlyIf` | include/hs/monitor.h:51-60 | A whole refresh keeps to it, so that a non-zero answer is the last one given, belongs to the last event handled and is returned, iff every callback it called answered 0, or a negative value on an arrival |
| `HotplugEvents.RemovalGoesOn` | src/monitor.c:144-158 | A refresh without positive answers that does not: the callback answers -1 to a removal, the next event is handled all the same, and 0 is returned |
| `Registry.PositiveAnswerGoesOn` | src/monitor.c:114-120 | A notification in which it does not hold: the first of two callbacks answers 1, the second is called all the same, and 0 is returned |
| `Registry.RunIsHeard` | src/monitor.c:108-158 | A callback that is not deregistered and never answers positively stays registered over any run; it misses exactly as many notifications as callbacks before it answered negatively, and sees the whole history once and in order when none did |
| `Registry.RunIsSilent` | src/monitor.c:65-77 | A callback that is off the list is never called again, over any run |
| `Registry.UnlistenTakesOff` | src/monitor.c:65-77 | Deregistering takes exactly the callback with that id off the list; devices, notifications, calls and the id counter stay as they were |
| `Registry.DeregisteredIsSilent` | src/monitor.c:65-77 | Over any run before and any run after it: once a callback is deregistered, no later call goes to it |
| `Registry.ListenPutsLast` | src/monitor.c:41-57 | Registering puts one callback more behind all others, under the next id, which no other has |
| `Registry.RegisteredHears` | src/monitor.c:41-57 | One registered in the middle of a run misses of what follows only what earlier callbacks cut short |
| `Registry.KeptExactlyIf` | src/monitor.c:114-120 | After a notification a callback is on the list iff it was before and did not answer with a positive value |
| `Registry.IdsAreFresh` | src/monitor.c:50-56 | The ids handed out over a run increase, and none belongs to a callback already listed |
| `Registry.FlatIsOnceEach` | src/monitor.c:165-172 | The devices of the table, bucket after bucket, contain each registered device exactly once and nothing else |
| `Registry.OfferStops` | src/monitor.c:169-174 | Listing: all calls but the last returned 0; a non-zero result ends the calls and is returned; 0 means that every device was offered |
| `Registry.OfferCalls` | src/monitor.c:169-174 | There is a call iff there is a device, and a non-zero result only as what the last call returned |
| `Callbacks.CallbackList.Register` | src/monitor.c:41-57 | The new callback is the last of the list, with the next id |
| `Callbacks.CallbackList.Deregister` | src/monitor.c:65-77 | The list afterwards is the old one without the id, and unchanged when the id is unknown |
| `Callbacks.CallbackList.Visit` | src/monitor.c:114-120 | One call: the trace grows by it, and the node is unlinked iff the answer is positive |
| `Callbacks.CallbackList.TriggerTurn` | src/monitor.c:110-121 | One turn of the loop, whether it ends it, drops the node or goes on, leaves the outcome of the whole traversal what it was |
| `Callbacks.CallbackList.Trigger` | src/monitor.c:108-124 | The loop over the ring, which may free the node it is at, does exactly what the pure traversal of the id list says |
| `Callbacks.CallbackList.Release` | src/monitor.c:94-97 | Every node of the list is freed, each once and in list order |
| `Monitor.DeviceUnref` | src/device.c:49-71 | One reference less, and the memory goes exactly with the last one |
| `Monitor.HsMonitor.constructor` | src/monitor.c:79-90 | An empty list, and a table of 64 empty buckets |
| `Monitor.HsMonitor.RegisterCallback` | src/monitor.c:41-57 | On the heap: the state becomes that of the pure registration, the new id is last and was not on the list, and the devices are untouched |
| `Monitor.HsMonitor.DeregisterCallback` | src/monitor.c:65-77 | On the heap: the state becomes that of the pure deregistration, exactly that id is off the list, and the devices are untouched |
| `Monitor.HsMonitor.Find` | src/monitor.c:128-133 | The search of one chain finds a device iff the pair is in the bucket of its key |
| `Monitor.HsMonitor.Enroll` | src/monitor.c:135-139 | The device becomes the first of its bucket with one reference more, and every other registered device stays as it was |
| `Monitor.HsMonitor.Add` | src/monitor.c:126-142 | On the heap: the table and the trace become those of the pure add, the reference count grows iff the device was new, and a refused device is left untouched |
| `Monitor.HsMonitor.Discard` | src/monitor.c:149-156 | One hit of the removal loop: notified, unlinked at its position and nothing else moved, one reference less, freed iff it was the last |
| `Monitor.HsMonitor.Remove` | src/monitor.c:144-158 | On the heap: the loop that frees the nodes it walks over does what the pure removal says, and every device with the key, and no other, loses one reference and goes offline |
| `Monitor.HsMonitor.List` | src/monitor.c:160-175 | The devices visited are a prefix of the table in bucket order, and number of calls and result are those of offering them one by one |
| `Monitor.HsMonitor.ReleaseDevices` | src/monitor.c:99-105 | Every registered device loses exactly one reference and its monitor, no other device changes, and exactly those are freed whose last reference it was |
| `Monitor.HsMonitor.Release` | src/monitor.c:92-106 | The same, after freeing every callback node |
| `Monitor.HsMonitor.HandOver` | src/monitor_linux.c:376-379 | After discovery hands a device over and gives its own reference back, it is freed iff the registry refused it, and is held by the registry alone otherwise |
| `Monitor.HsMonitor.Plug` | src/monitor_linux.c:372-379 | An arrival: errors and unusable devices change nothing and are returned; a device is added and the result of the callbacks returned |
| `Monitor.HsMonitor.Handle` | src/monitor_linux.c:371-387 | One hot-plug event is the run of the registry that the event stands for, with its result |
| `Monitor.HsMonitor.Refresh` | src/monitor_linux.c:360-395 | The event loop processes events exactly as the recursive definition does, stopping after the first one that fails |
| `HotplugEvents.ProcessIsRun` | src/monitor_linux.c:368-394 | What a refresh does is a run of the registry over all events, or over those up to and including a failed arrival, so every whole-run result above covers it |
| `HotplugEvents.EventMeans` | src/monitor_linux.c:371-382 | An arrival that discovery found usable is registered, a removal unregisters every device with the key, and nothing else changes what is registered |
| `HotplugEvents.RunHoldsPresent` | src/monitor_linux.c:371-382 | After any events the registry holds exactly the devices that a plain account of arrivals and removals leaves |
| `HotplugEvents.ProcessStops` | src/monitor_linux.c:368-394 | A refresh stops behind the first event with an error, the error of discovery or the negative answer of a callback, and returns it; without one it handles all events and returns 0 |
| `Ledger.Run` | src/device.c:37-71 | Over every run of legal moves each device has as many references as callers and handles hold, plus one if registered, and is freed iff that is none; registered devices are online and distinct |
| `Ledger.ApplyKeeps` | src/monitor.c:92-158 | Every single move keeps that: discovery, taking and giving back a reference, adding, removing, opening, failing to open, closing, release |
| `Ledger.NothingDanglesNothingLeaks` | src/monitor.c:92-106 | In every reachable world a device is freed iff no caller, no handle and no registry holds it |
| `Session.Program.CountIsRight` | src/device.c:37-71 | In memory, whenever no operation is under way: the count of a device is the references the program holds, plus its open handles, plus one while registered; it is freed iff that is none; a registered device is never freed and is online |
| `Session.Program.Discover` | src/device.c:37-47 | A new device in memory is the move Discover, and the reference belongs to the caller |
| `Session.Program.Ref` | src/device.c:37-47 | Taking a reference in memory is the move Ref |
| `Session.Program.Unref` | src/device.c:49-71 | Giving one back, which may free the device, is the move Unref |
| `Session.Program.Add` | src/monitor.c:126-142 | Adding to the registry in memory, callbacks included, is the move Enter |
| `Session.Program.Remove` | src/monitor.c:144-158 | Removing a key in memory, every interface of it, is the move Leave |
| `Session.Program.Open` | src/device_win32.c:48-123 | Opening in memory is the move Open; it succeeds iff the device is online and every step does, and otherwise nothing changes |
| `Session.Program.Close` | src/device_win32.c:147-179 | Closing a handle in memory is the move Close, whether or not a pending read keeps the handle |
| `Session.Program.Cleanup` | src/device_win32.c:125-145 | The second phase of a close is no move at all |
| `Session.Program.Release` | src/monitor.c:92-106 | Freeing the monitor in memory is the move Release; the program goes on with the devices it holds |
| `Session.Program.Arrive` | src/monitor_linux.c:376-379 | An arrival in memory is the three moves Discover, Enter, Unref, also when the registry refuses the device |
| `Session.Program.WorldIsRun` | src/device.c:37-71 | After any sequence of these operations, what stands in memory is the outcome of the run of their moves from nothing, so every result about runs holds of it |
| `Handles.OpenDevice` | src/device.c:139-148 | Only online devices open; success takes exactly one reference and failure none, whichever step of the open fails |
| `Handles.CloseHandle` | src/device_win32.c:147-179 | The reference is given back at once, even when a pending read keeps the handle itself for the cleanup thread |
| `Handles.CleanupThread` | src/device_win32.c:125-145 | The second phase frees the handle unless the read is still pending, and touches no device |
| `Handles.OpenThenClose` | src/device_win32.c:48-179 | Opening and closing again, failed opens and two-phase closes included, leaves the reference count as it was |
| `HashTable.HashStr` | src/htable.h:52-61 | The loop computes the recurrence hash * 101 + byte modulo 2^32 over the string |
| `HashTable.HashIsPolynomial` | src/htable.h:52-61 | The hash is the sum of the characters times powers of 101, modulo 2^32 |
| `HashTable.HTable.Clear` | src/htable.c:80-84 | Every bucket becomes the chain of its head alone |
| `HashTable.HTable.GetHead` | src/htable.c:45-48 | The head of bucket key mod size |
| `HashTable.HTable.Add` | src/htable.c:50-58 | The node comes right behind the head of the bucket of its key; all other chains and the order are unchanged |
| `HashTable.HTable.Insert` | src/htable.c:60-66 | The node comes right behind a node of any chain and takes over its key; everything else is unchanged |
| `HashTable.HTable.Remove` | src/htable.c:68-78 | Terminates and unlinks exactly the given node at any position of its chain; all other chains and the order are unchanged |
| `LinkedList.Add` | src/list.h:53-56 | Cons: the element comes first, next and prev stay mutual inverses |
| `LinkedList.AddTail` | src/list.h:58-61 | Snoc |
| `LinkedList.Remove` | src/list.h:63-70 | Deletes the node at any position and clears its pointers |
| `LinkedList.IsEmpty` | src/list.h:72-75 | True iff the sequence is empty |
| `LinkedList.IsSingular` | src/list.h:77-80 | True iff the sequence has one element |
| `LinkedList.SpliceInternal` | src/list.h:87-99 | The elements of one ring are linked between two neighbours and their own ring becomes empty |
| `LinkedList.Splice` | src/list.h:101-104 | Concatenation in front; the other list becomes empty |
| `LinkedList.SpliceTail` | src/list.h:106-109 | Concatenation at the end; the other list becomes empty |
| `LinkedList.ForeachRemoving` | src/list.h:111-114 | A traversal that removes any of the nodes it is at visits every original element once and in order, and leaves exactly those not removed |
| `Lists.Append` | src/list.h:58-61 | On a list whose nodes embed values: the values gain one at the end |
| `Lists.Prepend` | src/list.h:53-56 | The values gain one in front |
| `Lists.RemoveFirst` | src/list.h:63-70 | The first value goes, and its node is the one returned |
| `Lists.MoveAll` | src/list.h:101-104 | The values of one list come in front of those of the other, which is emptied |
| `ReportQueue.RunKeeps` | src/hid_darwin.c:105-160 | Under every interleaving of report thread and reader: queued + free = allocated <= 64; accepted = taken ++ queued; every delivery is its report cut to the caller's size; and there is a byte or an owed write for what is pending, and one more for good once the device is gone |
| `ReportQueue.NoLostWakeUp` | src/hid_darwin.c:157-159 | Whenever a report or an error is pending, or the device is gone, the pipe holds a byte or a write is owed, and a reader in poll() can go on after that write |
| `ReportQueue.RefusedOnlyWhenFull` | src/hid_darwin.c:129-132 | With memory available a report is refused iff 64 are queued |
| `ReportQueue.ErrorsConsumeNothing` | src/hid_darwin.c:428-433 | An error is returned once, before any report, and consumes none |
| `ReportQueue.NothingToRead` | src/hid_darwin.c:435-439 | Reading an empty queue without an error returns 0 and changes nothing |
| `ReportQueue.FirstIsRead` | src/hid_darwin.c:435-447 | Reading otherwise takes the first report, gives what fits into the room of this caller, returns its length and frees the node |
| `ReportQueue.ArrivalIsStored` | src/hid_darwin.c:121-154 | A report is stored iff there is a free node, or fewer than 64 and memory: last in the queue, its id first, then as much of the payload as the handle takes; a lack of memory is recorded as an error |
| `ReportQueue.RunAccepts` | src/hid_darwin.c:121-154 | Over every interleaving the reports accepted are, one for one and in order, the id and payload of the arrivals not refused |
| `ReportQueue.DeliveredIsSent` | src/hid_darwin.c:435-447 | From the start on: the k-th read got the id and the payload of the k-th arrival not refused, cut to the size of the handle and the room of the reader; the others are queued |
| `ReportQueue.RemovalIsSeen` | src/hid_darwin.c:78-96 | From the removal of the device on, whatever happens: the pipe is readable or about to be, and no read starts |
| `ReportQueue.RunSurplus` | src/hid_darwin.c:449-451 | Bytes in the pipe plus owed writes exceed what is pending by exactly the number of the races named in Race, over every run in which no write finds the pipe full |
| `ReportQueue.RunKeepsExact` | src/hid_darwin.c:66-70 | Also when writes are lost to a full pipe: without a race the bytes and owed writes are exactly what is pending, with races they are at least that, and more while the device is there |
| `ReportQueue.ReadableIffPendingOrRaced` | src/hid_darwin.c:121-159 | Under every interleaving, for a pipe with room for two bytes: with no write owed and the device present, it is readable iff something is pending or such a race has happened |
| `ReportQueue.StaleWakeUp` | src/hid_darwin.c:157-159 | A run after which the pipe is readable and nothing is pending: the report was taken before its wake-up was written |
| `HidHandle.Handle.ReportCallback` | src/hid_darwin.c:121-157 | The locked part on the two linked lists: a free node is relinked and filled in place, or a new one made, without disturbing any other, and the state becomes that of the pure step |
| `HidHandle.Handle.ReadReport` | src/hid_darwin.c:426-454 | The locked part of a read: the first node goes back to the free list, the caller's buffer gets the prefix that fits and is otherwise unchanged, and the state becomes that of the pure step |
| `HidHandle.Handle.FireDeviceEvent` | src/hid_darwin.c:66-70 | The write, lost when the pipe is full |
| `HidHandle.Handle.RemovalCallback` | src/hid_darwin.c:78-96 | The device is marked gone and a write is owed |
| `HidHandle.Handle.Close` | src/hid_darwin.c:342-346 | Splices the lists and frees every report allocated, each once: exactly allocated_reports of them, at most 64 |
| `Notifications.RunKeeps` | src/monitor_win32.c:1238-1294 | Every interleaving of posts and refresh steps keeps: handled ++ local ++ shared = posted, and the event is signalled while anything is in either list |
| `Notifications.NothingIsLost` | src/monitor_win32.c:1238-1294 | The same from start-up on, with refreshes that fail part-way: nothing is lost, duplicated or reordered |
| `Notifications.PostedIsPosts` | src/monitor_win32.c:985-990 | What counts as posted is, over any run, every notification posted, in order, and nothing else |
| `Notifications.EventTellsWhatWaits` | src/monitor_win32.c:1284-1293 | After every run, when a refresh ends, the event is set iff notifications are waiting |
| `Notifications.TurnEnds` | src/monitor_win32.c:1259-1280 | A turn handles one notification; an arrival that fails ends the refresh with its error, and nothing else ends it |
| `Notifications.RefreshDoes` | src/monitor_win32.c:1238-1294 | The outcome of any refresh with anything between its steps: after a background error nothing is handled, else all up to and including the first arrival that fails; the rest stays in front of what was posted meanwhile; the old error is gone; the event is set only if something waits |
| `Notifications.WorksThroughTheQueue` | src/monitor_win32.c:1259-1282 | A refresh that meets no failed arrival handles the whole list it took, in order |
| `RegistryWin32.RegistryFollowsPosted` | src/monitor_win32.c:1215-1294 | Under every interleaving and for all outcomes of discovery the registry is a run over the notifications handled, and holds what a plain set would after them; they are a prefix of those posted, in order, and the rest is still in the two lists |
| `RegistryWin32.TurnMeans` | src/monitor_win32.c:1215-1280 | A turn registers what discovery found, or removes every device with the key; an error of discovery or the negative answer of a callback ends the refresh with that error |
| `Notifications.RunMuted` | src/monitor_win32.c:1238-1294 | From any state: a run ends with a background error unannounced iff some step of it mutes one, or one was muted before, and no later post, failure or effective begin unmutes it |
| `Notifications.MutedExactlyThen` | src/monitor_win32.c:1284-1292 | Over every run from start-up: an error is left unannounced iff some refresh ended with both lists empty while the error, recorded after its first locked section, was unread, and since then nothing was posted, no failure recorded and no refresh begun |
| `Notifications.ErrorCanBeMuted` | src/monitor_win32.c:1016-1023 | A run in which that happens |
| `MonitorWin32.HsMonitor.PostEvent` | src/monitor_win32.c:985-990 | On the linked list: appends the notification and signals the event |
| `MonitorWin32.HsMonitor.Fail` | src/monitor_win32.c:1016-1023 | Records the error and signals the event |
| `MonitorWin32.HsMonitor.BeginRefresh` | src/monitor_win32.c:1245-1254 | Splices the whole shared list into the local one and takes the error |
| `MonitorWin32.HsMonitor.TakeTurn` | src/monitor_win32.c:1259-1280 | One turn of the loop removes the first notification and consumes it even when it fails |
| `MonitorWin32.HsMonitor.EndRefresh` | src/monitor_win32.c:1284-1293 | Splices what is left back in front of what arrived since, and resets the event iff the result is empty |
| `MonitorWin32.HsMonitor.Refresh` | src/monitor_win32.c:1238-1294 | On the linked lists, with anything the background thread does between any two steps: returns the recorded error, or that of the first arrival of the batch that fails, or 0; what is handled, what is left in the queue, the error and the event are as stated for Notifications.RefreshDoes; and the whole is a run of the protocol |
| `HidDescriptor.RoundTrip` | src/hid_linux.c:67-111 | Any list of encodable items (HID 1.11, sections 6.2.2.2 and 6.2.2.3) is what its encoding decodes to |
| `HidDescriptor.RoundTripExactlyIf` | src/hid_linux.c:72-84 | An item survives encoding iff it is not the short item whose prefix is the one of long items |
| `HidDescriptor.DecodedStandsThere` | src/hid_linux.c:68-111 | On arbitrary bytes, what is decoded is a prefix of them |
| `HidDescriptor.DecodedIsLongest` | src/hid_linux.c:68-111 | No longer run of whole items is: every list of items the bytes begin with is decoded |
| `HidDescriptor.EncodedMeansTheSame` | src/hid_linux.c:63-138 | Encoded items, with any cut-off item behind them, mean to the parser what the items mean |
| `HidDescriptor.Handle.Record` | src/hid_linux.c:113-136 | The effect of one item: depth modulo 2^32, usage page and usage only at depth 0 |
| `HidDescriptor.Handle.ReadData` | src/hid_linux.c:91-111 | Little-endian value of 0, 1, 2 or 4 bytes |
| `HidDescriptor.FoldRecords` | src/hid_linux.c:113-136 | Of any items from depth 0 on: usage page and usage are the low 16 bits of the little-endian value of the last short item with tag 0x04 or 0x08 before which as many collections were opened as closed, modulo 2^32, or what was there; report ids are noted iff a short item has tag 0x84 |
| `HidDescriptor.KeyboardIsRecorded` | src/hid_linux.c:113-136 | The descriptor 05 01 09 06 leaves usage page 1 and usage 6 |
| `HidDescriptor.Handle.ParseDescriptor` | src/hid_linux.c:63-138 | On arbitrary bytes the loop terminates, reads only inside the descriptor, and leaves usage page, usage and the note of report ids that the longest decodable prefix says |
| `HidDescriptor.InsertedBlockIsHarmless` | src/hid_linux.c:113-136 | Inserting or deleting a balanced collection block behind items without stray ends changes neither usage page nor usage |
| `HidDescriptor.DepthIsCount` | src/hid_linux.c:115-120 | The depth counter is the collections opened minus the collections closed, modulo 2^32 |
| `HidDescriptor.HarmlessExactlyIf` | src/hid_linux.c:115-134 | Behind any items of a descriptor, blocks of a given nesting are harmless iff the collections those items open minus those they close, modulo 2^32, plus that nesting stay below 2^32 |
| `HidDescriptor.StrayEndCollection` | src/hid_linux.c:118-120 | After one End Collection too many no block is harmless: the counter wraps around |
| `AsyncRead.SerialReadTakesPrefix` | src/serial_win32.c:137-179 | A read returns the longest prefix of what is there that fits, leaves exactly the rest, and issues no new request while bytes remain; without data it returns 0 or the error |
| `AsyncRead.StreamRun` | src/serial_win32.c:137-179 | Over any run of reads, completions, timeouts, failures and restarts: returned ++ unread = arrived, and the read pointer stays in the 1024-byte buffer |
| `AsyncRead.NoByteIsLost` | src/serial_win32.c:151-178 | The same from the opened device on |
| `AsyncRead.HidReadTakesOne` | src/hid_win32.c:73-106 | A read with a message there returns its prefix and discards the rest of it |
| `AsyncRead.FailureIsReturned` | src/device_win32.c:207-225 | With nothing to return, serial and HID reads return -4 if the request has failed, breaks during the read or cannot be issued again, and 0 only while it is in flight or if it completed without data |
| `AsyncRead.ReadKnowsFailure` | src/serial_win32.c:137-179 | Behind a read, the handle knows that the request failed iff it did |
| `AsyncRead.RunsNoticeFailures` | src/serial_win32.c:137-179 | So no run of serial or HID reads leaves a failed request unnoticed |
| `AsyncRead.ErrorIsRecovered` | src/serial_win32.c:144-149 | After an error, a read that can issue the request again does, and waits for data or returns them |
| `AsyncRead.NextIsRequested` | src/serial_win32.c:169-176 | A read that takes the last of what is there issues the next request, or knows that it could not |
| `AsyncRead.UnplugIsReported` | src/device_win32.c:207-225 | An opened device that is unplugged: the next read returns -4 |
| `AsyncRead.MailRun` | src/hid_win32.c:73-106 | Over any run the k-th successful read returns the k-th non-empty message, cut to the size asked for |
| `AsyncRead.StalledForGood` | src/hid_win32.c:87-89 | After a completion without data every serial and HID read returns 0 and leaves the handle as it was: no request is in flight and none is issued |
| `AsyncRead.ReadsCanStall` | src/serial_win32.c:154-157 | One step from the opened device leads there: the first request completes without data |
| `AsyncRead.StreamStallsExactlyIf` | src/serial_win32.c:154-157 | A run of serial reads, completions, timeouts and failures ends there iff some step of it completed a request in flight without data |
| `AsyncRead.MailStallsExactlyIf` | src/hid_win32.c:87-89 | So does a run of HID reads |
| `AsyncRead.StalledStreamIsOver` | src/serial_win32.c:154-157 | From there on no run of serial reads returns or receives anything |
| `AsyncRead.StalledMailIsOver` | src/hid_win32.c:87-89 | Nor does any run of HID reads |
| `AsyncRead.Handle.StartAsyncRead` | src/device_win32.c:193-205 | A new request is in flight, or the error is returned |
| `AsyncRead.Handle.FinalizeAsyncRead` | src/device_win32.c:207-225 | 0 while in flight, the number of bytes once complete, the error once failed; asking again gives the same |
| `AsyncRead.Handle.ReadSerial` | src/serial_win32.c:137-179 | On the 1024-byte buffer: does what the pure read says and writes nothing else in the caller's buffer |
| `AsyncRead.Handle.ReadHid` | src/hid_win32.c:73-106 | On the 1024-byte buffer: does what the pure read says and writes nothing else in the caller's buffer |
| `DevicePath.RoundTripExactlyIf` | src/monitor_win32.c:127-151 | The id extracted from the path built for an id is that id iff it is upper-case and has no # |
| `DevicePath.SomeIdsChange` | src/monitor_win32.c:943-969 | One that is not: a#1 comes back as A, separator, 1 |
| `DevicePath.ExtractedFromPath` | src/monitor_win32.c:943-969 | With any of the four prefixes, what is extracted is the id upper-cased with separators restored; the interface class goes |
| `DevicePath.IdReads` | src/monitor_win32.c:943-969 | On any string: one of four prefixes goes, the class behind the last separator goes, # becomes a separator and letters become upper-case |
| `DevicePath.PrefixesAre` | src/monitor_win32.c:947-951 | The prefixes are the four literal ones |
| `DevicePath.UpperIsThat` | src/monitor_win32.c:961-965 | The 26 letters change and no other character |
| `DevicePath.PathReads` | src/monitor_win32.c:127-151 | Where prefix, id, braces and class stand in a path |
| `DevicePath.TextReads` | src/monitor_win32.c:145-147 | Where each field stands in the text of an interface class, and that reading its digits gives it |
| `DevicePath.PathDetermines` | src/monitor_win32.c:127-151 | Equal paths come from equal interface classes and, for ids that survive, from equal ids |
| `DevicePath.GuidTextDetermines` | src/monitor_win32.c:145-147 | The text of an interface class determines all eleven of its fields |
| `DevicePath.HexRoundTrip` | src/monitor_win32.c:145-147 | The digits printed for a number of enough width are those of the number |
| `DevicePath.StrRpbrk` | src/compat.c:27-42 | The last position of a character of the accept set, or none |
| `DevicePath.ExtractDeviceId` | src/monitor_win32.c:943-969 | The in-place code on terminated strings computes that id |
| `DevicePath.BuildDevicePath` | src/monitor_win32.c:127-151 | The code writes that path, and it fits the 4 + strlen(id) + 41 bytes with its terminator |
| `Location.FieldsRoundTrip` | src/monitor_darwin.c:245-251 | Reading the string back at the dashes gives every port |
| `Location.TextIsInjective` | src/monitor_darwin.c:230-259 | Different chains have different strings |
| `Location.LocationDetermines` | src/monitor_darwin.c:297-351 | The string of an accepted walk determines controller and every port of the walk |
| `Location.LocationReads` | src/monitor_darwin.c:230-259 | The string reads usb, then the controller, then the ports from the root on: a port with n ports from it to the root is in field n |
| `Location.LocatedExactlyIf` | src/monitor_darwin.c:305-333 | There is a location iff the walk meets 1 to 15 ports and the controller is known |
| `Location.CollectPorts` | src/monitor_darwin.c:305-319 | The ports in walking order; the walk is given up iff there are 16 or more, before the array would overflow |
| `Location.ReverseInPlace` | src/monitor_darwin.c:335-340 | The in-place swap loop reverses |
| `Location.AppendPort` | src/monitor_darwin.c:246-250 | One field is appended, and the assertion after it cannot fail |
| `Location.BuildLocationString` | src/monitor_darwin.c:230-259 | usb followed by the entries in order, within the 256-byte buffer |
| `Location.ResolveDeviceLocation` | src/monitor_darwin.c:297-351 | Accepts exactly walks with 1 to 15 ports and a known controller, and gives the string from controller to leaf |

## Left out

- Callbacks.CallbackList.Register: `callback_id` is an unbounded integer, so ids stay distinct forever; the C `int` overflows after 2^31 registrations.
- Monitor.DeviceUnref: reference counts are unbounded, and each reference operation is one atomic step; memory ordering is not modelled. Freeing is the ghost field `freed`.
- Monitor.HsMonitor.Add: callbacks do not call back into the monitor. Code that lets them do so is outside the theorems.
- Monitor.HsMonitor.Refresh: the udev event stream is a sequence of events with what discovery makes of each; the out-of-memory exit at `src/monitor_linux.c:391-392` is not part of it.
- HashTable.HashStr: characters count as their code modulo 256; `_hs_htable_hash_ptr` is not modelled, nothing in the core uses it.
- HashTable.HTable.Remove: the node is in a chain; a node that is in none is not a legal argument.
- HidHandle.Handle.ReportCallback: reports that are not input reports, which the callback drops before it takes the lock, are no step of the model.
- HidHandle.Handle.ReadReport: errors and interruptions of `poll()` and the clock are not modelled, nor starting and stopping the run-loop thread.
- Session.Program.Close: opening and closing are those of Windows, whose close has two phases; only one operation is under way at a time.
- ReportQueue.RemovalIsSeen: a read of a removed device is refused before anything else, with an error that is not part of the state (`src/hid_darwin.c:403-404`).
- ReportQueue.RunSurplus: the exact number of surplus bytes is stated only while no write finds the pipe full; a write that does changes that number, and `ReportQueue.RunKeepsExact` says what is left of it.
- MonitorWin32.HsMonitor.Refresh: what an arrival leads to is an input of the code on the lists, while RegistryWin32 computes it, on values, from what discovery finds; the use of the event during start-up (`src/monitor_win32.c:1166-1173`) comes before the model starts.
- HidDescriptor.Handle.ParseDescriptor: the log message for a cut-off short item is not modelled.
- AsyncRead.StreamRun: starts with the request issued at open in flight; a wait without timeout that never ends is not a step of the model. Writes and the cancelling of requests are not modelled.
- DevicePath.ExtractDeviceId: upper-casing is that of the C locale, for ASCII letters.
- Location.ResolveDeviceLocation: the registry look-ups on the way to the root, and the search for the controller, are inputs.
- Allocation failure, except where the protocols show it: the report callback, and opening a handle.
- Device discovery and property look-up (`src/monitor_linux.c`, `src/monitor_darwin.c`, `src/monitor_win32.c`): what they find out depends on udev, IOKit and SetupAPI, whose answers would all be inputs; their results enter as the events of module Monitor.
- The port walk and the USB node search on Windows (`src/monitor_win32.c`): every step follows the answer of a system call; the string they end in has the format of module Location.
- The macOS monitor loop: it calls the same add and remove as Linux, in the order IOKit reports; `hs_enumerate`, which calls back straight from discovery without the registry.
- Serial line settings (`src/serial_posix.c`, `src/serial_win32.c`): tables from settings to system constants, without state of their own.
- Logging, error messages and the error mask (`src/common.c`), descriptor sets and timeouts (`src/platform.c`), version and getters: each is one short function, and no protocol here depends on it.
