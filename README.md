# Mapleseed download queue and gamepad navigation, in Dafny

This project models two parts of Mapleseed, a Wii U title downloader and
library front end.

- **The sequential download queue** (`Network`, in `network.dfy`).
  - The queue is a FIFO of items. Each item has a name and an ordered list of (file path, URL) transfers.
  - `StartQueue` drains the queue one item at a time. For the head item it restarts the transfer timer and downloads every transfer in order. It then records the item in the history, announces it finished and dequeues it.
  - Once the queue is empty, `StartQueue` hands the history over in a single run-finished notification and clears it.
  - `DownloadSingle` opens the destination file and issues an HTTP GET. It forwards the progress reports. When the reply's status is a redirect, it re-runs itself against the redirect target into the same path; then it closes the file.
  - Everything the queue emits or does to the outside world is appended to an event trace (`events`). Each method is proved equal to a specification function of its inputs and old state: `SingleTrace`, `ItemTrace` or `DrainTrace`.
  - The ordering promises are lemmas about those functions, in `queue_lemmas.dfy` (module `QueueLemmas`). They cover FIFO order, finished-before-dequeue, the history flush, fetch order, balanced open/request/close and redirect chasing.
- **Gamepad navigation in the main window** (`Window`, in `window.dfy`).
  - Up/down move the current row of the library or database list. They wrap at the ends and skip hidden rows.
  - Left/right ask for the neighbouring tab.
  - Start and close are guarded by the button state and by whether the emulator process runs.
  - `downloadCemuId` enqueues a title only when no pending item has the same name.

The network and the file system are a parameter, the `Network` datatype:
- the response for each URL (status, redirect target, progress reports);
- the set of paths whose first open succeeds;
- the set of paths whose open succeeds again from inside a redirect, while the outer call still holds the file.

A URL without a response answers with status 0, which is not a redirect.

Two behaviours of the Qt widget library are written out, because the
handlers depend on them:
- Setting a list's current row outside the list leaves it with no current row (-1).
- Setting an invalid tab index is ignored.

The handlers also return the raw row or index they pass to the widget, so the
wrap-around can be stated before that normalisation.

The transfer timer is restarted at every non-empty entry of `StartQueue`,
so once per item rather than once per run
(`src/network/downloadqueue.cpp:28`); `DrainRestartsTimer` proves it.

## Model

| member | source | states |
|---|---|---|
| Network.IsHttpRedirect | src/network/downloadqueue.cpp:102-106 | a status is a redirect exactly when it lies strictly between 300 and 309 and is neither 304 nor 306 |
| Network.DownloadQueue.constructor | src/network/downloadqueue.cpp:5 | a new queue has no pending item, an empty history and has emitted nothing |
| Network.DownloadQueue.Add | src/network/downloadqueue.cpp:46-55 | the item is appended at the tail with no duplicate check; a start is scheduled exactly when the queue was empty, before the enqueue notification; the history is untouched |
| Network.DownloadQueue.Exists | src/network/downloadqueue.cpp:57-68 | the result is true exactly when some pending item has the same name; nothing changes |
| Network.DownloadQueue.Progress | src/network/downloadqueue.cpp:108-111 | a progress report is forwarded unchanged and nothing else changes |
| Network.DownloadQueue.DeliverProgress | src/network/downloadqueue.cpp:85 | every progress report of a reply reaches `Progress`, in order |
| QueueLemmas.ProgressEventsForwarded | src/network/downloadqueue.cpp:108-111 | the progress notifications of a reply are its reports, one for one, each with the same received and total counts, in order |
| Network.DownloadQueue.DownloadSingle | src/network/downloadqueue.cpp:70-100 | the result is true exactly when the open succeeds, whatever the HTTP status; the new trace is the old one followed by `SingleTrace`; queue and history are unchanged |
| Network.DownloadQueue.DownloadTransfers | src/network/downloadqueue.cpp:31-36 | one `DownloadSingle` per transfer, in stored order, results ignored: the trace grows by `ItemTrace` |
| Network.DownloadQueue.StartQueue | src/network/downloadqueue.cpp:19-44 | afterwards queue and history are empty and the trace grows by `DrainTrace` of the old queue and history; on an empty queue the only event is the run-finished notification carrying the old history |
| QueueLemmas.SingleTraceShape | src/network/downloadqueue.cpp:70-100 | a transfer starts with its own open, reporting whether it succeeded, and after a successful open requests its own URL next; it emits only open/request/progress/close events, all on its own path, at its depth or deeper; every later open is a redirect's, one level deeper or more |
| QueueLemmas.SingleTraceBalanced | src/network/downloadqueue.cpp:75-98 | a transfer, redirects included, has as many successful opens as requests as closes |
| QueueLemmas.RequestIffOpened | src/network/downloadqueue.cpp:75-84 | a transfer issues a request if and only if its outermost open succeeds |
| QueueLemmas.RedirectFollowed | src/network/downloadqueue.cpp:88-95 | after a successful open (with redirect hops left) the same path is reopened one level deeper exactly when the status is a redirect; if that reopen succeeds, the next request, right after the progress reports, goes to the redirect target |
| QueueLemmas.SingleTopRequest | src/network/downloadqueue.cpp:75-84 | an outermost transfer requests its own URL exactly once when its file opens, and makes no outermost request when it does not |
| QueueLemmas.SingleTraceEnds | src/network/downloadqueue.cpp:75-98 | an outermost transfer ends with the close of its own file, or with its failed open |
| QueueLemmas.ItemTraceOrder | src/network/downloadqueue.cpp:31-36 | an item's trace holds only transfer events; its outermost opens are the item's paths in stored order, one per transfer; opens, requests and closes balance |
| QueueLemmas.ItemRequestOrder | src/network/downloadqueue.cpp:31-36 | the outermost requests of an item go, in stored order, to the URL paired with each destination that could be opened |
| QueueLemmas.ItemTransfersSequential | src/network/downloadqueue.cpp:31-36 | an item's transfers never overlap: the event just before the n-th outermost open is the close or failed open of transfer n - 1's path, and the item's trace ends by settling its last transfer |
| QueueLemmas.ItemTraceQuiet | src/network/downloadqueue.cpp:31-36 | downloading an item's files emits no finished, dequeue, run-finished or timer event |
| QueueLemmas.NothingOpensNothingRequested | src/network/downloadqueue.cpp:75-78 | when no destination can be opened, an item's transfers issue no request |
| QueueLemmas.DrainFinishesInOrder | src/network/downloadqueue.cpp:29-43 | the finished notifications of a drain name exactly the pending items, in FIFO order |
| QueueLemmas.DrainDequeuesInOrder | src/network/downloadqueue.cpp:29-43 | the dequeue notifications of a drain name exactly the pending items, in FIFO order |
| QueueLemmas.DrainFlushesHistory | src/network/downloadqueue.cpp:21-43 | a drain emits exactly one run-finished notification, carrying the earlier history followed by every drained item in order |
| QueueLemmas.DrainEndsWithFlush | src/network/downloadqueue.cpp:21-26 | the run-finished notification is the last event of a drain |
| QueueLemmas.DrainRestartsTimer | src/network/downloadqueue.cpp:28 | the timer is restarted once per drained item |
| QueueLemmas.DrainFetchOrder | src/network/downloadqueue.cpp:29-36 | the outermost opens of a drain are every item's paths, item after item, each item's in stored order |
| QueueLemmas.DrainRequestOrder | src/network/downloadqueue.cpp:29-36 | the outermost requests of a drain are the URLs of the openable transfers, item after item, each item's in stored order |
| QueueLemmas.DrainTransfersInOwnItem | src/network/downloadqueue.cpp:28-39 | every transfer event of a drain lies between a timer restart and a finished notification with only transfer events between them, and those open exactly the finished item's paths in stored order: no item's downloads overlap another's |
| QueueLemmas.FailuresDoNotStopItems | src/network/downloadqueue.cpp:35-40 | when no file can be opened, no request is issued, yet every item is still finished, dequeued in order and reported in the run's history |
| QueueLemmas.FinishedPrecedesDequeue | src/network/downloadqueue.cpp:38-43 | every dequeue notification comes right after the finished notification of the same item, and is followed by the next item's timer restart or the run-finished notification |
| Window.UpRow | src/mainwindow.cpp:477-490 | the row returned is `UpTarget`: from row 0 the last row, hidden or not; from any other row the nearest row above that is missing or shown, every row in between being hidden (so -1 when all rows above are hidden) |
| Window.DownRow | src/mainwindow.cpp:512-525 | the row returned is `DownTarget`: from the last row, 0; from any other row the nearest row below that is missing or shown, every row in between being hidden (so the row count when all rows below are hidden) |
| Window.UpTargetUnique | src/mainwindow.cpp:477-490 | at most one row satisfies `UpTarget`, so it pins gameUp's row |
| Window.DownTargetUnique | src/mainwindow.cpp:512-525 | at most one row satisfies `DownTarget`, so it pins gameDown's row |
| Window.DownThenUpRestores | src/mainwindow.cpp:477-525 | on a list with no hidden row, down then up comes back to the starting row, across the wrap-around too |
| Window.MainWindow.GameUp | src/mainwindow.cpp:459-492 | a row is asked for exactly when the button is pressed, the emulator is not running and tab 0 or 1 shows; the row asked for is the `UpTarget` of that tab's list from its old current row; only that list's current row changes, to the row asked for when it exists and to no current row otherwise |
| Window.MainWindow.GameDown | src/mainwindow.cpp:494-527 | as `GameUp`, moving down: the row asked for is the `DownTarget` of the list from its old current row |
| Window.MainWindow.GameStart | src/mainwindow.cpp:529-534 | the selected library entry is launched exactly when the button is pressed and the emulator is not running; otherwise nothing happens; the window state stays well formed |
| Window.MainWindow.GameClose | src/mainwindow.cpp:536-542 | the emulator is terminated exactly when the button is pressed and the emulator is running |
| Window.MainWindow.PrevTab | src/mainwindow.cpp:544-551 | when pressed and the emulator is not running, the index one to the left is asked for, unclamped; the tab changes only when that index exists |
| Window.MainWindow.NextTab | src/mainwindow.cpp:553-560 | when pressed and the emulator is not running, the index one to the right is asked for, unclamped; the tab changes only when that index exists |
| Window.DownloadCemuId | src/mainwindow.cpp:58-75 | a failed title lookup adds and emits nothing; a title whose name is already pending is not added again and emits nothing; otherwise it is appended to the queue with exactly the events `add` emits (a scheduled start when the queue was empty, then the enqueue notification); so pending names that were unique stay unique |

## Left out

- DownloadSingle: redirects are followed at most `fuel` hops deep. Past that, the nested call is cut off and only the outer close is recorded. The source follows redirects without a bound and may not terminate.
- DownloadSingle: the bytes written to the file by the `readyRead` slot are not modelled. Neither are the reuse of the item's `file` and `reply` members, nor what Qt does when an open file is reopened. Whether a nested open succeeds is an oracle (`reopenable`).
- Qt's event loop, `QNetworkAccessManager` and `QTimer::singleShot` are asynchronous I/O. The deferred start is recorded as a `StartScheduled` event, and `StartQueue` is a method the environment calls.
- The `downloadTime` stopwatch's value, and so the elapsed time attached to progress reports, comes from a clock. Only its restarts are recorded.
- The `initialize` singleton and the `instance` pointer (`src/network/downloadqueue.cpp:3-17`) are plumbing with no behaviour to verify.
- Items are values: the model compares items by content, not by pointer identity.
- Signal-slot reentrancy is not modelled. An example is a `finished` or dequeue slot that calls `add` while a drain runs.
- The title lookup, the decryption job run after an item finishes, and the table rows `downloadCemuId` connects to it are external code. The lookup is the `info` parameter of `DownloadCemuId`.
- GameStart: the selection is approximated by the list's current row. The method requires one, because the source takes the first selected item without checking that one exists. The double-click handler it calls is recorded as a `Launch` action.
- GameClose: terminating the process is recorded as a `Terminate` action. Whether the process runs (`src/mainwindow.cpp:113-120`) is the `processActive` field.
- All other widget, menu, dialog, settings, process-launch, save import/export and progress-percentage code in `src/mainwindow.cpp` is user-interface code or floating point.
- `Core/logging.cpp` is file I/O and a wrapper over Qt logging.
- `Core/cemu/database.h` and `src/cemu/library.h` are declarations without bodies.
