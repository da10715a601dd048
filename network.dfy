/**
 * The sequential download queue: a FIFO of items, each an ordered list of
 * (file path, URL) transfers, drained one item and one file at a time, with
 * HTTP redirects chased by re-running the transfer against the new URL.
 *
 * Everything the queue observes or emits is recorded in an event trace, so
 * that ordering promises (FIFO, finished-before-dequeued, one run-finished
 * notification per drain) become statements about sequences.
 */
module Network {

  type Url = string
  type Path = string

  /** One (destination file, source URL) pair of an item. */
  datatype Transfer = Transfer(filepath: Path, url: Url)

  /** A queue item: its display/dedup name and its ordered transfers. */
  datatype Item = Item(name: string, urls: seq<Transfer>)

  /**
   * What the server answers for one URL: the HTTP status (0 when the reply
   * carries none), the redirect target, and the (received, total) progress
   * reports delivered before the reply finishes.
   */
  datatype Response = Response(status: int, target: Url, progress: seq<(int, int)>)

  /**
   * The world outside the queue. `openable` are the paths whose first open
   * for writing succeeds; `reopenable` those whose open succeeds again from
   * inside a redirect, while the outer transfer still holds the file.
   */
  datatype Network = Network(responses: map<Url, Response>, openable: set<Path>, reopenable: set<Path>)

  datatype Event =
    | StartScheduled                        // a deferred StartQueue was scheduled
    | Enqueued(item: Item)                  // OnEnqueue
    | TimerStarted                          // downloadTime.start()
    | Opened(path: Path, depth: nat, ok: bool)
    | Requested(url: Url, depth: nat)       // an HTTP GET was issued
    | DownloadProgress(received: int, total: int)
    | Closed(path: Path, depth: nat)
    | ItemFinished(item: Item)              // QueueInfo::finished
    | Dequeued(item: Item)                  // OnDequeue
    | QueueFinished(history: seq<Item>)     // QueueFinished
  {
    /** Events produced by a single-file transfer. */
    predicate IsTransfer() {
      Opened? || Requested? || DownloadProgress? || Closed?
    }
  }

  /** The reply the network gives for `url`; an unknown URL answers without a status. */
  function ResponseOf(net: Network, url: Url): Response {
    if url in net.responses then net.responses[url] else Response(0, "", [])
  }

  /** Whether opening `path` succeeds, at redirect depth `depth`. */
  predicate OpenSucceeds(net: Network, path: Path, depth: nat) {
    if depth == 0 then path in net.openable else path in net.reopenable
  }

  /** The status codes the source treats as redirects. */
  predicate IsHttpRedirect(status: int)
    ensures IsHttpRedirect(status) <==> 300 < status < 309 && status != 304 && status != 306
  {
    status == 301 || status == 302 || status == 303 || status == 305 || status == 307 || status == 308
  }

  /** The notifications forwarded for a reply's progress reports, in order. */
  function ProgressEvents(reports: seq<(int, int)>): seq<Event> {
    if reports == [] then []
    else ProgressEvents(reports[..|reports| - 1])
         + [DownloadProgress(reports[|reports| - 1].0, reports[|reports| - 1].1)]
  }

  /**
   * The trace of one DownloadSingle call: open, and when that fails stop;
   * otherwise request, forward progress, chase a redirect (at most `fuel`
   * more hops) and close.
   */
  function SingleTrace(net: Network, url: Url, path: Path, depth: nat, fuel: nat): seq<Event>
    decreases fuel, 1
  {
    if !OpenSucceeds(net, path, depth) then
      [Opened(path, depth, false)]
    else
      [Opened(path, depth, true), Requested(url, depth)]
      + ProgressEvents(ResponseOf(net, url).progress)
      + RedirectTrace(net, url, path, depth, fuel)
      + [Closed(path, depth)]
  }

  /** The nested call made when the reply for `url` is a redirect. */
  function RedirectTrace(net: Network, url: Url, path: Path, depth: nat, fuel: nat): seq<Event>
    decreases fuel, 0
  {
    var resp := ResponseOf(net, url);
    if IsHttpRedirect(resp.status) && fuel > 0
    then SingleTrace(net, resp.target, path, depth + 1, fuel - 1)
    else []
  }

  /** The trace of downloading every transfer of an item, in stored order. */
  function ItemTrace(net: Network, ts: seq<Transfer>, fuel: nat): seq<Event> {
    if ts == [] then []
    else ItemTrace(net, ts[..|ts| - 1], fuel)
         + SingleTrace(net, ts[|ts| - 1].url, ts[|ts| - 1].filepath, 0, fuel)
  }

  /** The trace of StartQueue draining `q` with `h` already in the history. */
  function DrainTrace(net: Network, q: seq<Item>, h: seq<Item>, fuel: nat): seq<Event>
    decreases |q|
  {
    if q == [] then [QueueFinished(h)]
    else [TimerStarted] + ItemTrace(net, q[0].urls, fuel)
         + [ItemFinished(q[0]), Dequeued(q[0])]
         + DrainTrace(net, q[1..], h + [q[0]], fuel)
  }

  /** Some pending item is called `name`. */
  predicate NamePending(q: seq<Item>, name: string) {
    exists i :: 0 <= i < |q| && q[i].name == name
  }

  /** No two pending items share a name. */
  predicate UniqueNames(q: seq<Item>) {
    forall i, j :: 0 <= i < j < |q| ==> q[i].name != q[j].name
  }

  class DownloadQueue {
    var queue: seq<Item>
    var history: seq<Item>
    var events: seq<Event>

    constructor ()
      ensures queue == [] && history == [] && events == []
    {
      queue, history, events := [], [], [];
    }

    /**
     * Appends `info` without any duplicate check; schedules a run only when
     * the queue was empty, then announces the item.
     */
    method Add(info: Item)
      modifies this
      ensures queue == old(queue) + [info]
      ensures history == old(history)
      ensures events == old(events) + (if old(queue) == [] then [StartScheduled] else []) + [Enqueued(info)]
    {
      if queue == [] {
        events := events + [StartScheduled];
      }
      queue := queue + [info];
      events := events + [Enqueued(info)];
    }

    /** Whether an item named like `info` is pending; changes nothing. */
    method Exists(info: Item) returns (result: bool)
      ensures result <==> exists i :: 0 <= i < |queue| && queue[i].name == info.name
    {
      result := false;
      for i := 0 to |queue|
        invariant !result
        invariant forall k :: 0 <= k < i ==> queue[k].name != info.name
      {
        if queue[i].name == info.name {
          result := true;
          break;
        }
      }
    }

    /** Forwards a progress report unchanged. */
    method Progress(received: int, total: int)
      modifies this
      ensures queue == old(queue) && history == old(history)
      ensures events == old(events) + [DownloadProgress(received, total)]
    {
      events := events + [DownloadProgress(received, total)];
    }

    /** The event loop delivering a reply's downloadProgress signals to Progress. */
    method DeliverProgress(reports: seq<(int, int)>)
      modifies this
      ensures queue == old(queue) && history == old(history)
      ensures events == old(events) + ProgressEvents(reports)
    {
      for k := 0 to |reports|
        invariant queue == old(queue) && history == old(history)
        invariant events == old(events) + ProgressEvents(reports[..k])
      {
        Progress(reports[k].0, reports[k].1);
        assert reports[..k + 1][..k] == reports[..k];
      }
      assert reports[..|reports|] == reports;
    }

    /**
     * Downloads `url` into `filepath`. Fails only when the file cannot be
     * opened; any HTTP status, redirect or not, counts as success.
     */
    method DownloadSingle(net: Network, url: Url, filepath: Path, depth: nat, fuel: nat) returns (ok: bool)
      modifies this
      decreases fuel
      ensures ok == OpenSucceeds(net, filepath, depth)
      ensures queue == old(queue) && history == old(history)
      ensures events == old(events) + SingleTrace(net, url, filepath, depth, fuel)
    {
      if !OpenSucceeds(net, filepath, depth) {
        events := events + [Opened(filepath, depth, false)];
        return false;
      }
      var reply := ResponseOf(net, url);
      events := events + [Opened(filepath, depth, true), Requested(url, depth)];
      DeliverProgress(reply.progress);
      ghost var progressed := events;
      if IsHttpRedirect(reply.status) && fuel > 0 {
        var _ := DownloadSingle(net, reply.target, filepath, depth + 1, fuel - 1);
      }
      assert events == progressed + RedirectTrace(net, url, filepath, depth, fuel);
      events := events + [Closed(filepath, depth)];
      ok := true;
    }

    /**
     * The loop of StartQueue over the head item's transfers: one
     * DownloadSingle call per pair, in stored order, results ignored.
     */
    method DownloadTransfers(net: Network, qinfo: Item, fuel: nat)
      modifies this
      ensures queue == old(queue) && history == old(history)
      ensures events == old(events) + ItemTrace(net, qinfo.urls, fuel)
    {
      for i := 0 to |qinfo.urls|
        invariant queue == old(queue) && history == old(history)
        invariant events == old(events) + ItemTrace(net, qinfo.urls[..i], fuel)
      {
        var pair := qinfo.urls[i];
        var _ := DownloadSingle(net, pair.url, pair.filepath, 0, fuel);
        assert qinfo.urls[..i + 1][..i] == qinfo.urls[..i];
      }
      assert qinfo.urls[..|qinfo.urls|] == qinfo.urls;
    }

    /**
     * Drains the queue: for the head item, restart the timer, download every
     * transfer in order ignoring failures, record it in the history, announce
     * it finished, dequeue it; once empty, hand the history over and clear it.
     */
    method StartQueue(net: Network, fuel: nat)
      modifies this
      ensures queue == [] && history == []
      ensures events == old(events) + DrainTrace(net, old(queue), old(history), fuel)
      ensures old(queue) == [] ==> events == old(events) + [QueueFinished(old(history))]
    {
      assert queue == [] ==> DrainTrace(net, queue, history, fuel) == [QueueFinished(history)];
      while queue != []
        invariant old(events) + DrainTrace(net, old(queue), old(history), fuel)
                  == events + DrainTrace(net, queue, history, fuel)
        decreases |queue|
      {
        ghost var before, pending, done := events, queue, history;
        var qinfo := queue[0];
        events := events + [TimerStarted];
        DownloadTransfers(net, qinfo, fuel);
        history := history + [qinfo];
        events := events + [ItemFinished(qinfo)];
        var removed := queue[0];
        queue := queue[1..];
        events := events + [Dequeued(removed)];
        ghost var step := [TimerStarted] + ItemTrace(net, qinfo.urls, fuel) + [ItemFinished(qinfo), Dequeued(qinfo)];
        assert events == before + step;
        assert DrainTrace(net, pending, done, fuel) == step + DrainTrace(net, queue, history, fuel);
      }
      events := events + [QueueFinished(history)];
      history := [];
    }
  }
}
