/**
 * Properties of the download queue's traces: what one transfer emits, the
 * order in which an item's files are fetched, and the shape of a full drain.
 */
module QueueLemmas {
  import opened Network

  /** The parts of a trace that `f` picks out, in order. */
  function Select<T>(t: seq<Event>, f: Event -> seq<T>): seq<T> {
    if t == [] then [] else f(t[0]) + Select(t[1..], f)
  }

  function DequeuedOf(e: Event): seq<Item> { if e.Dequeued? then [e.item] else [] }
  function FinishedOf(e: Event): seq<Item> { if e.ItemFinished? then [e.item] else [] }
  function RunFinishedOf(e: Event): seq<seq<Item>> { if e.QueueFinished? then [e.history] else [] }
  function TimerOf(e: Event): seq<Event> { if e.TimerStarted? then [e] else [] }
  /** Paths opened by an outermost DownloadSingle call, one per transfer. */
  function TopOpenOf(e: Event): seq<Path> { if e.Opened? && e.depth == 0 then [e.path] else [] }
  function OpenedOkOf(e: Event): seq<Path> { if e.Opened? && e.ok then [e.path] else [] }
  function RequestOf(e: Event): seq<Url> { if e.Requested? then [e.url] else [] }
  function ClosedOf(e: Event): seq<Path> { if e.Closed? then [e.path] else [] }

  /** The destination paths of `ts`, in stored order. */
  function Paths(ts: seq<Transfer>): (r: seq<Path>)
    ensures |r| == |ts|
  {
    if ts == [] then [] else Paths(ts[..|ts| - 1]) + [ts[|ts| - 1].filepath]
  }

  /** The destination paths of every item of `q`, item after item. */
  function AllPaths(q: seq<Item>): seq<Path> {
    if q == [] then [] else Paths(q[0].urls) + AllPaths(q[1..])
  }

  function Last(t: seq<Event>): Event
    requires t != []
  {
    t[|t| - 1]
  }

  /**
   * Every dequeue comes right after the finished notification of the same
   * item and right before the next item's start or the end of the run.
   */
  predicate DequeuesWellPlaced(t: seq<Event>) {
    forall i :: 0 <= i < |t| && t[i].Dequeued? ==>
      && 0 < i && t[i - 1] == ItemFinished(t[i].item)
      && i + 1 < |t| && (t[i + 1].TimerStarted? || t[i + 1].QueueFinished?)
  }

  predicate AllTransfer(t: seq<Event>) {
    forall i :: 0 <= i < |t| ==> t[i].IsTransfer()
  }

  /** Every file event of `t` concerns `path`. */
  predicate OnPath(t: seq<Event>, path: Path) {
    forall i :: 0 <= i < |t| && (t[i].Opened? || t[i].Closed?) ==> t[i].path == path
  }

  /** Every open, request and close of `t` happens at redirect depth `d` or deeper. */
  predicate AtDepth(t: seq<Event>, d: nat) {
    forall i :: 0 <= i < |t| && (t[i].Opened? || t[i].Requested? || t[i].Closed?) ==> t[i].depth >= d
  }

  lemma {:induction false} SelectAppend<T>(a: seq<Event>, b: seq<Event>, f: Event -> seq<T>)
    ensures Select(a + b, f) == Select(a, f) + Select(b, f)
    decreases |a|
  {
    if a == [] {
      assert a + b == b;
    } else {
      assert (a + b)[1..] == a[1..] + b;
      SelectAppend(a[1..], b, f);
    }
  }

  lemma SelectAppend4<T>(a: seq<Event>, b: seq<Event>, c: seq<Event>, d: seq<Event>, f: Event -> seq<T>)
    ensures Select(a + b + c + d, f) == Select(a, f) + Select(b, f) + Select(c, f) + Select(d, f)
  {
    SelectAppend(a, b, f);
    SelectAppend(a + b, c, f);
    SelectAppend(a + b + c, d, f);
  }

  lemma SelectPair<T>(a: Event, b: Event, f: Event -> seq<T>)
    ensures Select([a], f) == f(a) && Select([a, b], f) == f(a) + f(b)
  {
    assert [a][1..] == [];
    assert [a, b][1..] == [b];
    assert Select([b], f) == f(b) by { assert [b][1..] == []; }
  }

  lemma {:induction false} SelectNone<T>(t: seq<Event>, f: Event -> seq<T>)
    requires forall i :: 0 <= i < |t| ==> f(t[i]) == []
    ensures Select(t, f) == []
    decreases |t|
  {
    if t != [] {
      SelectNone(t[1..], f);
    }
  }

  /** The progress notifications are the reports themselves, unchanged and in order. */
  lemma ProgressEventsForwarded(ps: seq<(int, int)>)
    ensures |ProgressEvents(ps)| == |ps|
    ensures forall i :: 0 <= i < |ps| ==> ProgressEvents(ps)[i] == DownloadProgress(ps[i].0, ps[i].1)
  {
    if ps != [] {
      var init := ps[..|ps| - 1];
      ProgressEventsForwarded(init);
      assert forall i :: 0 <= i < |init| ==> init[i] == ps[i];
    }
  }

  /** Forwarding progress emits progress notifications only. */
  lemma ProgressOnly(ps: seq<(int, int)>)
    ensures |ProgressEvents(ps)| == |ps|
    ensures forall i :: 0 <= i < |ProgressEvents(ps)| ==> ProgressEvents(ps)[i].DownloadProgress?
  {
    ProgressEventsForwarded(ps);
  }

  /**
   * The shape of the events one successful open wraps around its progress
   * `p` and a nested call `n` that stays on the same path one level deeper.
   */
  lemma WrapShape(path: Path, url: Url, depth: nat, p: seq<Event>, n: seq<Event>)
    requires forall i :: 0 <= i < |p| ==> p[i].DownloadProgress?
    requires AllTransfer(n) && OnPath(n, path) && AtDepth(n, depth + 1)
    ensures var t := [Opened(path, depth, true), Requested(url, depth)] + p + n + [Closed(path, depth)];
      && AllTransfer(t) && OnPath(t, path) && AtDepth(t, depth)
      && (forall i :: 1 <= i < |t| && t[i].Opened? ==> t[i].depth > depth)
  {
    var t := [Opened(path, depth, true), Requested(url, depth)] + p + n + [Closed(path, depth)];
    assert forall i :: 2 <= i < 2 + |p| ==> t[i] == p[i - 2];
    assert forall i :: 2 + |p| <= i < 2 + |p| + |n| ==> t[i] == n[i - 2 - |p|];
  }

  /**
   * One DownloadSingle call emits only transfer events, all about its own
   * path and at its own depth or deeper; it starts with its own open, and any
   * later open belongs to a redirect.
   */
  lemma {:induction false} SingleTraceShape(net: Network, url: Url, path: Path, depth: nat, fuel: nat)
    ensures var t := SingleTrace(net, url, path, depth, fuel);
      && |t| > 0
      && t[0] == Opened(path, depth, OpenSucceeds(net, path, depth))
      && (OpenSucceeds(net, path, depth) ==> |t| > 1 && t[1] == Requested(url, depth))
      && AllTransfer(t) && OnPath(t, path) && AtDepth(t, depth)
      && (forall i :: 1 <= i < |t| && t[i].Opened? ==> t[i].depth > depth)
    decreases fuel
  {
    if OpenSucceeds(net, path, depth) {
      var resp := ResponseOf(net, url);
      ProgressOnly(resp.progress);
      if IsHttpRedirect(resp.status) && fuel > 0 {
        SingleTraceShape(net, resp.target, path, depth + 1, fuel - 1);
      }
      WrapShape(path, url, depth, ProgressEvents(resp.progress), RedirectTrace(net, url, path, depth, fuel));
    }
  }

  /** Counts of the events one successful open wraps around its progress `p` and nested call `n`. */
  lemma WrapCounts(path: Path, url: Url, depth: nat, p: seq<Event>, n: seq<Event>)
    requires forall i :: 0 <= i < |p| ==> p[i].DownloadProgress?
    ensures |Select([Opened(path, depth, true), Requested(url, depth)] + p + n + [Closed(path, depth)], OpenedOkOf)| == 1 + |Select(n, OpenedOkOf)|
    ensures |Select([Opened(path, depth, true), Requested(url, depth)] + p + n + [Closed(path, depth)], RequestOf)| == 1 + |Select(n, RequestOf)|
    ensures |Select([Opened(path, depth, true), Requested(url, depth)] + p + n + [Closed(path, depth)], ClosedOf)| == 1 + |Select(n, ClosedOf)|
  {
    var head := [Opened(path, depth, true), Requested(url, depth)];
    var c := [Closed(path, depth)];
    assert |Select(head + p + n + c, OpenedOkOf)| == 1 + |Select(n, OpenedOkOf)| by {
      SelectNone(p, OpenedOkOf);
      SelectAppend4(head, p, n, c, OpenedOkOf);
      SelectPair(head[0], head[1], OpenedOkOf);
      SelectPair(c[0], c[0], OpenedOkOf);
    }
    assert |Select(head + p + n + c, RequestOf)| == 1 + |Select(n, RequestOf)| by {
      SelectNone(p, RequestOf);
      SelectAppend4(head, p, n, c, RequestOf);
      SelectPair(head[0], head[1], RequestOf);
      SelectPair(c[0], c[0], RequestOf);
    }
    assert |Select(head + p + n + c, ClosedOf)| == 1 + |Select(n, ClosedOf)| by {
      SelectNone(p, ClosedOf);
      SelectAppend4(head, p, n, c, ClosedOf);
      SelectPair(head[0], head[1], ClosedOf);
      SelectPair(c[0], c[0], ClosedOf);
    }
  }

  /**
   * Balance of one transfer: as many successful opens as requests as closes,
   * and a request is issued exactly when the outermost open succeeds.
   */
  lemma {:induction false} SingleTraceBalanced(net: Network, url: Url, path: Path, depth: nat, fuel: nat)
    ensures var t := SingleTrace(net, url, path, depth, fuel);
      |Select(t, OpenedOkOf)| == |Select(t, RequestOf)| == |Select(t, ClosedOf)|
    decreases fuel
  {
    if OpenSucceeds(net, path, depth) {
      var resp := ResponseOf(net, url);
      if IsHttpRedirect(resp.status) && fuel > 0 {
        SingleTraceBalanced(net, resp.target, path, depth + 1, fuel - 1);
      }
      ProgressOnly(resp.progress);
      WrapCounts(path, url, depth, ProgressEvents(resp.progress), RedirectTrace(net, url, path, depth, fuel));
    }
  }

  /** A transfer issues a request exactly when its outermost open succeeds. */
  lemma RequestIffOpened(net: Network, url: Url, path: Path, depth: nat, fuel: nat)
    ensures var t := SingleTrace(net, url, path, depth, fuel);
      Select(t, RequestOf) != [] <==> OpenSucceeds(net, path, depth)
  {
    var t := SingleTrace(net, url, path, depth, fuel);
    if OpenSucceeds(net, path, depth) {
      assert t[1] == Requested(url, depth);
      assert Select(t, RequestOf) == Select(t[1..], RequestOf);
      assert Select(t[1..], RequestOf) == [url] + Select(t[2..], RequestOf) by {
        assert t[1..][1..] == t[2..];
      }
    } else {
      assert t == [Opened(path, depth, false)];
    }
  }

  /**
   * Redirects: right after forwarding progress, the transfer re-runs itself
   * against the redirect target into the same path exactly when the status is
   * one of the redirect codes.
   */
  lemma {:induction false} RedirectFollowed(net: Network, url: Url, path: Path, depth: nat, fuel: nat)
    requires OpenSucceeds(net, path, depth) && fuel > 0
    ensures var t := SingleTrace(net, url, path, depth, fuel);
      var resp := ResponseOf(net, url);
      && (IsHttpRedirect(resp.status) <==> Opened(path, depth + 1, OpenSucceeds(net, path, depth + 1)) in t)
      && (IsHttpRedirect(resp.status) && OpenSucceeds(net, path, depth + 1) ==>
            3 + |resp.progress| < |t| && t[3 + |resp.progress|] == Requested(resp.target, depth + 1))
  {
    var t := SingleTrace(net, url, path, depth, fuel);
    var resp := ResponseOf(net, url);
    var p := ProgressEvents(resp.progress);
    var n := RedirectTrace(net, url, path, depth, fuel);
    assert t == [Opened(path, depth, true), Requested(url, depth)] + p + n + [Closed(path, depth)];
    ProgressOnly(resp.progress);
    if IsHttpRedirect(resp.status) {
      SingleTraceShape(net, resp.target, path, depth + 1, fuel - 1);
      assert t[2 + |p|] == n[0];
      assert t[2 + |p|] == Opened(path, depth + 1, OpenSucceeds(net, path, depth + 1));
      if OpenSucceeds(net, path, depth + 1) {
        assert n == [Opened(path, depth + 1, true), Requested(resp.target, depth + 1)]
          + ProgressEvents(ResponseOf(net, resp.target).progress)
          + RedirectTrace(net, resp.target, path, depth + 1, fuel - 1)
          + [Closed(path, depth + 1)];
        assert n[1] == Requested(resp.target, depth + 1);
        assert t[3 + |p|] == n[1];
        assert |p| == |resp.progress|;
        assert 3 + |resp.progress| < |t|;
        assert t[3 + |resp.progress|] == Requested(resp.target, depth + 1);
      }
      assert 2 + |p| < |t|;
    } else {
      assert n == [];
      forall i | 0 <= i < |t|
        ensures t[i] != Opened(path, depth + 1, OpenSucceeds(net, path, depth + 1))
      {
        if 2 <= i < 2 + |p| {
          assert t[i] == p[i - 2];
        }
      }
    }
  }

  /** Appending one transfer's events `b`, which open `path` at the top level first. */
  lemma TransferAppended(a: seq<Event>, b: seq<Event>, path: Path)
    requires AllTransfer(a) && AllTransfer(b)
    requires b != [] && b[0].Opened? && b[0].depth == 0 && b[0].path == path
    requires forall i :: 1 <= i < |b| && b[i].Opened? ==> b[i].depth > 0
    ensures AllTransfer(a + b)
    ensures Select(a + b, TopOpenOf) == Select(a, TopOpenOf) + [path]
    ensures |Select(a + b, OpenedOkOf)| == |Select(a, OpenedOkOf)| + |Select(b, OpenedOkOf)|
    ensures |Select(a + b, RequestOf)| == |Select(a, RequestOf)| + |Select(b, RequestOf)|
    ensures |Select(a + b, ClosedOf)| == |Select(a, ClosedOf)| + |Select(b, ClosedOf)|
  {
    SelectAppend(a, b, TopOpenOf);
    SelectAppend(a, b, OpenedOkOf);
    SelectAppend(a, b, RequestOf);
    SelectAppend(a, b, ClosedOf);
    assert b == [b[0]] + b[1..];
    SelectAppend([b[0]], b[1..], TopOpenOf);
    SelectNone(b[1..], TopOpenOf);
    assert forall i :: 0 <= i < |a + b| ==> (a + b)[i] == if i < |a| then a[i] else b[i - |a|];
  }

  /**
   * An item's files are fetched one DownloadSingle call per transfer, in
   * stored order, and the item's trace holds nothing but transfer events.
   */
  lemma {:induction false} ItemTraceOrder(net: Network, ts: seq<Transfer>, fuel: nat)
    ensures var t := ItemTrace(net, ts, fuel);
      && AllTransfer(t)
      && Select(t, TopOpenOf) == Paths(ts)
      && |Select(t, OpenedOkOf)| == |Select(t, RequestOf)| == |Select(t, ClosedOf)|
    decreases |ts|
  {
    if ts == [] {
      assert ItemTrace(net, ts, fuel) == [];
    } else {
      var init := ts[..|ts| - 1];
      var last := ts[|ts| - 1];
      ItemTraceOrder(net, init, fuel);
      SingleTraceShape(net, last.url, last.filepath, 0, fuel);
      SingleTraceBalanced(net, last.url, last.filepath, 0, fuel);
      TransferAppended(ItemTrace(net, init, fuel), SingleTrace(net, last.url, last.filepath, 0, fuel), last.filepath);
    }
  }

  /** With no openable destination, an item's transfers issue no request at all. */
  lemma {:induction false} NothingOpensNothingRequested(net: Network, ts: seq<Transfer>, fuel: nat)
    requires net.openable == {}
    ensures Select(ItemTrace(net, ts, fuel), RequestOf) == []
    decreases |ts|
  {
    if ts != [] {
      var last := ts[|ts| - 1];
      NothingOpensNothingRequested(net, ts[..|ts| - 1], fuel);
      RequestIffOpened(net, last.url, last.filepath, 0, fuel);
      SelectAppend(ItemTrace(net, ts[..|ts| - 1], fuel), SingleTrace(net, last.url, last.filepath, 0, fuel), RequestOf);
    }
  }

  /** An item's trace holds no queue notification of any kind. */
  lemma ItemTraceQuiet(net: Network, ts: seq<Transfer>, fuel: nat)
    ensures Select(ItemTrace(net, ts, fuel), FinishedOf) == []
    ensures Select(ItemTrace(net, ts, fuel), DequeuedOf) == []
    ensures Select(ItemTrace(net, ts, fuel), RunFinishedOf) == []
    ensures Select(ItemTrace(net, ts, fuel), TimerOf) == []
  {
    var t := ItemTrace(net, ts, fuel);
    ItemTraceOrder(net, ts, fuel);
    assert AllTransfer(t);
    SelectNone(t, FinishedOf);
    SelectNone(t, DequeuedOf);
    SelectNone(t, RunFinishedOf);
    SelectNone(t, TimerOf);
  }

  /** How a selection of a non-empty drain splits into the head item's part and the rest. */
  lemma DrainSelect<T>(net: Network, q: seq<Item>, h: seq<Item>, fuel: nat, f: Event -> seq<T>)
    requires q != []
    ensures Select(DrainTrace(net, q, h, fuel), f)
         == f(TimerStarted) + Select(ItemTrace(net, q[0].urls, fuel), f)
            + (f(ItemFinished(q[0])) + f(Dequeued(q[0])))
            + Select(DrainTrace(net, q[1..], h + [q[0]], fuel), f)
  {
    var a := [TimerStarted];
    var b := [ItemFinished(q[0]), Dequeued(q[0])];
    assert DrainTrace(net, q, h, fuel) == a + ItemTrace(net, q[0].urls, fuel) + b + DrainTrace(net, q[1..], h + [q[0]], fuel);
    SelectAppend4(a, ItemTrace(net, q[0].urls, fuel), b, DrainTrace(net, q[1..], h + [q[0]], fuel), f);
    SelectPair(a[0], a[0], f);
    SelectPair(b[0], b[1], f);
  }

  /** A drain announces exactly the pending items finished, in FIFO order. */
  lemma {:induction false} DrainFinishesInOrder(net: Network, q: seq<Item>, h: seq<Item>, fuel: nat)
    ensures Select(DrainTrace(net, q, h, fuel), FinishedOf) == q
    decreases |q|
  {
    if q == [] {
      assert DrainTrace(net, q, h, fuel) == [QueueFinished(h)];
    } else {
      DrainFinishesInOrder(net, q[1..], h + [q[0]], fuel);
      ItemTraceQuiet(net, q[0].urls, fuel);
      DrainSelect(net, q, h, fuel, FinishedOf);
      assert q == [q[0]] + q[1..];
    }
  }

  /** A drain dequeues exactly the pending items, in FIFO order. */
  lemma {:induction false} DrainDequeuesInOrder(net: Network, q: seq<Item>, h: seq<Item>, fuel: nat)
    ensures Select(DrainTrace(net, q, h, fuel), DequeuedOf) == q
    decreases |q|
  {
    if q == [] {
      assert DrainTrace(net, q, h, fuel) == [QueueFinished(h)];
    } else {
      DrainDequeuesInOrder(net, q[1..], h + [q[0]], fuel);
      ItemTraceQuiet(net, q[0].urls, fuel);
      DrainSelect(net, q, h, fuel, DequeuedOf);
      assert q == [q[0]] + q[1..];
    }
  }

  /**
   * A drain emits exactly one run-finished notification, which carries the
   * earlier history followed by every drained item.
   */
  lemma {:induction false} DrainFlushesHistory(net: Network, q: seq<Item>, h: seq<Item>, fuel: nat)
    ensures Select(DrainTrace(net, q, h, fuel), RunFinishedOf) == [h + q]
    decreases |q|
  {
    if q == [] {
      assert h + q == h;
      assert DrainTrace(net, q, h, fuel) == [QueueFinished(h)];
    } else {
      DrainFlushesHistory(net, q[1..], h + [q[0]], fuel);
      ItemTraceQuiet(net, q[0].urls, fuel);
      DrainSelect(net, q, h, fuel, RunFinishedOf);
      assert (h + [q[0]]) + q[1..] == h + q;
    }
  }

  /** The run-finished notification is the very last event of a drain. */
  lemma {:induction false} DrainEndsWithFlush(net: Network, q: seq<Item>, h: seq<Item>, fuel: nat)
    ensures Last(DrainTrace(net, q, h, fuel)) == QueueFinished(h + q)
    decreases |q|
  {
    var t := DrainTrace(net, q, h, fuel);
    if q == [] {
      assert h + q == h;
      assert t == [QueueFinished(h)];
    } else {
      var r := DrainTrace(net, q[1..], h + [q[0]], fuel);
      DrainEndsWithFlush(net, q[1..], h + [q[0]], fuel);
      assert (h + [q[0]]) + q[1..] == h + q;
      assert t == [TimerStarted] + ItemTrace(net, q[0].urls, fuel) + [ItemFinished(q[0]), Dequeued(q[0])] + r;
      assert Last(t) == Last(r);
    }
  }

  /** A drain restarts the timer once per item, not once per run. */
  lemma {:induction false} DrainRestartsTimer(net: Network, q: seq<Item>, h: seq<Item>, fuel: nat)
    ensures |Select(DrainTrace(net, q, h, fuel), TimerOf)| == |q|
    decreases |q|
  {
    if q == [] {
      assert DrainTrace(net, q, h, fuel) == [QueueFinished(h)];
    } else {
      DrainRestartsTimer(net, q[1..], h + [q[0]], fuel);
      ItemTraceQuiet(net, q[0].urls, fuel);
      DrainSelect(net, q, h, fuel, TimerOf);
    }
  }

  /**
   * A drain opens every transfer's destination item after item, each item's
   * in stored order: one outermost DownloadSingle call per transfer.
   */
  lemma {:induction false} DrainFetchOrder(net: Network, q: seq<Item>, h: seq<Item>, fuel: nat)
    ensures Select(DrainTrace(net, q, h, fuel), TopOpenOf) == AllPaths(q)
    decreases |q|
  {
    if q == [] {
      assert DrainTrace(net, q, h, fuel) == [QueueFinished(h)];
    } else {
      DrainFetchOrder(net, q[1..], h + [q[0]], fuel);
      assert Select(ItemTrace(net, q[0].urls, fuel), TopOpenOf) == Paths(q[0].urls) by {
        ItemTraceOrder(net, q[0].urls, fuel);
      }
      DrainSelect(net, q, h, fuel, TopOpenOf);
    }
  }

  /**
   * The quirk that failures do not stop an item: when no destination can be
   * opened, no request is ever issued, yet every item is still finished and
   * dequeued in order and handed over in the run's history.
   */
  lemma {:induction false} FailuresDoNotStopItems(net: Network, q: seq<Item>, h: seq<Item>, fuel: nat)
    requires net.openable == {}
    ensures var t := DrainTrace(net, q, h, fuel);
      && Select(t, RequestOf) == []
      && Select(t, FinishedOf) == q && Select(t, DequeuedOf) == q
      && Select(t, RunFinishedOf) == [h + q]
    decreases |q|
  {
    DrainFinishesInOrder(net, q, h, fuel);
    DrainDequeuesInOrder(net, q, h, fuel);
    DrainFlushesHistory(net, q, h, fuel);
    if q != [] {
      FailuresDoNotStopItems(net, q[1..], h + [q[0]], fuel);
      NothingOpensNothingRequested(net, q[0].urls, fuel);
      DrainSelect(net, q, h, fuel, RequestOf);
    } else {
      assert DrainTrace(net, q, h, fuel) == [QueueFinished(h)];
      SelectPair(QueueFinished(h), QueueFinished(h), RequestOf);
    }
  }

  /** Prefixing the events of one finished item keeps dequeues well placed. */
  lemma DequeuesPrefixed(it: seq<Event>, x: Item, r: seq<Event>)
    requires AllTransfer(it) && DequeuesWellPlaced(r)
    requires r != [] && (r[0].TimerStarted? || r[0].QueueFinished?)
    ensures DequeuesWellPlaced([TimerStarted] + it + [ItemFinished(x), Dequeued(x)] + r)
  {
    var pre := [TimerStarted] + it + [ItemFinished(x), Dequeued(x)];
    var t := pre + r;
    assert forall k :: 1 <= k < 1 + |it| ==> t[k] == it[k - 1];
    forall i | 0 <= i < |t| && t[i].Dequeued?
      ensures 0 < i && t[i - 1] == ItemFinished(t[i].item)
      ensures i + 1 < |t| && (t[i + 1].TimerStarted? || t[i + 1].QueueFinished?)
    {
      if i < |pre| {
        assert i == |pre| - 1;
        assert t[i + 1] == r[0];
      } else {
        var j := i - |pre|;
        assert t[i] == r[j];
        assert t[i - 1] == r[j - 1];
        assert j + 1 < |r| && t[i + 1] == r[j + 1];
      }
    }
  }

  /**
   * Every dequeue notification comes right after the finished notification
   * of the same item, and is itself followed by the next item's start or by
   * the end of the run: items never overlap.
   */
  lemma {:induction false} FinishedPrecedesDequeue(net: Network, q: seq<Item>, h: seq<Item>, fuel: nat)
    ensures DequeuesWellPlaced(DrainTrace(net, q, h, fuel))
    decreases |q|
  {
    if q == [] {
      assert DrainTrace(net, q, h, fuel) == [QueueFinished(h)];
    } else {
      var r := DrainTrace(net, q[1..], h + [q[0]], fuel);
      assert AllTransfer(ItemTrace(net, q[0].urls, fuel)) by {
        ItemTraceOrder(net, q[0].urls, fuel);
      }
      FinishedPrecedesDequeue(net, q[1..], h + [q[0]], fuel);
      assert r[0].TimerStarted? || r[0].QueueFinished?;
      DequeuesPrefixed(ItemTrace(net, q[0].urls, fuel), q[0], r);
    }
  }

  /** URLs requested by an outermost DownloadSingle call, one per transfer whose file opened. */
  function TopRequestOf(e: Event): seq<Url> { if e.Requested? && e.depth == 0 then [e.url] else [] }

  /** The URLs of the transfers of `ts` whose destination can be opened, in stored order. */
  function OpenableUrls(net: Network, ts: seq<Transfer>): seq<Url> {
    if ts == [] then []
    else OpenableUrls(net, ts[..|ts| - 1])
         + (if ts[|ts| - 1].filepath in net.openable then [ts[|ts| - 1].url] else [])
  }

  /** The openable transfers' URLs of every item of `q`, item after item. */
  function AllOpenableUrls(net: Network, q: seq<Item>): seq<Url> {
    if q == [] then [] else OpenableUrls(net, q[0].urls) + AllOpenableUrls(net, q[1..])
  }

  /** The only outermost request a successful open wraps is its own. */
  lemma WrapTopRequest(path: Path, url: Url, p: seq<Event>, n: seq<Event>)
    requires forall i :: 0 <= i < |p| ==> p[i].DownloadProgress?
    requires AtDepth(n, 1)
    ensures Select([Opened(path, 0, true), Requested(url, 0)] + p + n + [Closed(path, 0)], TopRequestOf) == [url]
  {
    var head := [Opened(path, 0, true), Requested(url, 0)];
    var c := [Closed(path, 0)];
    SelectNone(p, TopRequestOf);
    SelectNone(n, TopRequestOf);
    SelectAppend4(head, p, n, c, TopRequestOf);
    SelectPair(head[0], head[1], TopRequestOf);
    SelectPair(c[0], c[0], TopRequestOf);
  }

  /**
   * An outermost transfer requests its own URL, exactly once, when its file
   * opens, and nothing at the top level otherwise.
   */
  lemma SingleTopRequest(net: Network, url: Url, path: Path, fuel: nat)
    ensures Select(SingleTrace(net, url, path, 0, fuel), TopRequestOf)
         == if path in net.openable then [url] else []
  {
    if path in net.openable {
      var resp := ResponseOf(net, url);
      ProgressOnly(resp.progress);
      if IsHttpRedirect(resp.status) && fuel > 0 {
        SingleTraceShape(net, resp.target, path, 1, fuel - 1);
      }
      WrapTopRequest(path, url, ProgressEvents(resp.progress), RedirectTrace(net, url, path, 0, fuel));
    } else {
      assert SingleTrace(net, url, path, 0, fuel) == [Opened(path, 0, false)];
      SelectPair(Opened(path, 0, false), Opened(path, 0, false), TopRequestOf);
    }
  }

  /**
   * The outermost requests of an item go, in stored order, to the URL paired
   * with each destination that could be opened: the (path, URL) pairing is kept.
   */
  lemma {:induction false} ItemRequestOrder(net: Network, ts: seq<Transfer>, fuel: nat)
    ensures Select(ItemTrace(net, ts, fuel), TopRequestOf) == OpenableUrls(net, ts)
    decreases |ts|
  {
    if ts == [] {
      assert ItemTrace(net, ts, fuel) == [];
    } else {
      var init := ts[..|ts| - 1];
      var last := ts[|ts| - 1];
      ItemRequestOrder(net, init, fuel);
      SingleTopRequest(net, last.url, last.filepath, fuel);
      SelectAppend(ItemTrace(net, init, fuel), SingleTrace(net, last.url, last.filepath, 0, fuel), TopRequestOf);
    }
  }

  /** The outermost requests of a drain are the openable transfers' URLs, item after item. */
  lemma {:induction false} DrainRequestOrder(net: Network, q: seq<Item>, h: seq<Item>, fuel: nat)
    ensures Select(DrainTrace(net, q, h, fuel), TopRequestOf) == AllOpenableUrls(net, q)
    decreases |q|
  {
    if q == [] {
      assert DrainTrace(net, q, h, fuel) == [QueueFinished(h)];
      SelectPair(QueueFinished(h), QueueFinished(h), TopRequestOf);
    } else {
      DrainRequestOrder(net, q[1..], h + [q[0]], fuel);
      ItemRequestOrder(net, q[0].urls, fuel);
      DrainSelect(net, q, h, fuel, TopRequestOf);
    }
  }

  /** The event that ends an outermost transfer into `path`: its close, or its failed open. */
  predicate Settled(e: Event, path: Path) {
    e == Closed(path, 0) || e == Opened(path, 0, false)
  }

  /** A transfer ends with the close of its own file, or with its failed open. */
  lemma SingleTraceEnds(net: Network, url: Url, path: Path, fuel: nat)
    ensures SingleTrace(net, url, path, 0, fuel) != []
    ensures Settled(Last(SingleTrace(net, url, path, 0, fuel)), path)
  {
  }

  /** The number of outermost opens strictly before position `i`. */
  function TopOpensBefore(t: seq<Event>, i: nat): nat
    requires i <= |t|
  {
    |Select(t[..i], TopOpenOf)|
  }

  /** Position `i` holds an outermost open. */
  predicate TopOpenAt(t: seq<Event>, i: nat)
    requires i < |t|
  {
    t[i].Opened? && t[i].depth == 0
  }

  /**
   * The transfers of `ts` run one after another in `t`: the event just before
   * the n-th outermost open (counting from 0, n > 0) settles transfer n - 1,
   * and the last event settles the last transfer.
   */
  predicate Sequential(t: seq<Event>, ts: seq<Transfer>) {
    && (ts != [] ==> t != [] && Settled(Last(t), ts[|ts| - 1].filepath))
    && forall i :: 0 < i < |t| && TopOpenAt(t, i) ==>
         0 < TopOpensBefore(t, i) <= |ts| && Settled(t[i - 1], ts[TopOpensBefore(t, i) - 1].filepath)
  }

  /** An outermost open inside `a` keeps its settled predecessor once `b` is appended. */
  lemma SequentialEarly(a: seq<Event>, init: seq<Transfer>, b: seq<Event>, last: Transfer, i: int)
    requires Sequential(a, init)
    requires 0 < i < |a| && TopOpenAt(a, i)
    ensures 0 < TopOpensBefore(a + b, i) <= |init| + 1
    ensures Settled((a + b)[i - 1], (init + [last])[TopOpensBefore(a + b, i) - 1].filepath)
  {
    assert (a + b)[..i] == a[..i];
    assert (a + b)[i - 1] == a[i - 1];
    assert (init + [last])[TopOpensBefore(a, i) - 1] == init[TopOpensBefore(a, i) - 1];
  }

  /** The first open of `b` comes right after `a` settled the last transfer of `init`. */
  lemma SequentialJoin(a: seq<Event>, init: seq<Transfer>, b: seq<Event>, last: Transfer)
    requires Sequential(a, init) && |Select(a, TopOpenOf)| == |init| && init != []
    ensures TopOpensBefore(a + b, |a|) == |init|
    ensures Settled((a + b)[|a| - 1], (init + [last])[|init| - 1].filepath)
  {
    assert (a + b)[..|a|] == a;
    assert (a + b)[|a| - 1] == Last(a);
    assert (init + [last])[|init| - 1] == init[|init| - 1];
  }

  /** Appending one more transfer `b`, which opens at the top level only first, keeps transfers sequential. */
  lemma SequentialAppend(a: seq<Event>, init: seq<Transfer>, b: seq<Event>, last: Transfer)
    requires Sequential(a, init) && |Select(a, TopOpenOf)| == |init| && (init == [] ==> a == [])
    requires b != [] && b[0].Opened? && b[0].depth == 0 && b[0].path == last.filepath
    requires forall i :: 1 <= i < |b| && b[i].Opened? ==> b[i].depth > 0
    requires Settled(Last(b), last.filepath)
    ensures Sequential(a + b, init + [last])
  {
    var t := a + b;
    var ts := init + [last];
    assert Last(t) == Last(b);
    forall i | 0 < i < |t| && TopOpenAt(t, i)
      ensures 0 < TopOpensBefore(t, i) <= |ts| && Settled(t[i - 1], ts[TopOpensBefore(t, i) - 1].filepath)
    {
      if i < |a| {
        assert t[i] == a[i];
        SequentialEarly(a, init, b, last, i);
      } else if i == |a| {
        SequentialJoin(a, init, b, last);
      }
    }
  }

  /**
   * Within an item the transfers never overlap: each outermost open comes
   * right after the previous transfer has closed its file or failed to open it.
   */
  lemma {:induction false} ItemTransfersSequential(net: Network, ts: seq<Transfer>, fuel: nat)
    ensures Sequential(ItemTrace(net, ts, fuel), ts)
    decreases |ts|
  {
    if ts == [] {
      assert ItemTrace(net, ts, fuel) == [];
    } else {
      var init := ts[..|ts| - 1];
      var last := ts[|ts| - 1];
      ItemTransfersSequential(net, init, fuel);
      ItemTraceOrder(net, init, fuel);
      SingleTraceShape(net, last.url, last.filepath, 0, fuel);
      SingleTraceEnds(net, last.url, last.filepath, fuel);
      assert init == [] ==> ItemTrace(net, init, fuel) == [];
      SequentialAppend(ItemTrace(net, init, fuel), init, SingleTrace(net, last.url, last.filepath, 0, fuel), last);
      assert init + [last] == ts;
    }
  }

  /**
   * Positions `j` and `k` bracket one item: its timer restart and its finished
   * notification, with nothing but transfer events between them, and these
   * open the item's own destinations, in stored order.
   */
  predicate ItemBlock(t: seq<Event>, j: int, k: int) {
    && 0 <= j < k < |t| && t[j] == TimerStarted && t[k].ItemFinished?
    && AllTransfer(t[j + 1..k]) && Select(t[j + 1..k], TopOpenOf) == Paths(t[k].item.urls)
  }

  /** The event at position `i` belongs to a single-file transfer. */
  predicate TransferAt(t: seq<Event>, i: nat)
    requires i < |t|
  {
    t[i].IsTransfer()
  }

  /** Every transfer event lies inside the block of the item it belongs to. */
  predicate TransfersInOwnItem(t: seq<Event>) {
    forall i :: 0 <= i < |t| && TransferAt(t, i) ==> exists j, k :: 0 <= j < i < k < |t| && ItemBlock(t, j, k)
  }

  /** A block of `r` stays a block behind any prefix. */
  lemma BlockShifted(pre: seq<Event>, r: seq<Event>, j: int, k: int)
    requires ItemBlock(r, j, k)
    ensures ItemBlock(pre + r, j + |pre|, k + |pre|)
  {
    assert (pre + r)[j + |pre| + 1..k + |pre|] == r[j + 1..k];
    assert (pre + r)[j + |pre|] == r[j];
    assert (pre + r)[k + |pre|] == r[k];
  }

  /** The head item's events form a block. */
  lemma HeadBlock(it: seq<Event>, x: Item, r: seq<Event>)
    requires AllTransfer(it) && Select(it, TopOpenOf) == Paths(x.urls)
    ensures ItemBlock([TimerStarted] + it + [ItemFinished(x), Dequeued(x)] + r, 0, |it| + 1)
  {
    var t := [TimerStarted] + it + [ItemFinished(x), Dequeued(x)] + r;
    assert t[1..|it| + 1] == it;
    assert t[|it| + 1] == ItemFinished(x);
  }

  /** Prefixing the events of one item keeps every transfer inside its own item's block. */
  lemma BlocksPrefixed(it: seq<Event>, x: Item, r: seq<Event>)
    requires AllTransfer(it) && Select(it, TopOpenOf) == Paths(x.urls)
    requires TransfersInOwnItem(r)
    ensures TransfersInOwnItem([TimerStarted] + it + [ItemFinished(x), Dequeued(x)] + r)
  {
    var pre := [TimerStarted] + it + [ItemFinished(x), Dequeued(x)];
    var t := pre + r;
    HeadBlock(it, x, r);
    forall i | 0 <= i < |t| && TransferAt(t, i)
      ensures exists j, k :: 0 <= j < i < k < |t| && ItemBlock(t, j, k)
    {
      if i < |pre| {
        assert 0 < i < |it| + 1 < |t|;
      } else {
        var m := i - |pre|;
        assert r[m] == t[i] && TransferAt(r, m);
        var j, k :| 0 <= j < m < k < |r| && ItemBlock(r, j, k);
        BlockShifted(pre, r, j, k);
        assert 0 <= j + |pre| < i < k + |pre| < |t|;
      }
    }
  }

  /**
   * Items never overlap: every transfer event of a drain lies between its own
   * item's timer restart and that item's finished notification, after the
   * previous item is finished and before the next one starts.
   */
  lemma {:induction false} DrainTransfersInOwnItem(net: Network, q: seq<Item>, h: seq<Item>, fuel: nat)
    ensures TransfersInOwnItem(DrainTrace(net, q, h, fuel))
    decreases |q|
  {
    if q == [] {
      assert DrainTrace(net, q, h, fuel) == [QueueFinished(h)];
    } else {
      assert AllTransfer(ItemTrace(net, q[0].urls, fuel))
          && Select(ItemTrace(net, q[0].urls, fuel), TopOpenOf) == Paths(q[0].urls) by {
        ItemTraceOrder(net, q[0].urls, fuel);
      }
      DrainTransfersInOwnItem(net, q[1..], h + [q[0]], fuel);
      BlocksPrefixed(ItemTrace(net, q[0].urls, fuel), q[0], DrainTrace(net, q[1..], h + [q[0]], fuel));
    }
  }
}
