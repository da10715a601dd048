/**
 * The main window's gamepad handlers and its guarded hand-off of a title
 * download to the queue.
 *
 * A list widget is its rows' hidden flags plus a current row; -1 stands for
 * "no current row". Setting an out-of-range current row leaves no current
 * row, and setting an out-of-range tab index is ignored, as the widget
 * library does.
 */
module Window {
  import opened Network

  datatype Option<T> = None | Some(value: T)

  /** `item(row)`: the hidden flag of the row, when the row exists. */
  function ItemAt(hidden: seq<bool>, row: int): (r: Option<bool>)
    ensures r.Some? <==> 0 <= row < |hidden|
    ensures r.Some? ==> r.value == hidden[row]
  {
    if 0 <= row < |hidden| then Some(hidden[row]) else None
  }

  /** The row exists and is hidden: the condition the navigation loops skip over. */
  predicate Skipped(hidden: seq<bool>, row: int) {
    0 <= row < |hidden| && hidden[row]
  }

  /** The current row a list is left with after `setCurrentRow(row)`. */
  function CurrentRowAfter(count: nat, row: int): (r: int)
    ensures -1 <= r < count
    ensures 0 <= row < count ==> r == row
    ensures !(0 <= row < count) ==> r == -1
  {
    if 0 <= row < count then row else -1
  }

  /**
   * The row gameUp asks for from `current`. From row 0 it is the last row,
   * hidden or not; otherwise it is the nearest row above that is missing or
   * shown, all rows strictly between being hidden.
   */
  predicate UpTarget(hidden: seq<bool>, current: int, row: int) {
    if current == 0 then row == |hidden| - 1
    else row < current && !Skipped(hidden, row)
         && forall k :: row < k < current ==> Skipped(hidden, k)
  }

  /**
   * The row gameDown asks for from `current`. From the last row it is 0;
   * otherwise it is the nearest row below that is missing or shown, all rows
   * strictly between being hidden.
   */
  predicate DownTarget(hidden: seq<bool>, current: int, row: int) {
    if current == |hidden| - 1 then row == 0
    else row > current && !Skipped(hidden, row)
         && forall k :: current < k < row ==> Skipped(hidden, k)
  }

  /** At most one row fits the description of gameUp's target. */
  lemma UpTargetUnique(hidden: seq<bool>, current: int, row: int, other: int)
    requires UpTarget(hidden, current, row) && UpTarget(hidden, current, other)
    ensures row == other
  {
  }

  /** At most one row fits the description of gameDown's target. */
  lemma DownTargetUnique(hidden: seq<bool>, current: int, row: int, other: int)
    requires DownTarget(hidden, current, row) && DownTarget(hidden, current, other)
    ensures row == other
  {
  }

  /** The loop of gameUp: steps up from `current`, past hidden rows. */
  method UpRow(hidden: seq<bool>, current: int) returns (row: int)
    ensures UpTarget(hidden, current, row)
  {
    row := current;
    if current == 0 {
      row := |hidden| - 1;
    } else {
      row := row - 1;
      var item := ItemAt(hidden, row);
      while item.Some? && item.value
        invariant row < current
        invariant item == ItemAt(hidden, row)
        invariant forall k :: row < k < current ==> Skipped(hidden, k)
        decreases row
      {
        row := row - 1;
        item := ItemAt(hidden, row);
      }
    }
  }

  /** The loop of gameDown: steps down from `current`, past hidden rows. */
  method DownRow(hidden: seq<bool>, current: int) returns (row: int)
    ensures DownTarget(hidden, current, row)
  {
    row := current;
    if current == |hidden| - 1 {
      row := 0;
    } else {
      row := row + 1;
      var item := ItemAt(hidden, row);
      while item.Some? && item.value
        invariant row > current
        invariant item == ItemAt(hidden, row)
        invariant forall k :: current < k < row ==> Skipped(hidden, k)
        decreases |hidden| - row
      {
        row := row + 1;
        item := ItemAt(hidden, row);
      }
    }
  }

  /**
   * On a list without hidden rows, pressing down and then up comes back to
   * the starting row, including across the wrap-around at the last row.
   */
  method DownThenUpRestores(hidden: seq<bool>, current: int) returns (back: int)
    requires forall k :: 0 <= k < |hidden| ==> !hidden[k]
    requires 0 <= current < |hidden|
    ensures back == current
  {
    var down := DownRow(hidden, current);
    back := UpRow(hidden, down);
    if current != |hidden| - 1 {
      assert !Skipped(hidden, current + 1);
      assert down == current + 1;
      assert !Skipped(hidden, current);
    }
  }

  /** What the window asked the outside world to do. */
  datatype Action = Launch(row: int) | Terminate

  class MainWindow {
    var tab: int
    const tabCount: nat
    var library: seq<bool>
    var libraryRow: int
    var database: seq<bool>
    var databaseRow: int
    /** The emulator process is starting or running. */
    var processActive: bool
    var actions: seq<Action>

    ghost predicate Valid()
      reads this
    {
      && 0 <= tab < tabCount
      && -1 <= libraryRow < |library|
      && -1 <= databaseRow < |database|
    }

    constructor (tabs: nat, library: seq<bool>, database: seq<bool>)
      requires tabs > 0
      ensures Valid()
      ensures tab == 0 && tabCount == tabs && !processActive && actions == []
      ensures this.library == library && this.database == database
      ensures libraryRow == -1 && databaseRow == -1
    {
      tab, tabCount := 0, tabs;
      this.library, this.database := library, database;
      libraryRow, databaseRow := -1, -1;
      processActive, actions := false, [];
    }

    /**
     * Moves the current row of the list on tab 0 or 1 up; does nothing when
     * the button is released, the emulator is running or another tab shows.
     * `requested` is the row handed to the list, if any.
     */
    method GameUp(pressed: bool) returns (requested: Option<int>)
      requires Valid()
      modifies this
      ensures Valid()
      ensures requested.Some? <==> pressed && !processActive && (tab == 0 || tab == 1)
      ensures tab == old(tab) && library == old(library) && database == old(database)
      ensures processActive == old(processActive) && actions == old(actions)
      ensures libraryRow == if requested.Some? && tab == 0 then CurrentRowAfter(|library|, requested.value) else old(libraryRow)
      ensures databaseRow == if requested.Some? && tab == 1 then CurrentRowAfter(|database|, requested.value) else old(databaseRow)
      ensures requested.Some? && tab == 0 ==> UpTarget(library, old(libraryRow), requested.value)
      ensures requested.Some? && tab == 1 ==> UpTarget(database, old(databaseRow), requested.value)
    {
      if !pressed || processActive {
        return None;
      }
      if tab == 0 {
        var row := UpRow(library, libraryRow);
        libraryRow := CurrentRowAfter(|library|, row);
        requested := Some(row);
      } else if tab == 1 {
        var row := UpRow(database, databaseRow);
        databaseRow := CurrentRowAfter(|database|, row);
        requested := Some(row);
      } else {
        return None;
      }
    }

    /** As GameUp, moving down. */
    method GameDown(pressed: bool) returns (requested: Option<int>)
      requires Valid()
      modifies this
      ensures Valid()
      ensures requested.Some? <==> pressed && !processActive && (tab == 0 || tab == 1)
      ensures tab == old(tab) && library == old(library) && database == old(database)
      ensures processActive == old(processActive) && actions == old(actions)
      ensures libraryRow == if requested.Some? && tab == 0 then CurrentRowAfter(|library|, requested.value) else old(libraryRow)
      ensures databaseRow == if requested.Some? && tab == 1 then CurrentRowAfter(|database|, requested.value) else old(databaseRow)
      ensures requested.Some? && tab == 0 ==> DownTarget(library, old(libraryRow), requested.value)
      ensures requested.Some? && tab == 1 ==> DownTarget(database, old(databaseRow), requested.value)
    {
      if !pressed || processActive {
        return None;
      }
      if tab == 0 {
        var row := DownRow(library, libraryRow);
        libraryRow := CurrentRowAfter(|library|, row);
        requested := Some(row);
      } else if tab == 1 {
        var row := DownRow(database, databaseRow);
        databaseRow := CurrentRowAfter(|database|, row);
        requested := Some(row);
      } else {
        return None;
      }
    }

    /**
     * Launches the selected library entry, unless released or the emulator
     * is running. Taking the first selected item needs a selection.
     */
    method GameStart(pressed: bool)
      requires Valid()
      requires pressed && !processActive ==> libraryRow != -1
      modifies this`actions
      ensures Valid()
      ensures actions == if pressed && !processActive then old(actions) + [Launch(libraryRow)] else old(actions)
    {
      if !pressed || processActive {
        return;
      }
      actions := actions + [Launch(libraryRow)];
    }

    /** Terminates the emulator, only while it runs and the button is pressed. */
    method GameClose(pressed: bool)
      modifies this`actions
      ensures actions == if pressed && processActive then old(actions) + [Terminate] else old(actions)
    {
      if !pressed || !processActive {
        return;
      }
      actions := actions + [Terminate];
    }

    /** Asks for the tab to the left; `requested` is the index handed over, if any. */
    method PrevTab(pressed: bool) returns (requested: Option<int>)
      requires Valid()
      modifies this`tab
      ensures Valid()
      ensures requested == if pressed && !processActive then Some(old(tab) - 1) else None
      ensures tab == if requested.Some? && 0 <= requested.value < tabCount then requested.value else old(tab)
    {
      if !pressed || processActive {
        return None;
      }
      var index := tab;
      requested := Some(index - 1);
      if 0 <= index - 1 < tabCount {
        tab := index - 1;
      }
    }

    /** Asks for the tab to the right; `requested` is the index handed over, if any. */
    method NextTab(pressed: bool) returns (requested: Option<int>)
      requires Valid()
      modifies this`tab
      ensures Valid()
      ensures requested == if pressed && !processActive then Some(old(tab) + 1) else None
      ensures tab == if requested.Some? && 0 <= requested.value < tabCount then requested.value else old(tab)
    {
      if !pressed || processActive {
        return None;
      }
      var index := tab;
      requested := Some(index + 1);
      if 0 <= index + 1 < tabCount {
        tab := index + 1;
      }
    }
  }

  /**
   * Hands a looked-up title to the queue unless an item of that name is
   * already pending; a failed lookup (`None`) hands over nothing. Keeps the
   * pending names unique.
   */
  method DownloadCemuId(queue: DownloadQueue, info: Option<Item>)
    modifies queue
    ensures queue.history == old(queue.history)
    ensures info.None? || NamePending(old(queue.queue), info.value.name) ==>
              queue.queue == old(queue.queue) && queue.events == old(queue.events)
    ensures info.Some? && !NamePending(old(queue.queue), info.value.name) ==>
              && queue.queue == old(queue.queue) + [info.value]
              && queue.events == old(queue.events)
                 + (if old(queue.queue) == [] then [StartScheduled] else []) + [Enqueued(info.value)]
    ensures UniqueNames(old(queue.queue)) ==> UniqueNames(queue.queue)
  {
    if info.None? {
      return;
    }
    var pending := queue.Exists(info.value);
    if !pending {
      queue.Add(info.value);
    }
  }
}
