/**
 * The popup (popup.js): the decisions its handlers make, with the store passed in
 * and returned as a value, the outcome of each message given as a `Delivery`,
 * and the page reduced to the state the handlers set (toggle button, list
 * visibility and rows, connection indicator, refresh buttons, notifications).
 */
module Popup {
  import opened Wrappers
  import opened Text
  import opened Platform
  import History

  const NoActiveTabError := "no_active_tab"
  const TimeoutError := "timeout"
  const SendFailedError := "通信失败"
  const TimeoutText := "连接超时"
  const DisableLabel := "关闭BV获取模式"
  const EnableLabel := "开启BV获取模式"
  const ActiveStatus := "当前模式：点击视频仅复制BV号"
  const InactiveStatus := "当前模式：正常浏览模式"

  /** What happened to `chrome.tabs.sendMessage` in its race with the 2-second timer. */
  datatype Delivery = Replied(response: Option<Reply>) | Rejected(message: string) | TimedOut

  /** What `safeSendMessage` resolves to: the reply, or an `{error}` object. */
  datatype Outcome = Ok(response: Option<Reply>) | Err(error: string)

  /** The tab a message went to (none when there was no active tab) and its outcome. */
  datatype Sent = Sent(target: Option<int>, outcome: Outcome)

  /**
   * `safeSendMessage(tabId, message)`: without an active tab the result is
   * `no_active_tab` and nothing is sent; otherwise the message goes to `tabId`
   * when it is truthy and to the active tab if not, and a rejection gives its
   * message (or `通信失败` when that is empty) while losing the race gives `timeout`.
   */
  function SafeSendMessage(tabId: Option<int>, activeTab: Option<int>, delivery: Delivery): (s: Sent)
    ensures s.outcome.Err? <==> !IsTruthyId(activeTab) || !delivery.Replied?
    ensures s.target.None? <==> !IsTruthyId(activeTab)
    ensures !IsTruthyId(activeTab) ==> s.outcome == Err(NoActiveTabError)
    ensures IsTruthyId(activeTab) ==> s.target == Some(if IsTruthyId(tabId) then tabId.value else activeTab.value)
    ensures IsTruthyId(activeTab) && delivery.TimedOut? ==> s.outcome == Err(TimeoutError)
    ensures IsTruthyId(activeTab) && delivery.Rejected? ==>
      s.outcome == Err(if delivery.message == "" then SendFailedError else delivery.message)
    ensures IsTruthyId(activeTab) && delivery.Replied? ==> s.outcome == Ok(delivery.response)
  {
    if !IsTruthyId(activeTab) then Sent(None, Err(NoActiveTabError))
    else
      var target := if IsTruthyId(tabId) then tabId.value else activeTab.value;
      match delivery
      case Replied(r) => Sent(Some(target), Ok(r))
      case Rejected(m) => Sent(Some(target), Err(if m == "" then SendFailedError else m))
      case TimedOut => Sent(Some(target), Err(TimeoutError))
  }

  /** `response && response.status === 'alive'` on what `safeSendMessage` resolved to. */
  predicate IsAlive(o: Outcome) {
    o.Ok? && IsAliveReply(o.response)
  }

  /** The reason shown when a toggle command fails: `连接超时` for a timeout, the raw error otherwise. */
  function ToggleErrorText(error: string): (r: string)
    ensures error == TimeoutError ==> r == TimeoutText
    ensures error != TimeoutError ==> r == error
    ensures r == TimeoutText <==> error == TimeoutError || error == TimeoutText
  {
    if error == TimeoutError then TimeoutText else error
  }

  /** The toggle button and status line that `updateUI` sets. */
  datatype ToggleView = ToggleView(active: bool, buttonText: string, status: string, statusClass: string)

  /** `updateUI(enabled)`. */
  function ToggleViewOf(enabled: bool): ToggleView {
    if enabled then ToggleView(true, DisableLabel, ActiveStatus, "status-active")
    else ToggleView(false, EnableLabel, InactiveStatus, "status-inactive")
  }

  /** The button is active and offers to switch the mode off exactly when the mode is on. */
  lemma ToggleViewSpec(enabled: bool)
    ensures ToggleViewOf(enabled).active == enabled
    ensures ToggleViewOf(enabled).buttonText == DisableLabel <==> enabled
    ensures ToggleViewOf(enabled).statusClass == "status-active" <==> enabled
  {
  }

  /** One row of the history table: its number and its identifier. */
  datatype Row = Row(number: nat, bv: string)

  /** The rows `updateBVList` renders: one per entry, numbered from 1, in stored order. */
  function Rows(history: seq<string>): seq<Row> {
    seq(|history|, i requires 0 <= i < |history| => Row(i + 1, history[i]))
  }

  /** The identifier column read back from the table is the history itself. */
  lemma RowsSpec(history: seq<string>)
    ensures |Rows(history)| == |history|
    ensures forall i :: 0 <= i < |history| ==> Rows(history)[i].number == i + 1
    ensures seq(|history|, i requires 0 <= i < |history| => Rows(history)[i].bv) == history
  {
  }

  /** The text "copy all" puts on the clipboard: nothing for an empty history, else the entries joined by newlines. */
  function CopyAllText(history: seq<string>): Option<string> {
    if |history| == 0 then None else Some(Join(history, '\n'))
  }

  /**
   * The copied block splits back into the history, line by line, whenever no
   * entry holds a newline (every identifier the content script extracts is such).
   */
  lemma CopyAllRoundTrip(history: seq<string>)
    requires |history| > 0
    requires forall k :: 0 <= k < |history| ==> '\n' !in history[k]
    ensures CopyAllText(history).Some?
    ensures Split(CopyAllText(history).value, '\n') == history
  {
    SplitJoin(history, '\n');
  }

  /** An extracted identifier is made of word characters, so it holds no newline. */
  lemma ExtractedHasNoNewline(url: string)
    requires History.ExtractBv(url).Some?
    ensures '\n' !in History.ExtractBv(url).value
  {
    History.ExtractBvSpec(url);
    var k :| History.FirstMatch(url, k) && History.ExtractBv(url).value == History.CaptureAt(url, k);
    History.CaptureShape(url, k);
  }

  /** The connection indicator `checkContentScriptStatus` adds. */
  datatype Indicator = NoIndicator | Red | Green

  /** The notifications the popup shows. */
  datatype Notice =
    | NoActiveTabNotice
    | ToggleFailedNotice(reason: string)
    | ClearedNotice
    | ClearedMarksMayPersistNotice
    | NothingToCopyNotice
    | CopiedAllNotice(count: nat)

  /** The refresh-button count after "add one only if none exists". */
  function AtLeastOne(n: nat): nat {
    if n == 0 then 1 else n
  }

  class PopupView {
    var toggle: ToggleView
    var emptyStateShown: bool
    var tableShown: bool
    var clearAllShown: bool
    var rows: seq<Row>
    var indicator: Indicator
    var refreshButtons: nat
    var notices: seq<Notice>

    /** A freshly opened popup; popup.html's own initial markup is not modelled. */
    constructor()
      ensures toggle == ToggleViewOf(false) && rows == [] && indicator == NoIndicator
      ensures refreshButtons == 0 && notices == []
    {
      toggle := ToggleViewOf(false);
      emptyStateShown, tableShown, clearAllShown := false, false, false;
      rows := [];
      indicator := NoIndicator;
      refreshButtons := 0;
      notices := [];
    }

    method UpdateUI(enabled: bool)
      modifies this`toggle
      ensures toggle == ToggleViewOf(enabled)
    {
      toggle := ToggleViewOf(enabled);
    }

    /**
     * `updateBVList(list)`: an absent or empty list shows the empty state and hides
     * the table and the clear button, leaving the old rows in place; otherwise the
     * table and the clear button are shown with one row per entry.
     */
    method UpdateBVList(list: Option<seq<string>>)
      modifies this`emptyStateShown, this`tableShown, this`clearAllShown, this`rows
      ensures var shown := list.Some? && |list.value| > 0;
        && emptyStateShown == !shown && tableShown == shown && clearAllShown == shown
        && rows == (if shown then Rows(list.value) else old(rows))
    {
      if list.None? || |list.value| == 0 {
        emptyStateShown, tableShown, clearAllShown := true, false, false;
        return;
      }
      emptyStateShown, tableShown, clearAllShown := false, true, true;
      rows := Rows(list.value);
    }

    /** `safeSendMessage` with its one side effect: a notice when there is no active tab. */
    method SendMessage(tabId: Option<int>, activeTab: Option<int>, delivery: Delivery) returns (s: Sent)
      modifies this`notices
      ensures s == SafeSendMessage(tabId, activeTab, delivery)
      ensures notices == old(notices) + (if IsTruthyId(activeTab) then [] else [NoActiveTabNotice])
    {
      if !IsTruthyId(activeTab) {
        notices := notices + [NoActiveTabNotice];
      }
      s := SafeSendMessage(tabId, activeTab, delivery);
    }

    /**
     * `handleModeToggle`: the new state is the negation of the stored flag (absent
     * counts as off, so it becomes on), it is persisted and shown before the
     * command goes out, and a failed command is reported but never rolls the flag
     * back; a refresh button is added only if there is none.
     */
    method HandleModeToggle(store: Store, readOk: bool, writeOk: bool, activeTab: Option<int>, delivery: Delivery)
      returns (newStore: Store, request: Request, s: Sent)
      modifies this`toggle, this`notices, this`refreshButtons
      ensures var newState := !StorageGet(readOk, store).isBVModeEnabled.GetOr(false);
        && newStore == SetModeFlag(writeOk, store, newState)
        && toggle == ToggleViewOf(newState)
        && request == Request(ToggleAction, Some(newState))
      ensures !writeOk ==> newStore == store
      ensures !readOk && writeOk ==> newStore.isBVModeEnabled == Some(true) && newStore.bvHistory == store.bvHistory
      ensures s == SafeSendMessage(None, activeTab, delivery)
      ensures var sendNotices := if IsTruthyId(activeTab) then [] else [NoActiveTabNotice];
        if s.outcome.Err? then
          && notices == old(notices) + sendNotices + [ToggleFailedNotice(ToggleErrorText(s.outcome.error))]
          && refreshButtons == AtLeastOne(old(refreshButtons))
        else
          notices == old(notices) + sendNotices && refreshButtons == old(refreshButtons)
    {
      var current := StorageGet(readOk, store);
      var newState := !current.isBVModeEnabled.GetOr(false);
      newStore := SetModeFlag(writeOk, store, newState);
      UpdateUI(newState);
      request := Request(ToggleAction, Some(newState));
      s := SendMessage(None, activeTab, delivery);
      if s.outcome.Err? {
        notices := notices + [ToggleFailedNotice(ToggleErrorText(s.outcome.error))];
        if refreshButtons == 0 {
          refreshButtons := 1;
        }
      }
    }

    /**
     * `clearBVList`: `[]` is written and the empty list shown whatever happens to
     * the clear-marks command; only the notice depends on its outcome.
     */
    method ClearBVList(store: Store, writeOk: bool, activeTab: Option<int>, delivery: Delivery)
      returns (newStore: Store, s: Sent)
      modifies this`emptyStateShown, this`tableShown, this`clearAllShown, this`rows, this`notices
      ensures newStore == SetHistory(writeOk, store, [])
      ensures !writeOk ==> newStore == store
      ensures writeOk ==> newStore.bvHistory == Some([]) && newStore.isBVModeEnabled == store.isBVModeEnabled
      ensures emptyStateShown && !tableShown && !clearAllShown && rows == old(rows)
      ensures s == SafeSendMessage(None, activeTab, delivery)
      ensures notices == old(notices) + (if IsTruthyId(activeTab) then [] else [NoActiveTabNotice])
        + [if s.outcome.Err? then ClearedMarksMayPersistNotice else ClearedNotice]
    {
      newStore := SetHistory(writeOk, store, []);
      UpdateBVList(Some([]));
      s := SendMessage(None, activeTab, delivery);
      if s.outcome.Err? {
        notices := notices + [ClearedMarksMayPersistNotice];
      } else {
        notices := notices + [ClearedNotice];
      }
    }

    /**
     * `handleCopyAll`: an empty or unreadable history copies nothing and says so;
     * otherwise the entries joined by newlines are copied and their number shown.
     */
    method HandleCopyAll(store: Store, readOk: bool) returns (copied: Option<string>)
      modifies this`notices
      ensures var history := StoredHistory(StorageGet(readOk, store));
        && copied == CopyAllText(history)
        && notices == old(notices) + [if |history| == 0 then NothingToCopyNotice else CopiedAllNotice(|history|)]
      ensures !readOk ==> copied.None? && notices == old(notices) + [NothingToCopyNotice]
    {
      var history := StoredHistory(StorageGet(readOk, store));
      if |history| == 0 {
        notices := notices + [NothingToCopyNotice];
        return None;
      }
      copied := Some(Join(history, '\n'));
      notices := notices + [CopiedAllNotice(|history|)];
    }

    /**
     * `checkContentScriptStatus`: without an active tab it answers false and adds
     * nothing; otherwise it adds a red indicator, probes the tab, turns the
     * indicator green and answers true exactly when the reply says alive, and adds
     * a refresh button otherwise.
     */
    method CheckContentScriptStatus(activeTab: Option<int>, delivery: Delivery) returns (alive: bool)
      modifies this`indicator, this`refreshButtons, this`notices
      ensures !IsTruthyId(activeTab) ==>
        !alive && indicator == old(indicator) && refreshButtons == old(refreshButtons)
      ensures IsTruthyId(activeTab) ==>
        && alive == IsAlive(SafeSendMessage(activeTab, activeTab, delivery).outcome)
        && indicator == (if alive then Green else Red)
        && refreshButtons == old(refreshButtons) + (if alive then 0 else 1)
      ensures notices == old(notices)
    {
      if !IsTruthyId(activeTab) {
        return false;
      }
      indicator := Red;
      var s := SendMessage(activeTab, activeTab, delivery);
      if s.outcome.Ok? && IsAliveReply(s.outcome.response) {
        indicator := Green;
        alive := true;
      } else {
        refreshButtons := refreshButtons + 1;
        alive := false;
      }
    }

    /**
     * The popup's runtime listener: `BV_COPIED` re-reads the history and re-renders
     * the list; every message is answered `success`.
     */
    method OnRuntimeMessage(action: string, store: Store, readOk: bool) returns (reply: Reply)
      modifies this`emptyStateShown, this`tableShown, this`clearAllShown, this`rows
      ensures reply == SuccessReply
      ensures action == BvCopiedAction ==>
        var history := StoredHistory(StorageGet(readOk, store));
        && emptyStateShown == (|history| == 0)
        && tableShown == clearAllShown == (|history| > 0)
        && rows == (if |history| == 0 then old(rows) else Rows(history))
      ensures action != BvCopiedAction ==>
        && emptyStateShown == old(emptyStateShown) && tableShown == old(tableShown)
        && clearAllShown == old(clearAllShown) && rows == old(rows)
    {
      if action == BvCopiedAction {
        UpdateBVList(Some(StoredHistory(StorageGet(readOk, store))));
      }
      reply := SuccessReply;
    }

    /**
     * The `DOMContentLoaded` handler: the liveness check, then the toggle shown
     * from `isBVModeEnabled || false` and the list from `bvHistory` (default `[]`).
     */
    method Initialize(store: Store, readOk: bool, activeTab: Option<int>, probe: Delivery) returns (alive: bool)
      modifies this
      ensures var r := StorageGet(readOk, store);
        var history := StoredHistory(r);
        && toggle == ToggleViewOf(r.isBVModeEnabled.GetOr(false))
        && emptyStateShown == (|history| == 0)
        && tableShown == clearAllShown == (|history| > 0)
        && rows == (if |history| == 0 then old(rows) else Rows(history))
      ensures alive == (IsTruthyId(activeTab) && IsAlive(SafeSendMessage(activeTab, activeTab, probe).outcome))
      ensures indicator == (if !IsTruthyId(activeTab) then old(indicator) else if alive then Green else Red)
      ensures refreshButtons == old(refreshButtons) + (if IsTruthyId(activeTab) && !alive then 1 else 0)
      ensures notices == old(notices)
    {
      alive := CheckContentScriptStatus(activeTab, probe);
      var r := StorageGet(readOk, store);
      UpdateUI(r.isBVModeEnabled.GetOr(false));
      UpdateBVList(Some(r.bvHistory.GetOr([])));
    }
  }
}
