/**
 * The background service worker (background.js): the per-tab liveness table
 * `activeTabsStatus` and the per-tab badge, updated by the extension's event
 * listeners. Each listener is a method; the current time is a parameter, and the
 * badge is two maps from tab id to text and to background colour.
 */
module Background {
  import opened Wrappers
  import opened Text
  import opened Platform

  /** A liveness record `{connected, lastActive}`. */
  datatype Record = Record(connected: bool, lastActive: int)

  /** A tab as the tabs API reports it: its id and its URL, which may be absent. */
  datatype Tab = Tab(id: int, url: Option<string>)

  /** `details.reason` of the install event. */
  datatype InstallReason = Install | Update | ChromeUpdate | SharedModuleUpdate

  const NewBadgeText := "NEW"
  const NewBadgeColor := "#4CAF50"
  const AlertBadgeText := "!"
  const AlertBadgeColor := "#F44336"

  /** `tab.url && tab.url.startsWith('http')`. */
  predicate IsHttp(url: Option<string>) {
    url.Some? && StartsWith(url.value, "http")
  }

  /** The badge map after every http tab of `tabs`, in order, had its entry set to `v`. */
  function StampHttpTabs(m: map<int, string>, tabs: seq<Tab>, v: string): map<int, string>
    decreases |tabs|
  {
    if |tabs| == 0 then m
    else
      var before := StampHttpTabs(m, tabs[..|tabs| - 1], v);
      var t := tabs[|tabs| - 1];
      if IsHttp(t.url) then before[t.id := v] else before
  }

  /** Some tab of `tabs` with id `id` has an http URL. */
  predicate HasHttpTab(tabs: seq<Tab>, id: int) {
    exists i :: 0 <= i < |tabs| && tabs[i].id == id && IsHttp(tabs[i].url)
  }

  /** Stamping sets exactly the ids of the http tabs and leaves every other entry as it was. */
  lemma {:induction false} StampHttpTabsSpec(m: map<int, string>, tabs: seq<Tab>, v: string)
    ensures forall id :: HasHttpTab(tabs, id) ==> id in StampHttpTabs(m, tabs, v) && StampHttpTabs(m, tabs, v)[id] == v
    ensures forall id :: !HasHttpTab(tabs, id) ==>
      (id in StampHttpTabs(m, tabs, v) <==> id in m) && (id in m ==> StampHttpTabs(m, tabs, v)[id] == m[id])
    decreases |tabs|
  {
    if |tabs| > 0 {
      var front := tabs[..|tabs| - 1];
      StampHttpTabsSpec(m, front, v);
      forall id ensures HasHttpTab(tabs, id) <==> HasHttpTab(front, id) || (tabs[|tabs| - 1].id == id && IsHttp(tabs[|tabs| - 1].url)) {
        if HasHttpTab(front, id) {
          var i :| 0 <= i < |front| && front[i].id == id && IsHttp(front[i].url);
          assert tabs[i] == front[i];
        }
        if HasHttpTab(tabs, id) {
          var i :| 0 <= i < |tabs| && tabs[i].id == id && IsHttp(tabs[i].url);
          if i < |front| { assert front[i] == tabs[i]; }
        }
      }
    }
  }

  /** The tabs the periodic sweep probes: `tab.id && tab.url && tab.url.startsWith('http')`. */
  function ProbeTargets(tabs: seq<Tab>): seq<int>
    decreases |tabs|
  {
    if |tabs| == 0 then []
    else
      var t := tabs[|tabs| - 1];
      ProbeTargets(tabs[..|tabs| - 1]) + if t.id != 0 && IsHttp(t.url) then [t.id] else []
  }

  /** A tab is probed exactly when it has a non-zero id and an http URL. */
  lemma {:induction false} ProbeTargetsSpec(tabs: seq<Tab>)
    ensures forall id :: id in ProbeTargets(tabs) <==> id != 0 && HasHttpTab(tabs, id)
    decreases |tabs|
  {
    if |tabs| > 0 {
      var front := tabs[..|tabs| - 1];
      ProbeTargetsSpec(front);
      forall id ensures id in ProbeTargets(tabs) <==> id != 0 && HasHttpTab(tabs, id) {
        if HasHttpTab(front, id) {
          var i :| 0 <= i < |front| && front[i].id == id && IsHttp(front[i].url);
          assert tabs[i] == front[i];
        }
        if HasHttpTab(tabs, id) {
          var i :| 0 <= i < |tabs| && tabs[i].id == id && IsHttp(tabs[i].url);
          if i < |front| { assert front[i] == tabs[i]; }
        }
      }
    }
  }

  class Coordinator {
    /** `activeTabsStatus`. */
    var table: map<int, Record>
    /** The badge text set for each tab. */
    var badgeText: map<int, string>
    /** The badge background colour set for each tab. */
    var badgeColor: map<int, string>

    constructor()
      ensures table == map[] && badgeText == map[] && badgeColor == map[]
    {
      table := map[];
      badgeText := map[];
      badgeColor := map[];
    }

    /**
     * The install listener: on an update every tab with an http URL gets the green
     * `NEW` badge; any other reason changes nothing. The table is never touched.
     */
    method OnInstalled(reason: InstallReason, tabs: seq<Tab>)
      modifies this`badgeText, this`badgeColor
      ensures reason != Update ==> badgeText == old(badgeText) && badgeColor == old(badgeColor)
      ensures reason == Update ==>
        && badgeText == StampHttpTabs(old(badgeText), tabs, NewBadgeText)
        && badgeColor == StampHttpTabs(old(badgeColor), tabs, NewBadgeColor)
    {
      if reason == Update {
        var i := 0;
        while i < |tabs|
          invariant 0 <= i <= |tabs|
          invariant badgeText == StampHttpTabs(old(badgeText), tabs[..i], NewBadgeText)
          invariant badgeColor == StampHttpTabs(old(badgeColor), tabs[..i], NewBadgeColor)
        {
          var tab := tabs[i];
          assert tabs[..i + 1][..i] == tabs[..i];
          if IsHttp(tab.url) {
            badgeText := badgeText[tab.id := NewBadgeText];
            badgeColor := badgeColor[tab.id := NewBadgeColor];
          }
          i := i + 1;
        }
        assert tabs[..|tabs|] == tabs;
      }
    }

    /**
     * The runtime message listener. Messages without a sender tab id change nothing
     * and get no reply. `CONTENT_SCRIPT_LOADED` records the tab as connected now,
     * clears its badge text and replies `background_received`; `BV_COPIED` replies
     * `success` and changes nothing; other actions change nothing and get no reply.
     */
    method OnMessage(action: string, senderTab: Option<int>, now: int) returns (reply: Option<Reply>)
      modifies this`table, this`badgeText
      ensures !IsTruthyId(senderTab) ==> reply.None? && table == old(table) && badgeText == old(badgeText)
      ensures IsTruthyId(senderTab) && action == LoadedAction ==>
        && table == old(table)[senderTab.value := Record(true, now)]
        && badgeText == old(badgeText)[senderTab.value := ""]
        && reply == Some(ReceivedReply)
      ensures IsTruthyId(senderTab) && action == BvCopiedAction ==>
        reply == Some(SuccessReply) && table == old(table) && badgeText == old(badgeText)
      ensures action != LoadedAction && action != BvCopiedAction ==>
        reply.None? && table == old(table) && badgeText == old(badgeText)
    {
      reply := None;
      if senderTab.Some? && senderTab.value != 0 {
        var tabId := senderTab.value;
        if action == LoadedAction {
          table := table[tabId := Record(true, now)];
          badgeText := badgeText[tabId := ""];
          reply := Some(ReceivedReply);
        }
        if action == BvCopiedAction {
          reply := Some(SuccessReply);
        }
      }
    }

    /** The tab-removed listener: the tab's record is deleted, every other record stays. */
    method OnRemoved(tabId: int)
      modifies this`table
      ensures table == old(table) - {tabId}
    {
      if tabId in table {
        table := table - {tabId};
      }
    }

    /**
     * The tab-updated listener: when a load completes on an http URL and the tab
     * has no record or a disconnected one, the red `!` badge is set.
     */
    method OnUpdated(tabId: int, status: Option<string>, url: Option<string>)
      modifies this`badgeText, this`badgeColor
      ensures var alert := status == Some("complete") && IsHttp(url) && (tabId !in table || !table[tabId].connected);
        && (alert ==> badgeText == old(badgeText)[tabId := AlertBadgeText] && badgeColor == old(badgeColor)[tabId := AlertBadgeColor])
        && (!alert ==> badgeText == old(badgeText) && badgeColor == old(badgeColor))
    {
      if status == Some("complete") && IsHttp(url) {
        if tabId !in table || !table[tabId].connected {
          badgeText := badgeText[tabId := AlertBadgeText];
          badgeColor := badgeColor[tabId := AlertBadgeColor];
        }
      }
    }

    /** The icon-click listener: clears the tab's badge text; the table is untouched. */
    method OnClicked(tabId: Option<int>)
      modifies this`badgeText
      ensures IsTruthyId(tabId) ==> badgeText == old(badgeText)[tabId.value := ""]
      ensures !IsTruthyId(tabId) ==> badgeText == old(badgeText)
    {
      if tabId.Some? && tabId.value != 0 {
        badgeText := badgeText[tabId.value := ""];
      }
    }

    /** One sweep of the timer: the tabs that are sent a liveness probe, in order. */
    method Sweep(activeTabs: seq<Tab>) returns (probed: seq<int>)
      ensures probed == ProbeTargets(activeTabs)
    {
      probed := [];
      var i := 0;
      while i < |activeTabs|
        invariant 0 <= i <= |activeTabs|
        invariant probed == ProbeTargets(activeTabs[..i])
      {
        var tab := activeTabs[i];
        assert activeTabs[..i + 1][..i] == activeTabs[..i];
        if tab.id != 0 && IsHttp(tab.url) {
          probed := probed + [tab.id];
        }
        i := i + 1;
      }
      assert activeTabs[..|activeTabs|] == activeTabs;
    }

    /**
     * A probe that got a reply: an `alive` reply records the tab as connected now,
     * creating the record if needed; any other reply changes nothing. The badge is
     * never touched here.
     */
    method OnProbeReply(tabId: int, response: Option<Reply>, now: int)
      modifies this`table
      ensures IsAliveReply(response) ==> table == old(table)[tabId := Record(true, now)]
      ensures !IsAliveReply(response) ==> table == old(table)
    {
      if response.Some? && response.value.status == "alive" {
        table := table[tabId := Record(true, now)];
      }
    }

    /**
     * A probe that failed: a connected tab becomes disconnected, keeping its
     * `lastActive`, and gets the red `!` badge; otherwise nothing changes.
     */
    method OnProbeFailure(tabId: int)
      modifies this`table, this`badgeText, this`badgeColor
      ensures var wasConnected := tabId in old(table) && old(table)[tabId].connected;
        && (wasConnected ==>
          && table == old(table)[tabId := old(table)[tabId].(connected := false)]
          && badgeText == old(badgeText)[tabId := AlertBadgeText]
          && badgeColor == old(badgeColor)[tabId := AlertBadgeColor])
        && (!wasConnected ==>
          table == old(table) && badgeText == old(badgeText) && badgeColor == old(badgeColor))
    {
      if tabId in table && table[tabId].connected {
        table := table[tabId := table[tabId].(connected := false)];
        badgeText := badgeText[tabId := AlertBadgeText];
        badgeColor := badgeColor[tabId := AlertBadgeColor];
      }
    }
  }

  /**
   * The liveness scenario: a tab that loaded at time 100 and then failed two probes
   * is disconnected with the `!` badge; a later alive probe at time 200 reconnects
   * it, but the badge text stays `!` because the reply path never touches it.
   */
  method LivenessScenario() returns (record: Record, badge: string)
    ensures record == Record(true, 200) && badge == AlertBadgeText
  {
    var bg := new Coordinator();
    var reply := bg.OnMessage(LoadedAction, Some(5), 100);
    assert bg.table[5] == Record(true, 100) && bg.badgeText[5] == "";
    bg.OnProbeFailure(5);
    assert bg.table[5] == Record(false, 100) && bg.badgeText[5] == AlertBadgeText;
    bg.OnProbeFailure(5);
    assert bg.table[5] == Record(false, 100) && bg.badgeText[5] == AlertBadgeText;
    bg.OnProbeReply(5, Some(AliveReply), 200);
    record, badge := bg.table[5], bg.badgeText[5];
  }
}
