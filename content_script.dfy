/**
 * The content script (contentScript.js) as an object: the module-level mode flag,
 * the capturing click listener, and the page's video links held in an array and
 * updated in place by the `forEach` loops of the source. Storage is passed in and
 * returned as a `Store` value; each storage or messaging call carries a flag
 * saying whether it succeeds.
 */
module ContentScript {
  import opened Wrappers
  import opened Platform
  import opened History
  import opened Decoration

  class ContentAgent {
    /** The module-level `isBVModeEnabled`. */
    var modeEnabled: bool
    /** Whether `handleVideoClick` is registered as a capturing click listener on the document. */
    var clickListener: bool
    /** The links of the page. */
    const links: array<Link>

    /** The listener is registered exactly while the mode is on, and every link's decoration is consistent. */
    ghost predicate Valid()
      reads this, links
    {
      clickListener == modeEnabled && AllWellFormed(links[..])
    }

    /** The script as injected: mode off (`let isBVModeEnabled = false`), no listener. */
    constructor(page: array<Link>)
      requires AllWellFormed(page[..])
      ensures Valid() && links == page && !modeEnabled && !clickListener
      ensures unchanged(page)
    {
      links := page;
      modeEnabled := false;
      clickListener := false;
    }

    /**
     * `markCopiedVideo(bv)`: the links selected by `/video/<bv>` are marked, every
     * other link is left as it was.
     */
    method MarkCopiedVideo(bv: string)
      requires Valid()
      modifies links
      ensures Valid()
      ensures links[..] == Marked(old(links[..]), bv, modeEnabled)
    {
      ghost var before := links[..];
      var i := 0;
      while i < links.Length
        invariant 0 <= i <= links.Length
        invariant forall k :: 0 <= k < i ==>
          links[k] == if Selects(before[k], bv) then MarkLink(before[k], modeEnabled) else before[k]
        invariant forall k :: i <= k < links.Length ==> links[k] == before[k]
      {
        if Selects(links[i], bv) {
          MarkLinkSpec(links[i], modeEnabled);
          links[i] := MarkLink(links[i], modeEnabled);
        }
        i := i + 1;
      }
      assert links[..] == Marked(before, bv, modeEnabled);
      MarkedWellFormed(before, [bv], modeEnabled);
      assert MarkedByAll(before, [bv], modeEnabled) == Marked(before, bv, modeEnabled);
    }

    /** The `bvHistory.forEach(markCopiedVideo)` loop of `markAllCopiedVideos`. */
    method MarkHistory(history: seq<string>)
      requires Valid()
      modifies links
      ensures Valid()
      ensures links[..] == MarkedByAll(old(links[..]), history, modeEnabled)
    {
      ghost var before := links[..];
      var j := 0;
      while j < |history|
        invariant 0 <= j <= |history|
        invariant Valid()
        invariant links[..] == MarkedByAll(before, history[..j], modeEnabled)
      {
        MarkCopiedVideo(history[j]);
        assert history[..j + 1][..j] == history[..j];
        j := j + 1;
      }
      assert history[..|history|] == history;
    }

    /** `markAllCopiedVideos`: reads the stored history (`[]` when the read fails) and marks all of it. */
    method MarkAllCopiedVideos(store: Store, readOk: bool)
      requires Valid()
      modifies links
      ensures Valid()
      ensures links[..] == MarkedByAll(old(links[..]), StoredHistory(StorageGet(readOk, store)), modeEnabled)
      ensures !readOk ==> links[..] == old(links[..])
    {
      var history := StoredHistory(StorageGet(readOk, store));
      MarkHistory(history);
    }

    /**
     * `clearCopiedMarks`: first every check mark is removed, then every copied link
     * loses its class and its overlay loses `bv-copied-overlay`.
     */
    method ClearCopiedMarks()
      requires Valid()
      modifies links
      ensures Valid()
      ensures links[..] == Cleared(old(links[..]))
    {
      ghost var before := links[..];
      var i := 0;
      while i < links.Length
        invariant 0 <= i <= links.Length
        invariant forall k :: 0 <= k < i ==> links[k] == WithoutCheckMark(before[k])
        invariant forall k :: i <= k < links.Length ==> links[k] == before[k]
      {
        links[i] := WithoutCheckMark(links[i]);
        i := i + 1;
      }
      i := 0;
      while i < links.Length
        invariant 0 <= i <= links.Length
        invariant forall k :: 0 <= k < i ==> links[k] == Uncopied(WithoutCheckMark(before[k]))
        invariant forall k :: i <= k < links.Length ==> links[k] == WithoutCheckMark(before[k])
      {
        if links[i].copied {
          links[i] := Uncopied(links[i]);
        }
        i := i + 1;
      }
      assert links[..] == Cleared(before);
      ClearedSpec(before);
    }

    /**
     * The effect of `setVisualFeedback(enabled)`: the affordance on every video
     * link, then, when enabled, the stored history marked again. The source only
     * calls it with `enabled` true while the mode flag is on.
     */
    method SetVisualFeedback(enabled: bool, store: Store, readOk: bool)
      requires Valid()
      requires enabled ==> modeEnabled
      modifies links
      ensures Valid()
      ensures links[..] == Feedback(old(links[..]), enabled, StoredHistory(StorageGet(readOk, store)))
    {
      ghost var before := links[..];
      var i := 0;
      while i < links.Length
        invariant 0 <= i <= links.Length
        invariant forall k :: 0 <= k < i ==> links[k] == Afforded(before[k], enabled)
        invariant forall k :: i <= k < links.Length ==> links[k] == before[k]
      {
        if HasAffordance(links[i]) {
          links[i] := Afforded(links[i], enabled);
        }
        i := i + 1;
      }
      ghost var afforded := seq(|before|, k requires 0 <= k < |before| => Afforded(before[k], enabled));
      assert links[..] == afforded;
      assert Valid();
      if enabled {
        MarkAllCopiedVideos(store, readOk);
      }
    }

    /**
     * `toggleBVMode(enabled)`: sets the flag, removes the click listener and adds it
     * back only when enabling, so it is registered exactly once when on and not at
     * all when off, and applies the visual feedback.
     */
    method ToggleBVMode(enabled: bool, store: Store, readOk: bool)
      requires Valid()
      modifies this, links
      ensures Valid()
      ensures modeEnabled == enabled && clickListener == enabled
      ensures links[..] == Feedback(old(links[..]), enabled, StoredHistory(StorageGet(readOk, store)))
    {
      modeEnabled := enabled;
      clickListener := false;
      if enabled {
        clickListener := true;
        SetVisualFeedback(true, store, readOk);
      } else {
        SetVisualFeedback(false, store, readOk);
      }
    }

    /**
     * `getAndCopyBV(url)`. No identifier in the URL: nothing is read, written, sent
     * or marked. Otherwise the identifier is returned (it is what goes to the
     * clipboard); when it is not in the stored history the new history is written
     * and `BV_COPIED` is sent; the matching links are marked in every case.
     */
    method GetAndCopyBV(url: string, store: Store, readOk: bool, writeOk: bool, contextValid: bool)
      returns (copied: Option<string>, newStore: Store, notified: bool)
      requires Valid()
      requires !contextValid ==> !readOk && !writeOk
      modifies links
      ensures Valid()
      ensures !writeOk ==> newStore == store
      ensures ExtractBv(url).None? ==>
        copied.None? && newStore == store && !notified && links[..] == old(links[..])
      ensures ExtractBv(url).Some? ==>
        var bv := ExtractBv(url).value;
        var history := StoredHistory(StorageGet(readOk, store));
        && copied == Some(bv)
        && newStore == (if bv in history then store else SetHistory(writeOk, store, NewHistory(bv, history)))
        && notified == (bv !in history && contextValid)
        && links[..] == Marked(old(links[..]), bv, modeEnabled)
    {
      var found := ExtractBv(url);
      if found.None? {
        return None, store, false;
      }
      var bv := found.value;
      var history := StoredHistory(StorageGet(readOk, store));
      newStore := store;
      notified := false;
      if bv !in history {
        newStore := SetHistory(writeOk, store, NewHistory(bv, history));
        notified := contextValid;
      }
      MarkCopiedVideo(bv);
      copied := Some(bv);
    }

    /**
     * `handleVideoClick`: ignored while the mode is off or when the click is not
     * inside a video link; otherwise navigation is suppressed and the link's URL
     * goes to `getAndCopyBV`. `anchorHref` is the URL of the nearest enclosing
     * `a[href*="/video/BV"]`, if any.
     */
    method HandleVideoClick(anchorHref: Option<string>, store: Store, readOk: bool, writeOk: bool, contextValid: bool)
      returns (prevented: bool, copied: Option<string>, newStore: Store, notified: bool)
      requires Valid()
      requires !contextValid ==> !readOk && !writeOk
      modifies links
      ensures Valid()
      ensures prevented <==> modeEnabled && anchorHref.Some?
      ensures !prevented ==> copied.None? && newStore == store && !notified && links[..] == old(links[..])
      ensures prevented && ExtractBv(anchorHref.value).None? ==>
        copied.None? && newStore == store && !notified && links[..] == old(links[..])
      ensures prevented && ExtractBv(anchorHref.value).Some? ==>
        var bv := ExtractBv(anchorHref.value).value;
        var history := StoredHistory(StorageGet(readOk, store));
        && copied == Some(bv)
        && newStore == (if bv in history then store else SetHistory(writeOk, store, NewHistory(bv, history)))
        && notified == (bv !in history && contextValid)
        && links[..] == Marked(old(links[..]), bv, true)
    {
      if !modeEnabled || anchorHref.None? {
        return false, None, store, false;
      }
      prevented := true;
      copied, newStore, notified := GetAndCopyBV(anchorHref.value, store, readOk, writeOk, contextValid);
    }

    /**
     * The runtime message listener: toggle and clear reply success, the liveness
     * check replies alive with version 1.0, any other action gets no reply.
     */
    method OnMessage(request: Request, store: Store, readOk: bool) returns (reply: Option<Reply>)
      requires Valid()
      modifies this, links
      ensures Valid()
      ensures request.action == ToggleAction ==>
        && reply == Some(SuccessReply)
        && modeEnabled == request.enabled.GetOr(false)
        && links[..] == Feedback(old(links[..]), modeEnabled, StoredHistory(StorageGet(readOk, store)))
      ensures request.action == ClearMarksAction ==>
        reply == Some(SuccessReply) && modeEnabled == old(modeEnabled) && links[..] == Cleared(old(links[..]))
      ensures request.action !in {ToggleAction, ClearMarksAction} ==>
        modeEnabled == old(modeEnabled) && links[..] == old(links[..])
      ensures request.action == CheckAction ==> reply == Some(AliveReply)
      ensures request.action !in {ToggleAction, ClearMarksAction, CheckAction} ==> reply.None?
    {
      if request.action == ToggleAction {
        ToggleBVMode(request.enabled.GetOr(false), store, readOk);
        reply := Some(SuccessReply);
      } else if request.action == ClearMarksAction {
        ClearCopiedMarks();
        reply := Some(SuccessReply);
      } else if request.action == CheckAction {
        reply := Some(AliveReply);
      } else {
        reply := None;
      }
    }

    /**
     * The settled batch of the `MutationObserver`: the affordance is re-applied while
     * the mode is on, otherwise the stored history is marked again.
     */
    method OnDomSettled(store: Store, readOk: bool)
      requires Valid()
      modifies links
      ensures Valid()
      ensures var history := StoredHistory(StorageGet(readOk, store));
        links[..] == if modeEnabled then Feedback(old(links[..]), true, history)
                     else MarkedByAll(old(links[..]), history, false)
    {
      if modeEnabled {
        SetVisualFeedback(true, store, readOk);
      } else {
        MarkAllCopiedVideos(store, readOk);
      }
    }

    /**
     * `main`: the stored flag is applied only when it is defined, the stored history
     * is marked whatever the mode, and `CONTENT_SCRIPT_LOADED` is sent when the
     * extension context is valid.
     */
    method Initialize(store: Store, readOk: bool, contextValid: bool) returns (loadedSent: bool)
      requires Valid()
      requires !contextValid ==> !readOk
      modifies this, links
      ensures Valid()
      ensures var flag := StorageGet(readOk, store).isBVModeEnabled;
        modeEnabled == (if flag.Some? then flag.value else old(modeEnabled))
      ensures var history := StoredHistory(StorageGet(readOk, store));
        var flag := StorageGet(readOk, store).isBVModeEnabled;
        var shown := if flag.Some? then Feedback(old(links[..]), flag.value, history) else old(links[..]);
        links[..] == MarkedByAll(shown, history, modeEnabled)
      ensures loadedSent == contextValid
    {
      var result := StorageGet(readOk, store);
      if result.isBVModeEnabled.Some? {
        ToggleBVMode(result.isBVModeEnabled.value, store, readOk);
      }
      MarkAllCopiedVideos(store, readOk);
      loadedSent := contextValid;
    }
  }
}
