/**
 * What the three components share: the message protocol (action names and reply
 * records), the persisted store, and how the storage wrappers behave when a call
 * fails. The browser's storage and messaging APIs themselves are not modelled;
 * every call into them is represented by an `ok` flag chosen by the caller.
 */
module Platform {
  import opened Wrappers

  const LoadedAction := "CONTENT_SCRIPT_LOADED"
  const BvCopiedAction := "BV_COPIED"
  const ToggleAction := "TOGGLE_BV_MODE"
  const ClearMarksAction := "CLEAR_COPIED_MARKS"
  const CheckAction := "CHECK_CONTENT_SCRIPT"

  /** A runtime message `{action, enabled?}`. */
  datatype Request = Request(action: string, enabled: Option<bool>)

  /** A reply object `{status, version?}` as the listeners send it. */
  datatype Reply = Reply(status: string, version: Option<string>)

  const SuccessReply := Reply("success", None)
  const AliveReply := Reply("alive", Some("1.0"))
  const ReceivedReply := Reply("background_received", None)

  /** `response && response.status === 'alive'`: a reply exists and says alive. */
  predicate IsAliveReply(r: Option<Reply>) {
    r.Some? && r.value.status == "alive"
  }

  /** A tab id used as a JavaScript condition: absent or 0 is falsy. */
  predicate IsTruthyId(id: Option<int>) {
    id.Some? && id.value != 0
  }

  /** The extension's persisted key-value store: the two keys it uses. */
  datatype Store = Store(isBVModeEnabled: Option<bool>, bvHistory: Option<seq<string>>)

  /** The `{}` that a failed `safeStorageGet` resolves to. */
  const EmptyResult := Store(None, None)

  /**
   * `safeStorageGet`: the stored values when the call succeeds (`ok`), otherwise `{}`
   * (invalidated context or a platform error; the wrapper never throws).
   */
  function StorageGet(ok: bool, s: Store): Store {
    if ok then s else EmptyResult
  }

  /** `result.bvHistory || []`. */
  function StoredHistory(r: Store): seq<string> {
    r.bvHistory.GetOr([])
  }

  /**
   * `safeStorageSet({bvHistory: h})`: writes only that key and only when the call
   * succeeds; a failed call leaves the store as it was (the wrapper resolves `false`).
   */
  function SetHistory(ok: bool, s: Store, h: seq<string>): Store {
    if ok then s.(bvHistory := Some(h)) else s
  }

  /** `safeStorageSet({isBVModeEnabled: b})`, with the same failure behaviour. */
  function SetModeFlag(ok: bool, s: Store, b: bool): Store {
    if ok then s.(isBVModeEnabled := Some(b)) else s
  }

  /**
   * A successful history write reads back as written, whatever was stored
   * before, and does not disturb the mode flag.
   */
  lemma HistoryRoundTrip(s: Store, h: seq<string>)
    ensures StoredHistory(StorageGet(true, SetHistory(true, s, h))) == h
    ensures StorageGet(true, SetHistory(true, s, h)).isBVModeEnabled == s.isBVModeEnabled
  {
  }

  /** A successful flag write reads back as written and does not disturb the history. */
  lemma ModeFlagRoundTrip(s: Store, b: bool)
    ensures StorageGet(true, SetModeFlag(true, s, b)).isBVModeEnabled == Some(b)
    ensures StoredHistory(StorageGet(true, SetModeFlag(true, s, b))) == StoredHistory(s)
  {
  }

  /**
   * The wrappers fail safe: a failed read looks like a fresh install (no
   * history, mode off) whatever is stored, and a failed write changes nothing.
   */
  lemma FailedCallsAreSafe(s: Store, h: seq<string>, b: bool)
    ensures StoredHistory(StorageGet(false, s)) == []
    ensures !StorageGet(false, s).isBVModeEnabled.GetOr(false)
    ensures SetHistory(false, s, h) == s && SetModeFlag(false, s, b) == s
  {
  }
}
