/**
 * The decoration that contentScript.js puts on video links, as values: the
 * `bv-copied` class, the overlay child (`bv-mode-overlay`, possibly also
 * `bv-copied-overlay`), the `bv-check-mark` children and the `copy` cursor.
 * Each function here is what one pass over the page does to one link or to all
 * of them; the loops that apply them in place are in content_script.dfy.
 */
module Decoration {
  import opened Text

  /** The overlay child of a link: none, a plain mode overlay, or one also marked copied. */
  datatype Overlay = NoOverlay | PlainOverlay | CopiedOverlay

  /** A link of the page and the decoration it carries. */
  datatype Link = Link(href: string, copied: bool, overlay: Overlay, checkMarks: nat, copyCursor: bool)

  /** `a[href*="/video/BV"]`: the links that get the mode affordance. */
  predicate HasAffordance(l: Link) {
    Contains(l.href, "/video/BV")
  }

  /** `a[href*="/video/<bv>"]`: the links that marking `bv` touches (substring match). */
  predicate Selects(l: Link, bv: string) {
    Contains(l.href, "/video/" + bv)
  }

  /**
   * The decoration the content script keeps consistent: an overlay is marked
   * copied only on a copied link, and a link carries one check mark exactly when
   * it is copied.
   */
  predicate WellFormed(l: Link) {
    (l.overlay == CopiedOverlay ==> l.copied) && l.checkMarks == (if l.copied then 1 else 0)
  }

  predicate AllWellFormed(ls: seq<Link>) {
    forall i :: 0 <= i < |ls| ==> WellFormed(ls[i])
  }

  /** The body of `markCopiedVideo`'s `forEach` for one selected link. */
  function MarkLink(l: Link, mode: bool): Link {
    l.(copied := true,
       overlay := if l.overlay != NoOverlay || mode then CopiedOverlay else NoOverlay,
       checkMarks := if l.checkMarks == 0 then 1 else l.checkMarks)
  }

  /** `markCopiedVideo(bv)` over the whole page while the mode flag is `mode`. */
  function Marked(ls: seq<Link>, bv: string, mode: bool): seq<Link> {
    seq(|ls|, i requires 0 <= i < |ls| => if Selects(ls[i], bv) then MarkLink(ls[i], mode) else ls[i])
  }

  /** `markCopiedVideo` called for each identifier of `history` in turn. */
  function MarkedByAll(ls: seq<Link>, history: seq<string>, mode: bool): seq<Link>
    decreases |history|
  {
    if |history| == 0 then ls
    else Marked(MarkedByAll(ls, history[..|history| - 1], mode), history[|history| - 1], mode)
  }

  /** The first pass of `clearCopiedMarks`: every check mark removed. */
  function WithoutCheckMark(l: Link): Link {
    l.(checkMarks := 0)
  }

  /** The second pass of `clearCopiedMarks` for one link. */
  function Uncopied(l: Link): Link {
    if l.copied then
      l.(copied := false, overlay := if l.overlay == CopiedOverlay then PlainOverlay else l.overlay)
    else l
  }

  /** `clearCopiedMarks` over the whole page. */
  function Cleared(ls: seq<Link>): seq<Link> {
    seq(|ls|, i requires 0 <= i < |ls| => Uncopied(WithoutCheckMark(ls[i])))
  }

  /** The body of `setVisualFeedback`'s `forEach` for one link. */
  function Afforded(l: Link, enabled: bool): Link {
    if HasAffordance(l) then
      l.(copyCursor := enabled, overlay := if enabled then PlainOverlay else NoOverlay)
    else l
  }

  /**
   * The effect of `setVisualFeedback(enabled)` once it runs: the affordance
   * applied to or removed from every video link, then, when enabled, every
   * identifier of the stored history marked again (with the mode flag on).
   */
  function Feedback(ls: seq<Link>, enabled: bool, history: seq<string>): seq<Link> {
    var afforded := seq(|ls|, i requires 0 <= i < |ls| => Afforded(ls[i], enabled));
    if enabled then MarkedByAll(afforded, history, true) else afforded
  }

  /**
   * Marking one link adds the copied class, adds a check mark only when there is
   * none, upgrades an existing overlay, creates a copied overlay only when there
   * was none and the mode is on, and keeps the link well formed.
   */
  lemma MarkLinkSpec(l: Link, mode: bool)
    requires WellFormed(l)
    ensures var r := MarkLink(l, mode);
      && r.href == l.href && r.copyCursor == l.copyCursor
      && r.copied && r.checkMarks == 1
      && (l.overlay != NoOverlay ==> r.overlay == CopiedOverlay)
      && (l.overlay == NoOverlay ==> r.overlay == if mode then CopiedOverlay else NoOverlay)
      && WellFormed(r)
  {
  }

  /** What marking `bv` does to the page: the selected links are marked, every other link is untouched. */
  lemma MarkedSpec(ls: seq<Link>, bv: string, mode: bool)
    ensures |Marked(ls, bv, mode)| == |ls|
    ensures forall i :: 0 <= i < |ls| && Selects(ls[i], bv) ==> Marked(ls, bv, mode)[i] == MarkLink(ls[i], mode)
    ensures forall i :: 0 <= i < |ls| && !Selects(ls[i], bv) ==> Marked(ls, bv, mode)[i] == ls[i]
  {
  }

  /** Marking twice is marking once. */
  lemma MarkIdempotent(ls: seq<Link>, bv: string, mode: bool)
    ensures Marked(Marked(ls, bv, mode), bv, mode) == Marked(ls, bv, mode)
  {
    var once := Marked(ls, bv, mode);
    var twice := Marked(once, bv, mode);
    forall i | 0 <= i < |ls| ensures twice[i] == once[i] {
      assert once[i].href == ls[i].href;
    }
  }

  /**
   * Because the selector matches a substring, marking an identifier also marks the
   * links of every longer identifier that starts with it.
   */
  lemma MarkReachesLongerIds(l: Link, bv: string, suffix: string)
    requires Selects(l, bv + suffix)
    ensures Selects(l, bv)
  {
    assert "/video/" + (bv + suffix) == ("/video/" + bv) + suffix;
    ContainsExtension(l.href, "/video/" + bv, suffix);
  }

  /** Every link an identifier extracted from a URL selects also carries the mode affordance. */
  lemma SelectedHasAffordance(l: Link, bv: string)
    requires |bv| >= 2 && bv[..2] == "BV"
    requires Selects(l, bv)
    ensures HasAffordance(l)
  {
    assert "/video/" + bv == "/video/BV" + bv[2..];
    ContainsExtension(l.href, "/video/BV", bv[2..]);
  }

  /** Some identifier of `history` selects link `l`. */
  predicate SelectedByAny(l: Link, history: seq<string>) {
    exists j :: 0 <= j < |history| && Selects(l, history[j])
  }

  /**
   * Marking a whole history marks exactly the links some identifier of it
   * selects, each one once, and leaves every other link as it was.
   */
  lemma {:induction false} MarkedByAllSpec(ls: seq<Link>, history: seq<string>, mode: bool)
    ensures |MarkedByAll(ls, history, mode)| == |ls|
    ensures forall i :: 0 <= i < |ls| ==>
      MarkedByAll(ls, history, mode)[i] == if SelectedByAny(ls[i], history) then MarkLink(ls[i], mode) else ls[i]
    decreases |history|
  {
    if |history| > 0 {
      var front := history[..|history| - 1];
      var last := history[|history| - 1];
      MarkedByAllSpec(ls, front, mode);
      var before := MarkedByAll(ls, front, mode);
      forall i | 0 <= i < |ls|
        ensures MarkedByAll(ls, history, mode)[i] == if SelectedByAny(ls[i], history) then MarkLink(ls[i], mode) else ls[i]
      {
        assert before[i].href == ls[i].href;
        if SelectedByAny(ls[i], front) {
          var j :| 0 <= j < |front| && Selects(ls[i], front[j]);
          assert history[j] == front[j];
        }
        if Selects(ls[i], last) {
          assert SelectedByAny(ls[i], history);
        }
      }
    }
  }

  /** Marking keeps every link well formed. */
  lemma MarkedWellFormed(ls: seq<Link>, history: seq<string>, mode: bool)
    requires AllWellFormed(ls)
    ensures AllWellFormed(MarkedByAll(ls, history, mode))
  {
    MarkedByAllSpec(ls, history, mode);
  }

  /**
   * After clearing, no link has a check mark, the copied class or a copied
   * overlay; plain overlays stay, a copied overlay falls back to a plain one, and
   * the URL and cursor are untouched.
   */
  lemma ClearedSpec(ls: seq<Link>)
    requires AllWellFormed(ls)
    ensures |Cleared(ls)| == |ls|
    ensures forall i :: 0 <= i < |ls| ==>
      var r := Cleared(ls)[i];
      && r.checkMarks == 0 && !r.copied && r.overlay != CopiedOverlay
      && r.overlay == (if ls[i].overlay == NoOverlay then NoOverlay else PlainOverlay)
      && r.href == ls[i].href && r.copyCursor == ls[i].copyCursor
      && WellFormed(r)
  {
  }

  /**
   * Turning the mode on and then off removes every affordance overlay and the copy
   * cursor from the video links and leaves the copy marks exactly as the first
   * toggle left them; a link that is neither a video link nor selected by the
   * history comes back exactly as it was.
   */
  lemma ToggleOnThenOff(ls: seq<Link>, history: seq<string>)
    ensures var on := Feedback(ls, true, history);
      var off := Feedback(on, false, history);
      && |off| == |on| == |ls|
      && forall i :: 0 <= i < |ls| ==>
        && off[i].href == ls[i].href
        && off[i].copied == on[i].copied && off[i].checkMarks == on[i].checkMarks
        && (HasAffordance(ls[i]) ==> off[i].overlay == NoOverlay && !off[i].copyCursor)
        && (!HasAffordance(ls[i]) && !SelectedByAny(ls[i], history) ==> off[i] == ls[i])
  {
    var afforded := seq(|ls|, i requires 0 <= i < |ls| => Afforded(ls[i], true));
    MarkedByAllSpec(afforded, history, true);
  }

  /** Applying feedback keeps every link well formed. */
  lemma FeedbackWellFormed(ls: seq<Link>, enabled: bool, history: seq<string>)
    requires AllWellFormed(ls)
    ensures AllWellFormed(Feedback(ls, enabled, history))
  {
    var afforded := seq(|ls|, i requires 0 <= i < |ls| => Afforded(ls[i], enabled));
    assert AllWellFormed(afforded);
    if enabled { MarkedWellFormed(afforded, history, true); }
  }
}
