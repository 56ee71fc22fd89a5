/**
 * The pure half of `getAndCopyBV` in contentScript.js: extracting a BV number
 * from a URL with the pattern `/\/video\/(BV\w+)/`, and the history update
 * `[bv, ...history].slice(0, 50)` guarded by `history.includes(bv)`.
 */
module History {
  import opened Wrappers
  import opened Text

  /** The literal the pattern must find before the word characters. */
  const VideoMarker := "/video/BV"

  /** The history keeps at most this many identifiers. */
  const MaxEntries := 50

  /** The length of the longest prefix of `s` made of word characters (`\w+` is greedy). */
  function WordRun(s: string): (n: nat)
    ensures n <= |s|
    ensures forall k :: 0 <= k < n ==> IsWordChar(s[k])
    ensures n < |s| ==> !IsWordChar(s[n])
  {
    if |s| == 0 || !IsWordChar(s[0]) then 0 else 1 + WordRun(s[1..])
  }

  /** The pattern matches at index `i`: `/video/BV` followed by at least one word character. */
  predicate MatchesAt(url: string, i: int) {
    OccursAt(url, VideoMarker, i) && i + |VideoMarker| < |url| && IsWordChar(url[i + |VideoMarker|])
  }

  /** The leftmost match: nothing matches further left. */
  predicate FirstMatch(url: string, i: int) {
    MatchesAt(url, i) && forall j :: 0 <= j < i ==> !MatchesAt(url, j)
  }

  /** Capture group 1 of the match at `i`: `BV` and the whole run of word characters after it. */
  function CaptureAt(url: string, i: int): string
    requires MatchesAt(url, i)
  {
    url[i + 7..i + 9 + WordRun(url[i + 9..])]
  }

  /**
   * The capture is `BV` followed by one or more word characters, it stands in the
   * URL right after `/video/`, and the character after it (if any) is not a word character.
   */
  lemma CaptureShape(url: string, i: int)
    requires MatchesAt(url, i)
    ensures var bv := CaptureAt(url, i);
      && |bv| >= 3 && bv[..2] == "BV"
      && (forall k :: 0 <= k < |bv| ==> IsWordChar(bv[k]))
      && OccursAt(url, bv, i + 7)
      && (i + 7 + |bv| < |url| ==> !IsWordChar(url[i + 7 + |bv|]))
  {
    var n := WordRun(url[i + 9..]);
    var bv := CaptureAt(url, i);
    assert url[i..i + 9] == VideoMarker;
    assert bv[0] == url[i + 7] == 'B' && bv[1] == url[i + 8] == 'V';
    forall k | 2 <= k < |bv| ensures IsWordChar(bv[k]) {
      assert bv[k] == url[i + 9..][k - 2];
    }
    if i + 9 + n < |url| {
      assert url[i + 9 + n] == url[i + 9..][n];
    }
  }

  /** The search for the leftmost match, from index `i` on. */
  function ExtractFrom(url: string, i: nat): Option<string>
    decreases |url| - i
  {
    if i >= |url| then None
    else if MatchesAt(url, i) then Some(CaptureAt(url, i))
    else ExtractFrom(url, i + 1)
  }

  /** `url.match(/\/video\/(BV\w+)/)?.[1]`, with `None` for `null`. */
  function ExtractBv(url: string): Option<string> {
    ExtractFrom(url, 0)
  }

  lemma {:induction false} ExtractFromSpec(url: string, i: nat)
    requires forall j :: 0 <= j < i ==> !MatchesAt(url, j)
    ensures ExtractFrom(url, i).None? ==> forall j :: !MatchesAt(url, j)
    ensures ExtractFrom(url, i).Some? ==>
      exists k :: FirstMatch(url, k) && ExtractFrom(url, i).value == CaptureAt(url, k)
    decreases |url| - i
  {
    if i >= |url| {
      forall j ensures !MatchesAt(url, j) {
        if 0 <= j < i { } else { assert !OccursAt(url, VideoMarker, j); }
      }
    } else if MatchesAt(url, i) {
      assert FirstMatch(url, i);
    } else {
      ExtractFromSpec(url, i + 1);
    }
  }

  /**
   * Extraction finds the leftmost match and returns its capture, or nothing when
   * the pattern matches nowhere.
   */
  lemma ExtractBvSpec(url: string)
    ensures ExtractBv(url).None? <==> forall j :: !MatchesAt(url, j)
    ensures ExtractBv(url).Some? ==>
      exists k :: FirstMatch(url, k) && ExtractBv(url).value == CaptureAt(url, k)
  {
    ExtractFromSpec(url, 0);
  }

  /** At most one index is the leftmost match. */
  lemma FirstMatchUnique(url: string, i: int, k: int)
    requires FirstMatch(url, i) && FirstMatch(url, k)
    ensures i == k
  {
    
  }

  /** The identifier extracted is the capture at the leftmost match, whichever way that match is found. */
  lemma ExtractAtFirstMatch(url: string, i: int)
    requires FirstMatch(url, i)
    ensures ExtractBv(url) == Some(CaptureAt(url, i))
  {
    ExtractBvSpec(url);
    assert !forall j :: !MatchesAt(url, j);
    var k :| FirstMatch(url, k) && ExtractBv(url).value == CaptureAt(url, k);
    FirstMatchUnique(url, i, k);
  }

  /** A run made only of word characters is taken whole. */
  lemma WordRunWhole(s: string)
    requires forall k :: 0 <= k < |s| ==> IsWordChar(s[k])
    ensures WordRun(s) == |s|
  {
  }

  /** No match can start at a character other than `/`. */
  lemma NoMatchAt(url: string, j: nat)
    requires j < |url| && url[j] != '/'
    ensures !MatchesAt(url, j)
  {
    assert VideoMarker[0] == '/';
  }

  const ExampleUrl := "https://x.test/video/BV1xx411c7mD"

  lemma ExampleCapture(url: string)
    requires url == ExampleUrl
    ensures MatchesAt(url, 14) && CaptureAt(url, 14) == "BV1xx411c7mD"
  {
    assert url[14..23] == VideoMarker;
    var tail := url[23..];
    assert tail == "1xx411c7mD";
    WordRunWhole(tail);
    assert url[21..33] == "BV1xx411c7mD";
  }

  lemma ExampleNoEarlierMatch(url: string)
    requires url == ExampleUrl
    ensures forall j :: 0 <= j < 14 ==> !MatchesAt(url, j)
  {
    forall j | 0 <= j < 14 ensures !MatchesAt(url, j) {
      if j != 6 && j != 7 { NoMatchAt(url, j); } else { assert url[j + 1] != 'v'; }
    }
  }

  /** The worked example: clicking a link to `https://x.test/video/BV1xx411c7mD` extracts `BV1xx411c7mD`. */
  lemma ExtractExample(url: string)
    requires url == ExampleUrl
    ensures ExtractBv(url) == Some("BV1xx411c7mD")
  {
    ExampleCapture(url);
    ExampleNoEarlierMatch(url);
    ExtractAtFirstMatch(url, 14);
  }

  /** `[bv, ...history].slice(0, 50)`. */
  function NewHistory(bv: string, history: seq<string>): seq<string> {
    ([bv] + history)[..if |history| + 1 < MaxEntries then |history| + 1 else MaxEntries]
  }

  /** What the stored history becomes when `bv` is copied and the write succeeds. */
  function AddToHistory(history: seq<string>, bv: string): seq<string> {
    if bv in history then history else NewHistory(bv, history)
  }

  /** No identifier appears twice. */
  predicate Distinct(h: seq<string>) {
    forall i, j :: 0 <= i < j < |h| ==> h[i] != h[j]
  }

  /**
   * A new identifier goes to the front, the older entries follow in their order,
   * and the oldest ones fall off beyond 50.
   */
  lemma NewHistoryShape(bv: string, history: seq<string>)
    ensures var r := NewHistory(bv, history);
      && |r| == (if |history| < MaxEntries then |history| + 1 else MaxEntries)
      && r[0] == bv
      && r[1..] == history[..|r| - 1]
  {
    var r := NewHistory(bv, history);
    assert r[1..] == ([bv] + history)[1..|r|];
  }

  /** Prepending an absent identifier keeps the history duplicate-free. */
  lemma NewHistoryDistinct(bv: string, history: seq<string>)
    requires Distinct(history) && bv !in history
    ensures Distinct(NewHistory(bv, history))
  {
    var r := NewHistory(bv, history);
    NewHistoryShape(bv, history);
    forall i, j | 0 <= i < j < |r| ensures r[i] != r[j] {
      assert r[j] == history[j - 1];
      if i > 0 { assert r[i] == history[i - 1]; }
    }
  }

  /**
   * One history update: the identifier ends up in the history; a present
   * identifier leaves it unchanged; it stays within 50 entries and duplicate-free.
   */
  lemma AddToHistorySpec(history: seq<string>, bv: string)
    requires |history| <= MaxEntries && Distinct(history)
    ensures var r := AddToHistory(history, bv);
      && bv in r
      && (bv in history ==> r == history)
      && (bv !in history ==> r[0] == bv)
      && |r| <= MaxEntries
      && Distinct(r)
  {
    if bv !in history {
      NewHistoryShape(bv, history);
      NewHistoryDistinct(bv, history);
    }
  }

  /** The history after copying `bvs` in order, starting from `history`. */
  function AddAll(history: seq<string>, bvs: seq<string>): seq<string>
    decreases |bvs|
  {
    if |bvs| == 0 then history
    else AddToHistory(AddAll(history, bvs[..|bvs| - 1]), bvs[|bvs| - 1])
  }

  /**
   * For every sequence of copies the stored history stays within 50 entries and
   * duplicate-free, and the last identifier copied is in it.
   */
  lemma {:induction false} AddAllInvariant(history: seq<string>, bvs: seq<string>)
    requires |history| <= MaxEntries && Distinct(history)
    ensures |AddAll(history, bvs)| <= MaxEntries && Distinct(AddAll(history, bvs))
    ensures |bvs| > 0 ==> bvs[|bvs| - 1] in AddAll(history, bvs)
    decreases |bvs|
  {
    if |bvs| > 0 {
      AddAllInvariant(history, bvs[..|bvs| - 1]);
      AddToHistorySpec(AddAll(history, bvs[..|bvs| - 1]), bvs[|bvs| - 1]);
    }
  }
}
