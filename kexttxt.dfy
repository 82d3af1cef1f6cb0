/** SearchAndReplaceTxt: search-and-replace over Info.plist text. Inside a
    candidate match, bytes up to 0x20 are stepped over; the scan stops at a
    NUL; a matched span keeps its length, since it is overwritten with the
    replacement followed by one space per byte stepped over. The window test
    and the replacement are those of SearchAndReplace, applied to the
    visible bytes of the span. */
module KextTxt {
  import opened Efi
  import opened KextPatcher

  // ---------------------------------------------------------------------
  // Visible bytes

  /** The bytes a candidate steps over: control characters and space. */
  predicate Invisible(x: byte) {
    x <= 0x20
  }

  /** The bytes of s above 0x20, in order. */
  function Visible(s: seq<byte>): (r: seq<byte>)
    ensures |r| <= |s|
  {
    if s == [] then [] else (if Invisible(s[0]) then [] else [s[0]]) + Visible(s[1..])
  }

  /** Visible, one byte at a time from the right. */
  lemma {:induction false} VisibleSnoc(s: seq<byte>, x: byte)
    ensures Visible(s + [x]) == Visible(s) + (if Invisible(x) then [] else [x])
  {
    if s != [] {
      assert (s + [x])[1..] == s[1..] + [x];
      VisibleSnoc(s[1..], x);
    }
  }

  /** One byte of the window test: the Search byte equals the source byte or,
      unless wildcards are off, is the wildcard. */
  predicate ByteOk(x: byte, s: byte, wc: byte) {
    s == x || (wc != NoWildcard && s == wc)
  }

  /** Matches, byte by byte. */
  lemma {:induction false} MatchesBytes(w: seq<byte>, search: seq<byte>, wc: byte)
    requires |w| == |search|
    ensures Matches(w, search, wc) <==> forall t :: 0 <= t < |w| ==> ByteOk(w[t], search[t], wc)
    decreases |search|
  {
    if search != [] {
      MatchesBytes(w[1..], search[1..], wc);
      assert forall t :: 1 <= t < |w| ==> w[t] == w[1..][t - 1] && search[t] == search[1..][t - 1];
    }
  }

  /** Replacement, byte by byte. */
  lemma ReplacementBytes(w: seq<byte>, replace: seq<byte>, wc: byte)
    requires |w| == |replace|
    ensures forall t :: 0 <= t < |w| ==>
      Replacement(w, replace, wc)[t] == if wc != NoWildcard && replace[t] == wc then w[t] else replace[t]
  {
    if wc != NoWildcard {
      InstantiateBytes(w, replace, wc);
    }
  }

  /** SetMem (P, K, 0x20). */
  function Spaces(k: nat): (r: seq<byte>)
    ensures |r| == k && forall i :: 0 <= i < k ==> r[i] == 0x20
  {
    if k == 0 then [] else [0x20] + Spaces(k - 1)
  }

  // ---------------------------------------------------------------------
  // One candidate

  /** The walk over a candidate from k with j Search bytes met so far: the
      index just past the last Search byte when the rest of Search is met
      before a NUL or the end of the buffer, stepping over invisible bytes;
      None when a byte fails the test or the text ends first. */
  function Walk(b: seq<byte>, k: nat, search: seq<byte>, j: nat, wc: byte): (r: Option<nat>)
    requires k <= |b| && j <= |search|
    ensures r.Some? ==> k + (|search| - j) <= r.value <= |b|
    decreases |b| - k
  {
    if j == |search| then Some(k)
    else if k == |b| || b[k] == 0 then None
    else if Invisible(b[k]) then Walk(b, k + 1, search, j, wc)
    else if ByteOk(b[k], search[j], wc) then Walk(b, k + 1, search, j + 1, wc)
    else None
  }

  /** A successful walk spans no NUL, and its visible bytes are as many as
      the rest of Search and match it. */
  lemma {:induction false} WalkMatches(b: seq<byte>, k: nat, search: seq<byte>, j: nat, wc: byte)
    requires k <= |b| && j <= |search| && Walk(b, k, search, j, wc).Some?
    ensures var e := Walk(b, k, search, j, wc).value;
      (forall i :: k <= i < e ==> b[i] != 0)
      && |Visible(b[k..e])| == |search| - j && Matches(Visible(b[k..e]), search[j..], wc)
    decreases |b| - k
  {
    var e := Walk(b, k, search, j, wc).value;
    if j == |search| {
    } else {
      var j' := if Invisible(b[k]) then j else j + 1;
      WalkMatches(b, k + 1, search, j', wc);
      assert b[k..e][1..] == b[k + 1..e];
      if !Invisible(b[k]) {
        var v := Visible(b[k..e]);
        assert v == [b[k]] + Visible(b[k + 1..e]);
        assert v[1..] == Visible(b[k + 1..e]) && v[0] == b[k];
        assert search[j..][1..] == search[j + 1..] && search[j..][0] == search[j];
      } else {
        assert Visible(b[k..e]) == Visible(b[k + 1..e]);
      }
    }
  }

  /** The walk reads nothing before k: two buffers that agree from q <= k on
      walk alike. */
  lemma {:induction false} WalkTail(b: seq<byte>, b': seq<byte>, q: nat, k: nat, search: seq<byte>, j: nat, wc: byte)
    requires |b'| == |b| && q <= k <= |b| && j <= |search| && b'[q..] == b[q..]
    ensures Walk(b', k, search, j, wc) == Walk(b, k, search, j, wc)
    decreases |b| - k
  {
    if j < |search| && k < |b| {
      assert b'[k] == b'[q..][k - q] == b[q..][k - q] == b[k];
      WalkTail(b, b', q, k + 1, search, if Invisible(b[k]) then j else j + 1, wc);
    }
  }

  /** The span [start, end) the replacement overwrites. */
  function Fill(b: seq<byte>, w: Window, search: seq<byte>, replace: seq<byte>, wc: byte): (r: seq<byte>)
    requires w.start <= w.end <= |b| && |Visible(b[w.start..w.end])| == |search| == |replace|
    ensures |r| == w.end - w.start
  {
    Replacement(Visible(b[w.start..w.end]), replace, wc) + Spaces(w.end - w.start - |search|)
  }

  // ---------------------------------------------------------------------
  // The scan

  /** The first candidate start at or after k, before the first NUL, whose
      walk succeeds, with the end of its span. */
  function FindTxt(b: seq<byte>, k: nat, search: seq<byte>, wc: byte): (r: Option<Window>)
    requires k <= |b|
    ensures r.Some? ==> k <= r.value.start < |b| && Walk(b, r.value.start, search, 0, wc) == Some(r.value.end)
                        && |Visible(b[r.value.start..r.value.end])| == |search|
    decreases |b| - k
  {
    if k == |b| || b[k] == 0 then None
    else match Walk(b, k, search, 0, wc)
      case Some(e) => WalkMatches(b, k, search, 0, wc); Some(Window(k, e))
      case None => FindTxt(b, k + 1, search, wc)
  }

  /** The scan from `from` with the budget of MaxReplaces: while |Search|
      bytes remain and the budget lasts, replace the first candidate and
      resume after its span. */
  function Txt(b: seq<byte>, from: nat, search: seq<byte>, replace: seq<byte>, wc: byte, unlimited: bool,
               left: int): (r: Outcome)
    requires from <= |b| && 0 < |search| == |replace|
    ensures |r.bytes| == |b|
    decreases |b| - from
  {
    if from + |search| > |b| || !MayReplace(unlimited, left) then Outcome(b, [])
    else match FindTxt(b, from, search, wc)
      case None => Outcome(b, [])
      case Some(w) =>
        var r := Txt(Splice(b, w.start, Fill(b, w, search, replace, wc)), w.end, search, replace, wc, unlimited,
                     left - 1);
        Outcome(r.bytes, [w] + r.windows)
  }

  /** SearchAndReplaceTxt's result: nothing for an empty Search; otherwise
      the scan from the start with MaxReplaces <= 0 meaning no limit. */
  function SearchAndReplaceTxtSpec(b: seq<byte>, search: seq<byte>, replace: seq<byte>, wc: byte,
                                   maxReplaces: int): (r: Outcome)
    requires |replace| == |search|
    ensures |r.bytes| == |b|
  {
    if |search| == 0 then Outcome(b, [])
    else Txt(b, 0, search, replace, wc, maxReplaces <= 0, maxReplaces)
  }

  // ---------------------------------------------------------------------
  // Steps of the scan

  lemma TxtHit(b: seq<byte>, from: nat, search: seq<byte>, replace: seq<byte>, wc: byte, unlimited: bool, left: int,
               w: Window, b': seq<byte>, left': int)
    requires from + |search| <= |b| && 0 < |search| == |replace| && MayReplace(unlimited, left)
    requires FindTxt(b, from, search, wc) == Some(w)
    requires b' == Splice(b, w.start, Fill(b, w, search, replace, wc)) && left' == left - 1
    ensures Txt(b, from, search, replace, wc, unlimited, left)
      == Outcome(Txt(b', w.end, search, replace, wc, unlimited, left').bytes,
                 [w] + Txt(b', w.end, search, replace, wc, unlimited, left').windows)
  {
  }

  lemma TxtDone(b: seq<byte>, from: nat, search: seq<byte>, replace: seq<byte>, wc: byte, unlimited: bool, left: int)
    requires from <= |b| && 0 < |search| == |replace|
    requires from + |search| > |b| || !MayReplace(unlimited, left) || FindTxt(b, from, search, wc).None?
    ensures Txt(b, from, search, replace, wc, unlimited, left) == Outcome(b, [])
  {
  }

  // ---------------------------------------------------------------------
  // The first NUL

  /** The index of the first NUL at or after k, or |b| when there is none. */
  function NulFrom(b: seq<byte>, k: nat): (z: nat)
    requires k <= |b|
    ensures k <= z <= |b|
    decreases |b| - k
  {
    if k == |b| || b[k] == 0 then k else NulFrom(b, k + 1)
  }

  /** NulFrom is the first NUL: none before it, and one there unless the
      buffer ends first. */
  lemma {:induction false} NulFromIs(b: seq<byte>, k: nat)
    requires k <= |b|
    ensures forall i :: k <= i < NulFrom(b, k) ==> b[i] != 0
    ensures NulFrom(b, k) < |b| ==> b[NulFrom(b, k)] == 0
    decreases |b| - k
  {
    if k < |b| && b[k] != 0 {
      NulFromIs(b, k + 1);
    }
  }

  /** Any start before the first NUL sees the same first NUL. */
  lemma {:induction false} NulFromSkip(b: seq<byte>, from: nat, k: nat)
    requires from <= |b| && from <= k <= NulFrom(b, from)
    ensures NulFrom(b, k) == NulFrom(b, from)
    decreases k - from
  {
    if from < k {
      NulFromSkip(b, from + 1, k);
    }
  }

  /** Two buffers that agree from q <= k on have the same first NUL after k. */
  lemma {:induction false} NulFromTail(b: seq<byte>, b': seq<byte>, q: nat, k: nat)
    requires |b'| == |b| && q <= k <= |b| && b'[q..] == b[q..]
    ensures NulFrom(b', k) == NulFrom(b, k)
    decreases |b| - k
  {
    if k < |b| {
      assert b'[k] == b'[q..][k - q] == b[q..][k - q] == b[k];
      NulFromTail(b, b', q, k + 1);
    }
  }

  /** A walk never passes the first NUL. */
  lemma {:induction false} WalkBeforeNul(b: seq<byte>, k: nat, search: seq<byte>, j: nat, wc: byte)
    requires k <= |b| && j <= |search| && Walk(b, k, search, j, wc).Some?
    ensures Walk(b, k, search, j, wc).value <= NulFrom(b, k)
    decreases |b| - k
  {
    if j < |search| {
      WalkBeforeNul(b, k + 1, search, if Invisible(b[k]) then j else j + 1, wc);
    }
  }

  /** A candidate starts before the first NUL and its span ends at or
      before it. */
  lemma {:induction false} FindTxtBeforeNul(b: seq<byte>, k: nat, search: seq<byte>, wc: byte)
    requires k <= |b| && FindTxt(b, k, search, wc).Some?
    ensures var w := FindTxt(b, k, search, wc).value; w.start < NulFrom(b, k) && w.end <= NulFrom(b, k)
    decreases |b| - k
  {
    var w := FindTxt(b, k, search, wc).value;
    if w.start == k {
      WalkBeforeNul(b, k, search, 0, wc);
    } else {
      FindTxtBeforeNul(b, k + 1, search, wc);
    }
  }

  /** FindTxt finds the left-most candidate: every start it passed over,
      and every start before the first NUL when it finds none, fails the
      walk. */
  lemma {:induction false} FindTxtLeftmost(b: seq<byte>, k: nat, search: seq<byte>, wc: byte, p: nat)
    requires k <= |b| && k <= p < NulFrom(b, k)
    requires FindTxt(b, k, search, wc).Some? ==> p < FindTxt(b, k, search, wc).value.start
    ensures Walk(b, p, search, 0, wc).None?
    decreases p - k
  {
    if k < p {
      FindTxtLeftmost(b, k + 1, search, wc, p);
    }
  }

  // ---------------------------------------------------------------------
  // What the scan leaves

  /** The replaced spans lie between `from` and the first NUL after it, in
      order and disjoint, each at least |Search| long; no more of them than
      MaxReplaces allows. */
  lemma {:induction false} TxtWindows(b: seq<byte>, from: nat, search: seq<byte>, replace: seq<byte>, wc: byte,
                                      unlimited: bool, left: int)
    requires from <= |b| && 0 < |search| == |replace|
    ensures Ordered(Txt(b, from, search, replace, wc, unlimited, left).windows, from, NulFrom(b, from), |search|)
    ensures !unlimited ==> |Txt(b, from, search, replace, wc, unlimited, left).windows| <= if left < 0 then 0 else left
    decreases |b| - from, 1
  {
    var n := |search|;
    if from + n <= |b| && MayReplace(unlimited, left) && FindTxt(b, from, search, wc).Some? {
      var w := FindTxt(b, from, search, wc).value;
      var b' := Splice(b, w.start, Fill(b, w, search, replace, wc));
      TxtHit(b, from, search, replace, wc, unlimited, left, w, b', left - 1);
      FindTxtBeforeNul(b, from, search, wc);
      SpliceTail(b, w.start, Fill(b, w, search, replace, wc));
      TxtWindowsAfterHit(b, from, search, replace, wc, unlimited, left, w, b');
    }
  }

  /** The step of TxtWindows past a replaced span. */
  lemma {:induction false} TxtWindowsAfterHit(b: seq<byte>, from: nat, search: seq<byte>, replace: seq<byte>,
                                              wc: byte, unlimited: bool, left: int, w: Window, b': seq<byte>)
    requires from <= |b| && 0 < |search| == |replace| && MayReplace(unlimited, left)
    requires from <= w.start && w.start + |search| <= w.end <= NulFrom(b, from)
    requires |b'| == |b| && b'[w.end..] == b[w.end..]
    ensures var r' := Txt(b', w.end, search, replace, wc, unlimited, left - 1);
      Ordered([w] + r'.windows, from, NulFrom(b, from), |search|)
      && (!unlimited ==> |[w] + r'.windows| <= if left < 0 then 0 else left)
    decreases |b| - w.start, 0
  {
    TxtWindows(b', w.end, search, replace, wc, unlimited, left - 1);
    NulFromTail(b, b', w.end, w.end);
    NulFromSkip(b, from, w.end);
    var ws' := Txt(b', w.end, search, replace, wc, unlimited, left - 1).windows;
    OrderedCons(w, ws', from, NulFrom(b, from), |search|);
  }

  /** Every byte outside the replaced spans is unchanged. */
  lemma {:induction false} TxtKeeps(b: seq<byte>, from: nat, search: seq<byte>, replace: seq<byte>, wc: byte,
                                    unlimited: bool, left: int)
    requires from <= |b| && 0 < |search| == |replace|
    ensures KeepsUncovered(b, Txt(b, from, search, replace, wc, unlimited, left).bytes,
                           Txt(b, from, search, replace, wc, unlimited, left).windows)
    decreases |b| - from
  {
    var n := |search|;
    if from + n <= |b| && MayReplace(unlimited, left) && FindTxt(b, from, search, wc).Some? {
      var w := FindTxt(b, from, search, wc).value;
      var fill := Fill(b, w, search, replace, wc);
      var b' := Splice(b, w.start, fill);
      TxtHit(b, from, search, replace, wc, unlimited, left, w, b', left - 1);
      TxtKeeps(b', w.end, search, replace, wc, unlimited, left - 1);
      SpliceKeeps(b, w.start, fill);
      var r' := Txt(b', w.end, search, replace, wc, unlimited, left - 1);
      forall i | 0 <= i < |b| && !Covered([w] + r'.windows, i)
        ensures r'.bytes[i] == b[i]
      {
        CoveredCons(w, r'.windows, i);
      }
    }
  }

  /** Nothing from the first NUL on changes. */
  lemma TxtStopsAtNul(b: seq<byte>, from: nat, search: seq<byte>, replace: seq<byte>, wc: byte,
                      unlimited: bool, left: int)
    requires from <= |b| && 0 < |search| == |replace|
    ensures Txt(b, from, search, replace, wc, unlimited, left).bytes[NulFrom(b, from)..] == b[NulFrom(b, from)..]
  {
    var r := Txt(b, from, search, replace, wc, unlimited, left);
    var z := NulFrom(b, from);
    TxtKeeps(b, from, search, replace, wc, unlimited, left);
    TxtWindows(b, from, search, replace, wc, unlimited, left);
    forall i | z <= i < |b| ensures r.bytes[i] == b[i] {
      OrderedAbove(r.windows, from, z, |search|, i);
    }
  }

  /** Nothing at or above hi is covered. */
  lemma {:induction false} OrderedAbove(ws: seq<Window>, lo: nat, hi: nat, width: nat, i: int)
    requires Ordered(ws, lo, hi, width) && hi <= i
    ensures !Covered(ws, i)
    decreases |ws|
  {
    if ws != [] {
      OrderedAbove(ws[1..], ws[0].end, hi, width, i);
    }
  }

  /** The span w matched in b (its walk ends at w.end) and holds its fill in r. */
  predicate TxtReplacedAt(b: seq<byte>, r: seq<byte>, w: Window, search: seq<byte>, replace: seq<byte>, wc: byte)
    requires |replace| == |search|
  {
    w.start <= w.end <= |b| && |r| == |b|
    && Walk(b, w.start, search, 0, wc) == Some(w.end) && |Visible(b[w.start..w.end])| == |search|
    && r[w.start..w.end] == Fill(b, w, search, replace, wc)
  }

  predicate TxtReplacedEach(b: seq<byte>, r: seq<byte>, ws: seq<Window>, search: seq<byte>, replace: seq<byte>,
                            wc: byte)
    requires |replace| == |search|
    decreases |ws|
  {
    ws == [] || (TxtReplacedAt(b, r, ws[0], search, replace, wc) && TxtReplacedEach(b, r, ws[1..], search, replace, wc))
  }

  /** TxtReplacedEach means: every span holds a replaced match. */
  lemma {:induction false} TxtReplacedEachIs(b: seq<byte>, r: seq<byte>, ws: seq<Window>, search: seq<byte>,
                                             replace: seq<byte>, wc: byte)
    requires |replace| == |search|
    ensures TxtReplacedEach(b, r, ws, search, replace, wc)
      <==> forall k :: 0 <= k < |ws| ==> TxtReplacedAt(b, r, ws[k], search, replace, wc)
    decreases |ws|
  {
    if ws != [] {
      TxtReplacedEachIs(b, r, ws[1..], search, replace, wc);
      assert forall k :: 1 <= k < |ws| ==> ws[k] == ws[1..][k - 1];
    }
  }

  /** Every replaced span was a candidate in the original buffer (its
      visible bytes match Search, with no NUL inside) and now holds the
      replacement followed by spaces. */
  lemma {:induction false} TxtReplaces(b: seq<byte>, from: nat, search: seq<byte>, replace: seq<byte>, wc: byte,
                                       unlimited: bool, left: int)
    requires from <= |b| && 0 < |search| == |replace|
    ensures var r := Txt(b, from, search, replace, wc, unlimited, left);
      TxtReplacedEach(b, r.bytes, r.windows, search, replace, wc)
    decreases |b| - from, 1
  {
    var n := |search|;
    if from + n <= |b| && MayReplace(unlimited, left) && FindTxt(b, from, search, wc).Some? {
      var w := FindTxt(b, from, search, wc).value;
      var b' := Splice(b, w.start, Fill(b, w, search, replace, wc));
      TxtHit(b, from, search, replace, wc, unlimited, left, w, b', left - 1);
      TxtReplacesAfterHit(b, search, replace, wc, unlimited, left, w, b');
    }
  }

  /** The step of TxtReplaces past a replaced span. */
  lemma {:induction false} TxtReplacesAfterHit(b: seq<byte>, search: seq<byte>, replace: seq<byte>, wc: byte,
                                               unlimited: bool, left: int, w: Window, b': seq<byte>)
    requires 0 < |search| == |replace| && w.start <= |b| && Walk(b, w.start, search, 0, wc) == Some(w.end)
    requires |Visible(b[w.start..w.end])| == |search|
    requires b' == Splice(b, w.start, Fill(b, w, search, replace, wc))
    ensures var r' := Txt(b', w.end, search, replace, wc, unlimited, left - 1);
      TxtReplacedEach(b, r'.bytes, [w] + r'.windows, search, replace, wc)
    decreases |b| - w.start, 0
  {
    TxtReplaces(b', w.end, search, replace, wc, unlimited, left - 1);
    var r' := Txt(b', w.end, search, replace, wc, unlimited, left - 1);
    TxtWindows(b', w.end, search, replace, wc, unlimited, left - 1);
    TxtHitReplaced(b, search, replace, wc, unlimited, left, w, b');
    SpliceTail(b, w.start, Fill(b, w, search, replace, wc));
    TxtReplacedEachPast(b, b', w.end, r'.bytes, r'.windows, w.end, NulFrom(b', w.end), search, replace, wc);
    assert ([w] + r'.windows)[1..] == r'.windows;
  }

  /** Spans from lo on, replaced in bytes that agree with b from q <= lo on,
      are replaced relative to b. */
  lemma {:induction false} TxtReplacedEachPast(b: seq<byte>, b': seq<byte>, q: nat, r: seq<byte>, ws: seq<Window>,
                                               lo: nat, hi: nat, search: seq<byte>, replace: seq<byte>, wc: byte)
    requires |replace| == |search| && |b'| == |b| && q <= lo <= |b| && b'[q..] == b[q..]
    requires Ordered(ws, lo, hi, |search|) && TxtReplacedEach(b', r, ws, search, replace, wc)
    ensures TxtReplacedEach(b, r, ws, search, replace, wc)
    decreases |ws|
  {
    if ws != [] {
      TxtReplacedPastSplice(b, b', q, r, ws[0], search, replace, wc);
      TxtReplacedEachPast(b, b', q, r, ws[1..], ws[0].end, hi, search, replace, wc);
    }
  }

  /** A span replaced in bytes that agree with b from p on is replaced
      relative to b. */
  lemma TxtReplacedPastSplice(b: seq<byte>, b': seq<byte>, p: nat, r: seq<byte>, w: Window,
                              search: seq<byte>, replace: seq<byte>, wc: byte)
    requires |replace| == |search| && |b'| == |b| && p <= w.start <= |b| && b'[p..] == b[p..]
    requires TxtReplacedAt(b', r, w, search, replace, wc)
    ensures TxtReplacedAt(b, r, w, search, replace, wc)
  {
    WalkTail(b, b', p, w.start, search, 0, wc);
    TailSlice(b, b', p, w.start, w.end - w.start);
  }

  /** The span a step replaces survives the rest of the scan. */
  lemma TxtHitReplaced(b: seq<byte>, search: seq<byte>, replace: seq<byte>, wc: byte, unlimited: bool, left: int,
                       w: Window, b': seq<byte>)
    requires 0 < |search| == |replace| && w.start <= |b| && Walk(b, w.start, search, 0, wc) == Some(w.end)
    requires |Visible(b[w.start..w.end])| == |search|
    requires b' == Splice(b, w.start, Fill(b, w, search, replace, wc))
    ensures TxtReplacedAt(b, Txt(b', w.end, search, replace, wc, unlimited, left - 1).bytes, w, search, replace, wc)
  {
    var r' := Txt(b', w.end, search, replace, wc, unlimited, left - 1);
    TxtKeeps(b', w.end, search, replace, wc, unlimited, left - 1);
    TxtWindows(b', w.end, search, replace, wc, unlimited, left - 1);
    KeepsBelow(b', r'.bytes, r'.windows, w.end, NulFrom(b', w.end), |search|);
    assert r'.bytes[w.start..w.end] == r'.bytes[..w.end][w.start..];
    assert b'[w.start..w.end] == b'[..w.end][w.start..];
  }

  // ---------------------------------------------------------------------
  // SearchAndReplaceTxt

  /** The comparison loop for the candidate at s: steps over invisible
      bytes, compares the visible ones with Search and builds the
      replacement in a buffer of its own. */
  method MatchCandidate(src: array<byte>, s: nat, search: seq<byte>, replace: seq<byte>, wc: byte)
    returns (found: bool, e: nat, newReplace: seq<byte>)
    requires s <= src.Length && |replace| == |search|
    ensures found <==> Walk(src[..], s, search, 0, wc).Some?
    ensures found ==> Walk(src[..], s, search, 0, wc) == Some(e) && |Visible(src[s..e])| == |search|
                      && newReplace == Replacement(Visible(src[s..e]), replace, wc)
  {
    ghost var b := src[..];
    var n := |search|;
    var k, j := s, 0;
    var nr := replace;
    ghost var vis: seq<byte> := [];
    var broke := false;
    while k < src.Length && src[k] != 0 && j < n
      invariant s <= k <= src.Length && j <= n
      invariant Walk(b, s, search, 0, wc) == Walk(b, k, search, j, wc)
      invariant vis == Visible(b[s..k]) && |vis| == j
      invariant |nr| == n
      invariant forall t :: 0 <= t < n ==> nr[t] == if t < j && wc != NoWildcard && replace[t] == wc then vis[t] else replace[t]
    {
      assert b[s..k + 1] == b[s..k] + [b[k]];
      VisibleSnoc(b[s..k], b[k]);
      if src[k] <= 0x20 {
        k := k + 1;
        continue;
      }
      if !ByteOk(src[k], search[j], wc) {
        broke := true;
        break;
      }
      if wc != NoWildcard && replace[j] == wc {
        nr := nr[j := src[k]];
      }
      vis := vis + [src[k]];
      k, j := k + 1, j + 1;
    }
    found := !broke && j == n;
    e := k;
    if found {
      ReplacementBytes(vis, replace, wc);
      newReplace := nr;
    } else {
      newReplace := [];
    }
  }

  /** The candidate loop from `from`: tries each start in turn until one
      matches or a NUL is reached; hands back the span and what it is
      overwritten with. */
  method FindCandidate(src: array<byte>, from: nat, search: seq<byte>, replace: seq<byte>, wc: byte)
    returns (w: Option<Window>, fill: seq<byte>)
    requires from <= src.Length && 0 < |search| == |replace|
    ensures w == FindTxt(src[..], from, search, wc)
    ensures w.Some? ==> fill == Fill(src[..], w.value, search, replace, wc)
  {
    var k := from;
    while k < src.Length && src[k] != 0
      invariant from <= k <= src.Length
      invariant FindTxt(src[..], from, search, wc) == FindTxt(src[..], k, search, wc)
      decreases src.Length - k
    {
      var found, e, newReplace := MatchCandidate(src, k, search, replace, wc);
      if found {
        w := Some(Window(k, e));
        fill := newReplace + Spaces(e - k - |search|);
        return;
      }
      k := k + 1;
    }
    w, fill := None, [];
  }

  /** SearchAndReplaceTxt: the text is changed to the scan's result and the
      number of replaced spans is returned; a null buffer or an empty Search
      changes nothing. */
  method SearchAndReplaceTxt(src: array?<byte>, search: seq<byte>, replace: seq<byte>, wc: byte, maxReplaces: int)
    returns (n: nat)
    requires |replace| == |search|
    modifies src
    ensures src == null ==> n == 0
    ensures src != null ==>
      var r := SearchAndReplaceTxtSpec(old(src[..]), search, replace, wc, maxReplaces);
      src[..] == r.bytes && n == |r.windows|
  {
    var unlimited := maxReplaces <= 0;
    var left := maxReplaces;
    n := 0;
    if src == null || |search| == 0 {
      return;
    }
    ghost var total := Txt(src[..], 0, search, replace, wc, unlimited, left);
    var from := 0;
    while from + |search| <= src.Length && MayReplace(unlimited, left)
      invariant from <= src.Length
      invariant Txt(src[..], from, search, replace, wc, unlimited, left).bytes == total.bytes
      invariant n + |Txt(src[..], from, search, replace, wc, unlimited, left).windows| == |total.windows|
      decreases src.Length - from
    {
      ghost var b, l := src[..], left;
      var w, fill := FindCandidate(src, from, search, replace, wc);
      if w.None? {
        break;
      }
      CopyAt(src, w.value.start, fill);
      TxtHit(b, from, search, replace, wc, unlimited, l, w.value, src[..], l - 1);
      n, left, from := n + 1, left - 1, w.value.end;
    }
    TxtDone(src[..], from, search, replace, wc, unlimited, left);
  }

  // ---------------------------------------------------------------------
  // SearchAndReplaceTxt as written

  /** The variables of SearchAndReplaceTxt as written, between rounds of its
      loops: the text, the caller's Replace (NewReplace is the same buffer,
      so captures land in it), Source, Pos as a text index (None for NULL),
      FirstMatch, Skip, the capture index i, the search index j of the
      comparison loop, the count, MaxReplaces, and whether Replace was
      indexed past its end (a read or write outside the caller's buffer). */
  datatype TxtState = TxtState(bytes: seq<byte>, rep: seq<byte>, source: nat, pos: Option<nat>, firstMatch: nat,
                               skip: nat, i: nat, j: nat, count: nat, left: int, overrun: bool)

  /** The comparison loop as written: no comparison at all when Wildcard is
      0xFF; i counts every byte passed, skipped ones included, and is not
      reset between candidates. The loop tests *Source before anything else
      and never tests End, so reaching the end of a text with no NUL reads
      past the buffer: the model stops there and flags the overrun. */
  function MatchAsWritten(st: TxtState, search: seq<byte>, wc: byte): (r: TxtState)
    requires st.source <= |st.bytes| && st.j <= |search|
    ensures st.source <= r.source <= |st.bytes| && r.j <= |search|
    ensures r.bytes == st.bytes && |r.rep| == |st.rep|
    ensures st.overrun ==> r.overrun
    ensures r.source == |st.bytes| ==> r.overrun
    ensures !r.overrun ==> st.source <= r.source && r.source < |st.bytes|
    decreases |st.bytes| - st.source
  {
    var b, k := st.bytes, st.source;
    if k == |b| then st.(overrun := true)
    else if b[k] == 0 || st.j == |search| then st
    else if b[k] <= 0x20 then MatchAsWritten(st.(source := k + 1, skip := st.skip + 1, i := st.i + 1), search, wc)
    else if wc != NoWildcard && b[k] != search[st.j] && wc != search[st.j] then st
    else
      var captured :=
        if wc == NoWildcard then st
        else if st.i >= |st.rep| then st.(overrun := true)
        else if st.rep[st.i] == wc then st.(rep := st.rep[st.i := b[k]])
        else st;
      MatchAsWritten(captured.(source := k + 1, j := st.j + 1, i := st.i + 1), search, wc)
  }

  /** The candidate loop as written: Pos keeps its value from the previous
      round when Source already stands on a NUL. It too tests only for a
      NUL, so a text with no NUL is read past its end (flagged). */
  function CandidatesAsWritten(st: TxtState, search: seq<byte>, wc: byte): (r: TxtState)
    requires st.source <= |st.bytes|
    ensures r.bytes == st.bytes && |r.rep| == |st.rep|
    ensures st.overrun ==> r.overrun
    ensures r.source == |st.bytes| ==> r.overrun
    ensures (forall i :: st.source <= i < |st.bytes| ==> st.bytes[i] != 0) ==> r.overrun || r.j == |search|
    decreases |st.bytes| - st.source
  {
    var k := st.source;
    if k == |st.bytes| then st.(overrun := true)
    else if st.bytes[k] == 0 then st
    else
      var m := MatchAsWritten(st.(pos := Some(k), firstMatch := k, skip := 0, j := 0), search, wc);
      if m.j == |search| then m.(pos := Some(k))
      else CandidatesAsWritten(m.(pos := None, source := k + 1), search, wc)
  }

  /** The outer loop as written, for at most `fuel` rounds; None when the
      rounds run out before the loop exits. The span CopyMem and SetMem
      write lies inside the text; were it not, the round reports an overrun
      instead. */
  function RunAsWritten(st: TxtState, search: seq<byte>, wc: byte, unlimited: bool, fuel: nat): (r: Option<TxtState>)
    requires 0 < |search| == |st.rep|
    decreases fuel
  {
    var n := |search|;
    if fuel == 0 then None
    else if st.source + n > |st.bytes| || !MayReplace(unlimited, st.left) then Some(st)
    else
      var c := CandidatesAsWritten(st.(i := 0), search, wc);
      if c.pos.None? then Some(c)
      else if c.pos.value + n + c.skip > |c.bytes| then Some(c.(overrun := true))
      else RunAsWritten(ReplacedAsWritten(c, n), search, wc, unlimited, fuel - 1)
  }

  /** The end of a round that found a match at Pos: Replace is copied over
      it, Skip spaces follow, and the scan resumes after them. */
  function ReplacedAsWritten(c: TxtState, n: nat): TxtState
    requires c.pos.Some? && |c.rep| == n && c.pos.value + n + c.skip <= |c.bytes|
  {
    var b1 := Splice(c.bytes, c.pos.value, c.rep);
    c.(bytes := Splice(b1, c.pos.value + n, Spaces(c.skip)), count := c.count + 1, left := c.left - 1,
       source := c.firstMatch + n + c.skip)
  }

  /** The variables on entry. */
  function StartAsWritten(b: seq<byte>, replace: seq<byte>, maxReplaces: int): TxtState {
    TxtState(b, replace, 0, None, 0, 0, 0, 0, 0, maxReplaces, false)
  }

  /** With Wildcard 0xFF the comparison loop compares nothing, so any
      |Search| visible bytes are replaced; the intended exact compare, as in
      SearchAndReplace, finds nothing. */
  lemma TxtNoWildcardComparesNothing()
    ensures var b: seq<byte> := [97, 98, 0];
      var r := RunAsWritten(StartAsWritten(b, [99, 100], 0), [120, 121], NoWildcard, true, 2);
      r.Some? && r.value.bytes == [99, 100, 0] && r.value.count == 1
      && SearchAndReplaceTxtSpec(b, [120, 121], [99, 100], NoWildcard, 0) == Outcome(b, [])
  {
    var b: seq<byte> := [97, 98, 0];
    var search: seq<byte> := [120, 121];
    var s0 := StartAsWritten(b, [99, 100], 0);
    var m := MatchAsWritten(s0.(pos := Some(0), firstMatch := 0, skip := 0, j := 0), search, NoWildcard);
    assert m.j == 2 && m.source == 2;
    var c := CandidatesAsWritten(s0, search, NoWildcard);
    assert c.pos == Some(0) && c.firstMatch == 0 && c.skip == 0 && c.rep == [99, 100];
    assert Splice(b, 0, [99, 100]) == [99, 100, 0];
    assert Splice([99, 100, 0], 2, Spaces(0)) == [99, 100, 0];
    assert Walk(b, 0, search, 0, NoWildcard).None? && Walk(b, 1, search, 0, NoWildcard).None?;
    assert FindTxt(b, 0, search, NoWildcard).None?;
  }

  /** The capture index runs on across a failed candidate and counts bytes
      past the end of Replace, and captures are written into the caller's
      Replace: in "bab" with Search "?b" and Replace "?c", the "b" of the
      failed candidate at 0 is captured, the text becomes "bbc", Replace
      becomes "bc" and is indexed past its end. The intended capture, per
      candidate and by Search position, gives "bac". */
  lemma TxtCaptureMisplaced()
    ensures var b: seq<byte> := [98, 97, 98, 0];
      var r := RunAsWritten(StartAsWritten(b, [63, 99], 0), [63, 98], 63, true, 2);
      r.Some? && r.value.bytes == [98, 98, 99, 0] && r.value.rep == [98, 99] && r.value.overrun
      && SearchAndReplaceTxtSpec(b, [63, 98], [63, 99], 63, 0) == Outcome([98, 97, 99, 0], [Window(1, 3)])
  {
    CaptureAsWritten();
    CaptureIntended();
  }

  lemma CaptureAsWritten()
    ensures var r := RunAsWritten(StartAsWritten([98, 97, 98, 0], [63, 99], 0), [63, 98], 63, true, 2);
      r.Some? && r.value.bytes == [98, 98, 99, 0] && r.value.rep == [98, 99] && r.value.overrun
  {
    var b: seq<byte> := [98, 97, 98, 0];
    var search: seq<byte> := [63, 98];
    var s0 := TxtState(b, [63, 99], 0, None, 0, 0, 0, 0, 0, 0, false);
    var c := TxtState(b, [98, 99], 3, Some(1), 1, 0, 3, 2, 0, 0, true);
    CaptureCandidates();
    var b' := Splice(Splice(b, 1, [98, 99]), 3, Spaces(0));
    assert b' == [98, 98, 99, 0];
    var done := TxtState(b', [98, 99], 3, Some(1), 1, 0, 3, 2, 1, -1, true);
    RunRound(s0, search, 63, true, 2, c, done);
    RunStops(done, search, 63, true, 1);
  }

  /** The candidate loop of the first round: the candidate at 0 captures "b"
      into Replace and fails; the one at 1 matches, its second byte read at
      i == 2, past Replace. */
  lemma CaptureCandidates()
    ensures CandidatesAsWritten(TxtState([98, 97, 98, 0], [63, 99], 0, None, 0, 0, 0, 0, 0, 0, false), [63, 98], 63)
         == TxtState([98, 97, 98, 0], [98, 99], 3, Some(1), 1, 0, 3, 2, 0, 0, true)
  {
    var b: seq<byte> := [98, 97, 98, 0];
    var search: seq<byte> := [63, 98];
    var s0 := TxtState(b, [63, 99], 0, None, 0, 0, 0, 0, 0, 0, false);
    var a0 := TxtState(b, [63, 99], 0, Some(0), 0, 0, 0, 0, 0, 0, false);
    var a1 := TxtState(b, [98, 99], 1, Some(0), 0, 0, 1, 1, 0, 0, false);
    assert MatchAsWritten(a0, search, 63) == MatchAsWritten(a1, search, 63) == a1;
    var b0 := TxtState(b, [98, 99], 1, None, 0, 0, 1, 1, 0, 0, false);
    var b1 := TxtState(b, [98, 99], 1, Some(1), 1, 0, 1, 0, 0, 0, false);
    var b2 := TxtState(b, [98, 99], 2, Some(1), 1, 0, 2, 1, 0, 0, false);
    var b3 := TxtState(b, [98, 99], 3, Some(1), 1, 0, 3, 2, 0, 0, true);
    assert MatchAsWritten(b1, search, 63) == MatchAsWritten(b2, search, 63);
    assert MatchAsWritten(b2, search, 63) == MatchAsWritten(b3, search, 63) == b3;
    assert CandidatesAsWritten(b0, search, 63) == b3;
  }

  /** A round of the outer loop that replaces at Pos. */
  lemma RunRound(st: TxtState, search: seq<byte>, wc: byte, unlimited: bool, fuel: nat, c: TxtState, next: TxtState)
    requires 0 < |search| == |st.rep| && 0 < fuel
    requires st.source + |search| <= |st.bytes| && MayReplace(unlimited, st.left)
    requires c == CandidatesAsWritten(st.(i := 0), search, wc)
    requires c.pos.Some? && c.pos.value + |search| + c.skip <= |c.bytes|
    requires next == ReplacedAsWritten(c, |search|)
    ensures RunAsWritten(st, search, wc, unlimited, fuel) == RunAsWritten(next, search, wc, unlimited, fuel - 1)
  {
  }

  /** A round in which the outer loop exits. */
  lemma RunStops(st: TxtState, search: seq<byte>, wc: byte, unlimited: bool, fuel: nat)
    requires 0 < |search| == |st.rep| && 0 < fuel
    requires st.source + |search| > |st.bytes| || !MayReplace(unlimited, st.left)
    ensures RunAsWritten(st, search, wc, unlimited, fuel) == Some(st)
  {
  }

  lemma CaptureIntended()
    ensures SearchAndReplaceTxtSpec([98, 97, 98, 0], [63, 98], [63, 99], 63, 0) == Outcome([98, 97, 99, 0], [Window(1, 3)])
  {
    var b: seq<byte> := [98, 97, 98, 0];
    var search: seq<byte> := [63, 98];
    assert Walk(b, 0, search, 0, 63).None? by {
      assert Walk(b, 0, search, 0, 63) == Walk(b, 1, search, 1, 63);
    }
    assert Walk(b, 1, search, 0, 63) == Some(3) by {
      assert Walk(b, 1, search, 0, 63) == Walk(b, 2, search, 1, 63) == Walk(b, 3, search, 2, 63);
    }
    var w := Window(1, 3);
    assert FindTxt(b, 0, search, 63) == Some(w);
    assert b[1..3] == [97, 98];
    assert Visible([97, 98]) == [97, 98];
    assert Instantiate([97, 98], [63, 99], 63) == [97, 99];
    assert Fill(b, w, search, [63, 99], 63) == [97, 99];
    assert Splice(b, 1, [97, 99]) == [98, 97, 99, 0];
  }

  /** The variables after a replacement of "ab" by "cd" that ends just
      before a NUL. */
  function StaleState(count: nat, left: int, i: nat): TxtState {
    TxtState([99, 100, 0, 120, 120], [99, 100], 2, Some(0), 0, 0, i, 2, count, left, false)
  }

  /** When a replacement ends just before a NUL with room for another Search
      left in the text, the candidate loop does not run, Pos keeps the span
      just replaced, and the round replaces it again: without a limit the
      loop never ends. The intended scan stops at the NUL after one
      replacement. */
  lemma {:induction false} TxtStalePosNeverEnds(fuel: nat)
    ensures RunAsWritten(StartAsWritten([97, 98, 0, 120, 120], [99, 100], 0), [97, 98], 63, true, fuel + 1).None?
    ensures SearchAndReplaceTxtSpec([97, 98, 0, 120, 120], [97, 98], [99, 100], 63, 0)
         == Outcome([99, 100, 0, 120, 120], [Window(0, 2)])
  {
    StaleAsWritten(fuel);
    StaleIntended();
  }

  lemma {:induction false} StaleAsWritten(fuel: nat)
    ensures RunAsWritten(StartAsWritten([97, 98, 0, 120, 120], [99, 100], 0), [97, 98], 63, true, fuel + 1).None?
  {
    StaleFirstRound(fuel, StartAsWritten([97, 98, 0, 120, 120], [99, 100], 0), [97, 98], StaleState(1, -1, 2));
    StaleLoops(1, -1, 2, fuel);
  }

  /** The first round replaces "ab" at 0 and leaves the stale variables. */
  lemma {:induction false} StaleFirstRound(fuel: nat, s0: TxtState, search: seq<byte>, next: TxtState)
    requires s0 == StartAsWritten([97, 98, 0, 120, 120], [99, 100], 0)
    requires search == [97, 98] && next == StaleState(1, -1, 2)
    ensures RunAsWritten(s0, search, 63, true, fuel + 1) == RunAsWritten(next, search, 63, true, fuel)
  {
    var c := StaleCandidates(s0, search);
    StaleReplaced(c);
    RunRound(s0, search, 63, true, fuel + 1, c, next);
  }

  /** The first round writes "cd" over "ab". */
  lemma StaleReplaced(c: TxtState)
    requires c == TxtState([97, 98, 0, 120, 120], [99, 100], 2, Some(0), 0, 0, 2, 2, 0, 0, false)
    ensures ReplacedAsWritten(c, 2) == StaleState(1, -1, 2)
  {
    assert Splice(Splice(c.bytes, 0, [99, 100]), 2, Spaces(0)) == [99, 100, 0, 120, 120];
  }

  /** The first round's candidate loop matches "ab" at 0. */
  lemma StaleCandidates(s0: TxtState, search: seq<byte>) returns (c: TxtState)
    requires s0 == StartAsWritten([97, 98, 0, 120, 120], [99, 100], 0) && search == [97, 98]
    ensures c == CandidatesAsWritten(s0.(i := 0), search, 63)
    ensures c == TxtState([97, 98, 0, 120, 120], [99, 100], 2, Some(0), 0, 0, 2, 2, 0, 0, false)
  {
    var b: seq<byte> := [97, 98, 0, 120, 120];
    var a0 := TxtState(b, [99, 100], 0, Some(0), 0, 0, 0, 0, 0, 0, false);
    var a1 := TxtState(b, [99, 100], 1, Some(0), 0, 0, 1, 1, 0, 0, false);
    var a2 := TxtState(b, [99, 100], 2, Some(0), 0, 0, 2, 2, 0, 0, false);
    assert MatchAsWritten(a0, search, 63) == MatchAsWritten(a1, search, 63);
    assert MatchAsWritten(a1, search, 63) == MatchAsWritten(a2, search, 63) == a2;
    c := a2;
  }

  lemma StaleIntended()
    ensures SearchAndReplaceTxtSpec([97, 98, 0, 120, 120], [97, 98], [99, 100], 63, 0)
         == Outcome([99, 100, 0, 120, 120], [Window(0, 2)])
  {
    var b: seq<byte> := [97, 98, 0, 120, 120];
    var search: seq<byte> := [97, 98];
    assert Walk(b, 0, search, 0, 63) == Walk(b, 1, search, 1, 63) == Walk(b, 2, search, 2, 63) == Some(2);
    var w := Window(0, 2);
    assert FindTxt(b, 0, search, 63) == Some(w);
    assert b[0..2] == [97, 98] && Visible([97, 98]) == [97, 98];
    assert Instantiate([97, 98], [99, 100], 63) == [99, 100];
    var b' := Splice(b, 0, Fill(b, w, search, [99, 100], 63));
    assert b' == [99, 100, 0, 120, 120];
    assert FindTxt(b', 2, search, 63).None?;
    TxtHit(b, 0, search, [99, 100], 63, true, 0, w, b', -1);
    TxtDone(b', 2, search, [99, 100], 63, true, -1);
  }

  /** From the stale variables every round is the same replacement. */
  lemma {:induction false} StaleLoops(count: nat, left: int, i: nat, fuel: nat)
    ensures RunAsWritten(StaleState(count, left, i), [97, 98], 63, true, fuel).None?
    decreases fuel
  {
    if fuel > 0 {
      var st := StaleState(count, left, i);
      var c := st.(i := 0);
      assert CandidatesAsWritten(c, [97, 98], 63) == c;
      assert Splice(Splice(st.bytes, 0, [99, 100]), 2, Spaces(0)) == st.bytes;
      RunRound(st, [97, 98], 63, true, fuel, c, StaleState(count + 1, left - 1, 0));
      StaleLoops(count + 1, left - 1, 0, fuel - 1);
    }
  }

  /** A text with no NUL is read past its end: in the two bytes "ab" with
      Search "xy" the candidate loop, which looks only for a NUL, runs off
      the buffer. The intended scan stops at the buffer end and replaces
      nothing. */
  lemma TxtReadsPastEnd()
    ensures var r := RunAsWritten(StartAsWritten([97, 98], [99, 100], 0), [120, 121], 63, true, 1);
      r.Some? && r.value.overrun && r.value.bytes == [97, 98]
    ensures SearchAndReplaceTxtSpec([97, 98], [120, 121], [99, 100], 63, 0) == Outcome([97, 98], [])
  {
    PastEndAsWritten(StartAsWritten([97, 98], [99, 100], 0), [120, 121]);
    PastEndIntended([97, 98], [120, 121]);
  }

  lemma PastEndAsWritten(s0: TxtState, search: seq<byte>)
    requires s0 == StartAsWritten([97, 98], [99, 100], 0) && search == [120, 121]
    ensures var r := RunAsWritten(s0, search, 63, true, 1);
      r.Some? && r.value.overrun && r.value.bytes == [97, 98]
  {
    var b: seq<byte> := [97, 98];
    var a0 := TxtState(b, [99, 100], 0, Some(0), 0, 0, 0, 0, 0, 0, false);
    var a1 := TxtState(b, [99, 100], 1, Some(1), 1, 0, 0, 0, 0, 0, false);
    var a2 := TxtState(b, [99, 100], 2, None, 1, 0, 0, 0, 0, 0, false);
    assert MatchAsWritten(a0, search, 63) == a0;
    assert MatchAsWritten(a1, search, 63) == a1;
    assert CandidatesAsWritten(a2, search, 63) == a2.(overrun := true);
    assert CandidatesAsWritten(a0.(pos := None, source := 1), search, 63) == a2.(overrun := true);
    assert CandidatesAsWritten(s0.(i := 0), search, 63) == a2.(overrun := true);
  }

  lemma PastEndIntended(b: seq<byte>, search: seq<byte>)
    requires b == [97, 98] && search == [120, 121]
    ensures SearchAndReplaceTxtSpec(b, search, [99, 100], 63, 0) == Outcome(b, [])
  {
    assert Walk(b, 0, search, 0, 63).None? && Walk(b, 1, search, 0, 63).None?;
    assert FindTxt(b, 0, search, 63).None?;
    TxtDone(b, 0, search, [99, 100], 63, true, 0);
  }
}
