/** The kext patch engine: byte and text search-and-replace over a kext's
    binary or Info.plist, the name match that decides which patches apply to
    a kext, and the small plist scanners that find and hide a kext's
    CFBundleIdentifier. */
module KextPatcher {
  import opened Efi

  // ---------------------------------------------------------------------
  // Patterns

  /** The Wildcard value that switches wildcards off. */
  const NoWildcard: byte := 0xFF

  /** FindWildcardPattern's test: every Search byte is the wildcard or equals
      the source byte under it. */
  predicate WildMatch(w: seq<byte>, search: seq<byte>, wc: byte)
    requires |w| == |search|
  {
    forall i :: 0 <= i < |search| ==> search[i] == wc || search[i] == w[i]
  }

  /** The window test of both search-and-replace routines, byte by byte:
      each Search byte equals the byte under it or, unless wildcards are
      off, is the wildcard. */
  predicate Matches(w: seq<byte>, search: seq<byte>, wc: byte)
    requires |w| == |search|
    decreases |search|
  {
    search == []
    || ((search[0] == w[0] || (wc != NoWildcard && search[0] == wc)) && Matches(w[1..], search[1..], wc))
  }

  /** Matches is the wildcard test unless wildcards are off, an exact
      compare otherwise. */
  lemma {:induction false} MatchesIs(w: seq<byte>, search: seq<byte>, wc: byte)
    requires |w| == |search|
    ensures Matches(w, search, wc) <==> if wc != NoWildcard then WildMatch(w, search, wc) else w == search
    decreases |search|
  {
    if search != [] {
      MatchesIs(w[1..], search[1..], wc);
      assert forall i :: 1 <= i < |search| ==> search[i] == search[1..][i - 1] && w[i] == w[1..][i - 1];
      if w[1..] == search[1..] && w[0] == search[0] {
        assert w == [w[0]] + w[1..] && search == [search[0]] + search[1..];
      }
    }
  }

  /** Some Replace byte is the wildcard. */
  predicate HasWildcard(replace: seq<byte>, wc: byte) {
    exists i :: 0 <= i < |replace| && replace[i] == wc
  }

  /** Replace with every wildcard byte taken from the matched window. */
  function Instantiate(w: seq<byte>, replace: seq<byte>, wc: byte): (r: seq<byte>)
    requires |w| == |replace|
    ensures |r| == |replace|
  {
    if replace == [] then []
    else [if replace[0] == wc then w[0] else replace[0]] + Instantiate(w[1..], replace[1..], wc)
  }

  /** Byte by byte: each wildcard byte of Replace takes the window's byte
      under it, every other byte stays. */
  lemma {:induction false} InstantiateBytes(w: seq<byte>, replace: seq<byte>, wc: byte)
    requires |w| == |replace|
    ensures forall i :: 0 <= i < |replace| ==>
      Instantiate(w, replace, wc)[i] == if replace[i] == wc then w[i] else replace[i]
  {
    if replace != [] {
      InstantiateBytes(w[1..], replace[1..], wc);
    }
  }

  /** What a matching window is overwritten with. */
  function Replacement(w: seq<byte>, replace: seq<byte>, wc: byte): (r: seq<byte>)
    requires |w| == |replace|
    ensures |r| == |replace|
  {
    if wc != NoWildcard then Instantiate(w, replace, wc) else replace
  }

  /** Without a wildcard in Replace, the instantiated replacement is Replace
      itself; so FindWildcardPattern handing back nothing loses nothing. */
  lemma InstantiateWithoutWildcard(w: seq<byte>, replace: seq<byte>, wc: byte)
    requires |w| == |replace| && !HasWildcard(replace, wc)
    ensures Instantiate(w, replace, wc) == replace
  {
    InstantiateBytes(w, replace, wc);
    assert forall i :: 0 <= i < |replace| ==> Instantiate(w, replace, wc)[i] == replace[i];
  }

  /** FindWildcardPattern: tests the window of src at `at` against Search and
      builds the replacement into a fresh buffer, handed back only when the
      window matches and Replace holds a wildcard. */
  method FindWildcardPattern(src: array<byte>, at: nat, search: seq<byte>, replace: seq<byte>, wc: byte)
    returns (found: bool, newReplace: Option<seq<byte>>)
    requires at + |search| <= src.Length && |replace| == |search|
    ensures found <==> WildMatch(src[at..at + |search|], search, wc)
    ensures newReplace.Some? <==> found && HasWildcard(replace, wc)
    ensures newReplace.Some? ==> newReplace.value == Instantiate(src[at..at + |search|], replace, wc)
  {
    var tmp := new byte[|search|];
    var i, searchCount, replaceCount := 0, 0, 0;
    while i < |search|
      invariant 0 <= i <= |search| && searchCount == i
      invariant forall j :: 0 <= j < i ==> search[j] == wc || search[j] == src[at + j]
      invariant forall j :: 0 <= j < i ==> tmp[j] == if replace[j] == wc then src[at + j] else replace[j]
      invariant replaceCount == 0 <==> forall j :: 0 <= j < i ==> replace[j] != wc
    {
      if search[i] != wc && search[i] != src[at + i] {
        searchCount := 0;
        break;
      }
      if replace[i] == wc {
        tmp[i] := src[at + i];
        replaceCount := replaceCount + 1;
      } else {
        tmp[i] := replace[i];
      }
      searchCount := searchCount + 1;
      i := i + 1;
    }
    found := searchCount == |search|;
    if !found || replaceCount == 0 {
      newReplace := None;
    } else {
      InstantiateBytes(src[at..at + |search|], replace, wc);
      newReplace := Some(tmp[..]);
    }
  }

  // ---------------------------------------------------------------------
  // What a search-and-replace leaves

  /** A replaced span [start, end) of the buffer. */
  datatype Window = Window(start: nat, end: nat)

  /** The new bytes and the spans replaced, left to right. */
  datatype Outcome = Outcome(bytes: seq<byte>, windows: seq<Window>)

  /** The spans lie in [lo, hi), each at least `width` long, each starting
      at or after the end of the one before. */
  predicate Ordered(ws: seq<Window>, lo: nat, hi: nat, width: nat)
    decreases |ws|
  {
    ws == []
    || (lo <= ws[0].start && ws[0].start + width <= ws[0].end <= hi && Ordered(ws[1..], ws[0].end, hi, width))
  }

  /** Ordered spans lie in [lo, hi), are at least `width` long, come in
      increasing order and do not overlap. */
  lemma {:induction false} OrderedSpans(ws: seq<Window>, lo: nat, hi: nat, width: nat)
    requires Ordered(ws, lo, hi, width)
    ensures forall k :: 0 <= k < |ws| ==> lo <= ws[k].start && ws[k].start + width <= ws[k].end <= hi
    ensures forall k, l :: 0 <= k < l < |ws| ==> ws[k].end <= ws[l].start
    decreases |ws|
  {
    if ws != [] {
      var rest := ws[1..];
      OrderedSpans(rest, ws[0].end, hi, width);
      assert forall k :: 1 <= k < |ws| ==> ws[k] == rest[k - 1];
    }
  }

  /** Every span is exactly `width` long. */
  predicate SpansOf(ws: seq<Window>, width: nat) {
    forall k :: 0 <= k < |ws| ==> ws[k].end == ws[k].start + width
  }

  /** Position i lies inside one of the spans. */
  predicate Covered(ws: seq<Window>, i: int)
    decreases |ws|
  {
    ws != [] && (ws[0].start <= i < ws[0].end || Covered(ws[1..], i))
  }

  /** Covered means: some span holds i. */
  lemma {:induction false} CoveredIs(ws: seq<Window>, i: int)
    ensures Covered(ws, i) <==> exists k :: 0 <= k < |ws| && ws[k].start <= i < ws[k].end
    decreases |ws|
  {
    if ws != [] {
      CoveredIs(ws[1..], i);
      if Covered(ws[1..], i) {
        var k :| 0 <= k < |ws[1..]| && ws[1..][k].start <= i < ws[1..][k].end;
        assert ws[k + 1] == ws[1..][k];
      }
      if exists k :: 0 <= k < |ws| && ws[k].start <= i < ws[k].end {
        var k :| 0 <= k < |ws| && ws[k].start <= i < ws[k].end;
        if k > 0 {
          assert ws[1..][k - 1] == ws[k];
        }
      }
    }
  }

  /** r keeps every byte of b that no span covers. */
  predicate KeepsUncovered(b: seq<byte>, r: seq<byte>, ws: seq<Window>) {
    |r| == |b| && forall i :: 0 <= i < |b| && !Covered(ws, i) ==> r[i] == b[i]
  }

  /** Nothing below lo is covered. */
  lemma {:induction false} OrderedBelow(ws: seq<Window>, lo: nat, hi: nat, width: nat, i: int)
    requires Ordered(ws, lo, hi, width) && i < lo
    ensures !Covered(ws, i)
    decreases |ws|
  {
    if ws != [] {
      OrderedBelow(ws[1..], ws[0].end, hi, width, i);
    }
  }

  /** SpansOf for a span in front of others. */
  lemma SpansOfCons(w: Window, ws: seq<Window>, width: nat)
    requires w.end == w.start + width && SpansOf(ws, width)
    ensures SpansOf([w] + ws, width)
  {
    assert forall k :: 1 <= k < |[w] + ws| ==> ([w] + ws)[k] == ws[k - 1];
  }

  /** Prepending a span in front of spans that start after it. */
  lemma OrderedCons(w: Window, ws: seq<Window>, lo: nat, hi: nat, width: nat)
    requires lo <= w.start && w.start + width <= w.end <= hi && Ordered(ws, w.end, hi, width)
    ensures Ordered([w] + ws, lo, hi, width)
  {
    assert ([w] + ws)[1..] == ws;
  }

  /** Coverage by a span in front of the others. */
  lemma CoveredCons(w: Window, ws: seq<Window>, i: int)
    ensures Covered([w] + ws, i) <==> (w.start <= i < w.end || Covered(ws, i))
  {
    assert ([w] + ws)[1..] == ws;
  }

  // ---------------------------------------------------------------------
  // SearchAndReplace

  /** The replacement budget: MaxReplaces <= 0 means no limit. */
  predicate MayReplace(unlimited: bool, left: int) {
    unlimited || left > 0
  }

  /** SearchAndReplace's loop from byte pos on with `left` replacements still
      allowed: a window matching at pos is replaced and the scan resumes
      right after it; otherwise the scan moves on by one byte. Only windows
      that fit in the buffer are compared. */
  function Sar(b: seq<byte>, pos: nat, search: seq<byte>, replace: seq<byte>, wc: byte,
               unlimited: bool, left: int): (r: Outcome)
    requires pos <= |b| && 0 < |search| == |replace|
    ensures |r.bytes| == |b|
    decreases |b| - pos
  {
    if pos + |search| > |b| || !MayReplace(unlimited, left) then Outcome(b, [])
    else
      var w := b[pos..pos + |search|];
      if Matches(w, search, wc) then
        var r := Sar(Splice(b, pos, Replacement(w, replace, wc)), pos + |search|, search, replace, wc,
                     unlimited, left - 1);
        Outcome(r.bytes, [Window(pos, pos + |search|)] + r.windows)
      else Sar(b, pos + 1, search, replace, wc, unlimited, left)
  }

  /** What SearchAndReplace does to a whole buffer. */
  function SearchAndReplaceSpec(b: seq<byte>, search: seq<byte>, replace: seq<byte>, wc: byte,
                                maxReplaces: int): Outcome
    requires |replace| == |search|
  {
    if |search| == 0 then Outcome(b, [])
    else Sar(b, 0, search, replace, wc, maxReplaces <= 0, maxReplaces)
  }

  /** Sar where the loop goes on after a replacement: the rest of the scan
      runs on the new bytes from after the window, with one replacement
      fewer left. */
  lemma SarHit(b: seq<byte>, pos: nat, search: seq<byte>, replace: seq<byte>, wc: byte,
               unlimited: bool, left: int, b': seq<byte>, pos': nat, left': int)
    requires pos + |search| <= |b| && 0 < |search| == |replace| && MayReplace(unlimited, left)
    requires Matches(b[pos..pos + |search|], search, wc)
    requires b' == Splice(b, pos, Replacement(b[pos..pos + |search|], replace, wc))
    requires pos' == pos + |search| && left' == left - 1
    ensures Sar(b, pos, search, replace, wc, unlimited, left)
         == Outcome(Sar(b', pos', search, replace, wc, unlimited, left').bytes,
                    [Window(pos, pos')] + Sar(b', pos', search, replace, wc, unlimited, left').windows)
  {
  }

  /** Sar where the loop goes on without a replacement: the same scan from
      the next byte. */
  lemma SarMiss(b: seq<byte>, pos: nat, search: seq<byte>, replace: seq<byte>, wc: byte,
                unlimited: bool, left: int, pos': nat)
    requires pos + |search| <= |b| && 0 < |search| == |replace| && MayReplace(unlimited, left)
    requires !Matches(b[pos..pos + |search|], search, wc) && pos' == pos + 1
    ensures Sar(b, pos, search, replace, wc, unlimited, left) == Sar(b, pos', search, replace, wc, unlimited, left)
  {
  }

  /** Sar where the loop stops: nothing more is replaced. */
  lemma SarDone(b: seq<byte>, pos: nat, search: seq<byte>, replace: seq<byte>, wc: byte,
                unlimited: bool, left: int)
    requires pos <= |b| && 0 < |search| == |replace| && (pos + |search| > |b| || !MayReplace(unlimited, left))
    ensures Sar(b, pos, search, replace, wc, unlimited, left) == Outcome(b, [])
  {
  }

  /** The replaced windows are Search-sized, inside the buffer, in order and
      disjoint; no more of them than MaxReplaces allows. */
  lemma {:induction false} SarWindows(b: seq<byte>, pos: nat, search: seq<byte>, replace: seq<byte>, wc: byte,
                                      unlimited: bool, left: int)
    requires pos <= |b| && 0 < |search| == |replace|
    ensures Ordered(Sar(b, pos, search, replace, wc, unlimited, left).windows, pos, |b|, |search|)
    ensures SpansOf(Sar(b, pos, search, replace, wc, unlimited, left).windows, |search|)
    ensures !unlimited ==> |Sar(b, pos, search, replace, wc, unlimited, left).windows| <= if left < 0 then 0 else left
    decreases |b| - pos
  {
    var n := |search|;
    if pos + n <= |b| && MayReplace(unlimited, left) {
      var w := b[pos..pos + n];
      if Matches(w, search, wc) {
        var b' := Splice(b, pos, Replacement(w, replace, wc));
        SarHit(b, pos, search, replace, wc, unlimited, left, b', pos + n, left - 1);
        SarWindows(b', pos + n, search, replace, wc, unlimited, left - 1);
        var ws' := Sar(b', pos + n, search, replace, wc, unlimited, left - 1).windows;
        OrderedCons(Window(pos, pos + n), ws', pos, |b|, n);
        SpansOfCons(Window(pos, pos + n), ws', n);
      } else {
        SarMiss(b, pos, search, replace, wc, unlimited, left, pos + 1);
        SarWindows(b, pos + 1, search, replace, wc, unlimited, left);
      }
    }
  }

  /** Every byte outside the replaced windows is unchanged. */
  lemma {:induction false} SarKeeps(b: seq<byte>, pos: nat, search: seq<byte>, replace: seq<byte>, wc: byte,
                                    unlimited: bool, left: int)
    requires pos <= |b| && 0 < |search| == |replace|
    ensures KeepsUncovered(b, Sar(b, pos, search, replace, wc, unlimited, left).bytes,
                           Sar(b, pos, search, replace, wc, unlimited, left).windows)
    decreases |b| - pos
  {
    var n := |search|;
    if pos + n <= |b| && MayReplace(unlimited, left) {
      var w := b[pos..pos + n];
      if Matches(w, search, wc) {
        var b' := Splice(b, pos, Replacement(w, replace, wc));
        SarHit(b, pos, search, replace, wc, unlimited, left, b', pos + n, left - 1);
        SarKeeps(b', pos + n, search, replace, wc, unlimited, left - 1);
        SpliceKeeps(b, pos, Replacement(w, replace, wc));
        var r' := Sar(b', pos + n, search, replace, wc, unlimited, left - 1);
        forall i | 0 <= i < |b| && !Covered([Window(pos, pos + n)] + r'.windows, i)
          ensures r'.bytes[i] == b[i]
        {
          CoveredCons(Window(pos, pos + n), r'.windows, i);
        }
      } else {
        SarMiss(b, pos, search, replace, wc, unlimited, left, pos + 1);
        SarKeeps(b, pos + 1, search, replace, wc, unlimited, left);
      }
    }
  }

  /** The window at st matched Search in b and holds its replacement in r. */
  predicate ReplacedAt(b: seq<byte>, r: seq<byte>, st: nat, search: seq<byte>, replace: seq<byte>, wc: byte)
    requires |replace| == |search|
  {
    st + |search| <= |b| && |r| == |b|
    && Matches(b[st..st + |search|], search, wc)
    && r[st..st + |search|] == Replacement(b[st..st + |search|], replace, wc)
  }

  /** Every span of o matched Search in b and holds its replacement. */
  predicate AllReplaced(b: seq<byte>, o: Outcome, search: seq<byte>, replace: seq<byte>, wc: byte)
    requires |replace| == |search|
  {
    ReplacedEach(b, o.bytes, o.windows, search, replace, wc)
  }

  predicate ReplacedEach(b: seq<byte>, r: seq<byte>, ws: seq<Window>, search: seq<byte>, replace: seq<byte>, wc: byte)
    requires |replace| == |search|
    decreases |ws|
  {
    ws == [] || (ReplacedAt(b, r, ws[0].start, search, replace, wc) && ReplacedEach(b, r, ws[1..], search, replace, wc))
  }

  /** ReplacedEach means: every span holds a replaced match. */
  lemma {:induction false} ReplacedEachIs(b: seq<byte>, r: seq<byte>, ws: seq<Window>, search: seq<byte>,
                                          replace: seq<byte>, wc: byte)
    requires |replace| == |search|
    ensures ReplacedEach(b, r, ws, search, replace, wc)
      <==> forall k :: 0 <= k < |ws| ==> ReplacedAt(b, r, ws[k].start, search, replace, wc)
    decreases |ws|
  {
    if ws != [] {
      ReplacedEachIs(b, r, ws[1..], search, replace, wc);
      assert forall k :: 1 <= k < |ws| ==> ws[k] == ws[1..][k - 1];
    }
  }

  /** Every replaced window matched Search in the original buffer and now
      holds its replacement. */
  lemma {:induction false} SarReplaces(b: seq<byte>, pos: nat, search: seq<byte>, replace: seq<byte>, wc: byte,
                                       unlimited: bool, left: int)
    requires pos <= |b| && 0 < |search| == |replace|
    ensures AllReplaced(b, Sar(b, pos, search, replace, wc, unlimited, left), search, replace, wc)
    decreases |b| - pos, 1
  {
    var n := |search|;
    if pos + n <= |b| && MayReplace(unlimited, left) {
      if Matches(b[pos..pos + n], search, wc) {
        var b' := Splice(b, pos, Replacement(b[pos..pos + n], replace, wc));
        SarHit(b, pos, search, replace, wc, unlimited, left, b', pos + n, left - 1);
        SarReplacesAfterHit(b, pos, search, replace, wc, unlimited, left, b');
      } else {
        SarMiss(b, pos, search, replace, wc, unlimited, left, pos + 1);
        SarReplaces(b, pos + 1, search, replace, wc, unlimited, left);
      }
    }
  }

  /** The step of SarReplaces past a replaced window. */
  lemma {:induction false} SarReplacesAfterHit(b: seq<byte>, pos: nat, search: seq<byte>, replace: seq<byte>, wc: byte,
                                               unlimited: bool, left: int, b': seq<byte>)
    requires pos + |search| <= |b| && 0 < |search| == |replace| && MayReplace(unlimited, left)
    requires Matches(b[pos..pos + |search|], search, wc)
    requires b' == Splice(b, pos, Replacement(b[pos..pos + |search|], replace, wc))
    ensures var r' := Sar(b', pos + |search|, search, replace, wc, unlimited, left - 1);
      AllReplaced(b, Outcome(r'.bytes, [Window(pos, pos + |search|)] + r'.windows), search, replace, wc)
    decreases |b| - pos, 0
  {
    SarReplaces(b', pos + |search|, search, replace, wc, unlimited, left - 1);
    HitThenReplaced(b, pos, search, replace, wc, unlimited, left, b');
  }

  /** The step that replaces the window at pos, followed by a rest of the
      scan that replaced only matches, replaces only matches. */
  lemma HitThenReplaced(b: seq<byte>, pos: nat, search: seq<byte>, replace: seq<byte>, wc: byte,
                        unlimited: bool, left: int, b': seq<byte>)
    requires pos + |search| <= |b| && 0 < |search| == |replace| && MayReplace(unlimited, left)
    requires Matches(b[pos..pos + |search|], search, wc)
    requires b' == Splice(b, pos, Replacement(b[pos..pos + |search|], replace, wc))
    requires AllReplaced(b', Sar(b', pos + |search|, search, replace, wc, unlimited, left - 1), search, replace, wc)
    ensures var r' := Sar(b', pos + |search|, search, replace, wc, unlimited, left - 1);
      AllReplaced(b, Outcome(r'.bytes, [Window(pos, pos + |search|)] + r'.windows), search, replace, wc)
  {
    SarWindows(b', pos + |search|, search, replace, wc, unlimited, left - 1);
    HitReplaced(b, pos, search, replace, wc, unlimited, left, b');
    SpliceTail(b, pos, Replacement(b[pos..pos + |search|], replace, wc));
    ReplacedBeforeRest(b, pos, search, replace, wc, b', Sar(b', pos + |search|, search, replace, wc, unlimited, left - 1));
  }

  /** A replaced window in front of the spans the rest of the scan replaced
      in the new bytes: together they are replaced relative to the bytes
      before the window was overwritten. */
  lemma ReplacedBeforeRest(b: seq<byte>, pos: nat, search: seq<byte>, replace: seq<byte>, wc: byte,
                           b': seq<byte>, o: Outcome)
    requires pos + |search| <= |b| && |replace| == |search|
    requires |b'| == |b| && b'[pos + |search|..] == b[pos + |search|..]
    requires Ordered(o.windows, pos + |search|, |b|, |search|) && AllReplaced(b', o, search, replace, wc)
    requires ReplacedAt(b, o.bytes, pos, search, replace, wc)
    ensures AllReplaced(b, Outcome(o.bytes, [Window(pos, pos + |search|)] + o.windows), search, replace, wc)
  {
    ReplacedEachPast(b, b', pos + |search|, o.bytes, o.windows, pos + |search|, search, replace, wc);
    assert ([Window(pos, pos + |search|)] + o.windows)[1..] == o.windows;
  }

  /** Spans from lo on, replaced in bytes that agree with b from q <= lo on,
      are replaced relative to b. */
  lemma {:induction false} ReplacedEachPast(b: seq<byte>, b': seq<byte>, q: nat, r: seq<byte>, ws: seq<Window>,
                                            lo: nat, search: seq<byte>, replace: seq<byte>, wc: byte)
    requires |replace| == |search| && |b'| == |b| && q <= lo <= |b| && b'[q..] == b[q..]
    requires Ordered(ws, lo, |b|, |search|) && ReplacedEach(b', r, ws, search, replace, wc)
    ensures ReplacedEach(b, r, ws, search, replace, wc)
    decreases |ws|
  {
    if ws != [] {
      ReplacedPastSplice(b, b', q, r, ws[0].start, search, replace, wc);
      ReplacedEachPast(b, b', q, r, ws[1..], ws[0].end, search, replace, wc);
    }
  }

  /** A window replaced in bytes that agree with b from p on is replaced
      relative to b. */
  lemma ReplacedPastSplice(b: seq<byte>, b': seq<byte>, p: nat, r: seq<byte>, st: nat,
                           search: seq<byte>, replace: seq<byte>, wc: byte)
    requires |replace| == |search| && |b'| == |b| && p <= st <= |b| && b'[p..] == b[p..]
    requires ReplacedAt(b', r, st, search, replace, wc)
    ensures ReplacedAt(b, r, st, search, replace, wc)
  {
    TailSlice(b, b', p, st, |search|);
    ReplacedAtEarlier(b, b', r, st, search, replace, wc);
  }

  /** The window a step replaces survives the rest of the scan. */
  lemma HitReplaced(b: seq<byte>, pos: nat, search: seq<byte>, replace: seq<byte>, wc: byte,
                    unlimited: bool, left: int, b': seq<byte>)
    requires pos + |search| <= |b| && 0 < |search| == |replace|
    requires Matches(b[pos..pos + |search|], search, wc)
    requires b' == Splice(b, pos, Replacement(b[pos..pos + |search|], replace, wc))
    ensures ReplacedAt(b, Sar(b', pos + |search|, search, replace, wc, unlimited, left - 1).bytes, pos,
                       search, replace, wc)
  {
    var n := |search|;
    var r' := Sar(b', pos + n, search, replace, wc, unlimited, left - 1);
    SarKeeps(b', pos + n, search, replace, wc, unlimited, left - 1);
    SarWindows(b', pos + n, search, replace, wc, unlimited, left - 1);
    KeepsBelow(b', r'.bytes, r'.windows, pos + n, |b|, n);
    assert r'.bytes[pos..pos + n] == r'.bytes[..pos + n][pos..];
    assert b'[pos..pos + n] == b'[..pos + n][pos..];
  }

  /** Spans that all start at or after lo leave everything before lo alone. */
  lemma KeepsBelow(b: seq<byte>, r: seq<byte>, ws: seq<Window>, lo: nat, hi: nat, width: nat)
    requires KeepsUncovered(b, r, ws) && Ordered(ws, lo, hi, width) && lo <= |b|
    ensures r[..lo] == b[..lo]
  {
    forall i | 0 <= i < lo ensures r[i] == b[i] {
      OrderedBelow(ws, lo, hi, width, i);
    }
  }

  /** A replaced window whose bytes were the same in an earlier buffer was
      replaced there too. */
  lemma ReplacedAtEarlier(b: seq<byte>, b': seq<byte>, r: seq<byte>, st: nat, search: seq<byte>, replace: seq<byte>,
                          wc: byte)
    requires |replace| == |search| && |b'| == |b| && st + |search| <= |b|
    requires b'[st..st + |search|] == b[st..st + |search|] && ReplacedAt(b', r, st, search, replace, wc)
    ensures ReplacedAt(b, r, st, search, replace, wc)
  {
  }

  /** Positions the scan passed over without replacing: while the budget
      lasts, every Search-sized window that no replacement covers fails the
      match (left-most, non-overlapping replacement). */
  lemma {:induction false} SarMissesNothing(b: seq<byte>, pos: nat, search: seq<byte>, replace: seq<byte>, wc: byte,
                                            unlimited: bool, left: int, p: nat)
    requires pos <= |b| && 0 < |search| == |replace|
    requires pos <= p && p + |search| <= |b|
    requires !Covered(Sar(b, pos, search, replace, wc, unlimited, left).windows, p)
    requires unlimited || |Sar(b, pos, search, replace, wc, unlimited, left).windows| < left
    ensures !Matches(b[p..p + |search|], search, wc)
    decreases |b| - pos, 1
  {
    var n := |search|;
    if Matches(b[pos..pos + n], search, wc) {
      var b' := Splice(b, pos, Replacement(b[pos..pos + n], replace, wc));
      HitLeavesUncovered(b, pos, search, replace, wc, unlimited, left, p, b');
      SarMissesNothingAfterHit(b, pos, search, replace, wc, unlimited, left, p, b');
    } else if p > pos {
      SarMiss(b, pos, search, replace, wc, unlimited, left, pos + 1);
      SarMissesNothing(b, pos + 1, search, replace, wc, unlimited, left, p);
    }
  }

  /** The step of SarMissesNothing past a replaced window. */
  lemma {:induction false} SarMissesNothingAfterHit(b: seq<byte>, pos: nat, search: seq<byte>, replace: seq<byte>,
                                                    wc: byte, unlimited: bool, left: int, p: nat, b': seq<byte>)
    requires pos + |search| <= p && p + |search| <= |b| && 0 < |search| == |replace|
    requires b' == Splice(b, pos, Replacement(b[pos..pos + |search|], replace, wc))
    requires !Covered(Sar(b', pos + |search|, search, replace, wc, unlimited, left - 1).windows, p)
    requires unlimited || |Sar(b', pos + |search|, search, replace, wc, unlimited, left - 1).windows| < left - 1
    ensures !Matches(b[p..p + |search|], search, wc)
    decreases |b| - pos, 0
  {
    SarMissesNothing(b', pos + |search|, search, replace, wc, unlimited, left - 1, p);
    SpliceTail(b, pos, Replacement(b[pos..pos + |search|], replace, wc));
    MissPastSplice(b, b', pos + |search|, p, search, wc);
  }

  /** A position the scan leaves uncovered after replacing the window at pos
      lies past that window and is left uncovered, with replacements to
      spare, by the rest of the scan. */
  lemma HitLeavesUncovered(b: seq<byte>, pos: nat, search: seq<byte>, replace: seq<byte>, wc: byte,
                           unlimited: bool, left: int, p: nat, b': seq<byte>)
    requires pos <= p && p + |search| <= |b| && 0 < |search| == |replace|
    requires Matches(b[pos..pos + |search|], search, wc)
    requires b' == Splice(b, pos, Replacement(b[pos..pos + |search|], replace, wc))
    requires !Covered(Sar(b, pos, search, replace, wc, unlimited, left).windows, p)
    requires unlimited || |Sar(b, pos, search, replace, wc, unlimited, left).windows| < left
    ensures pos + |search| <= p
    ensures !Covered(Sar(b', pos + |search|, search, replace, wc, unlimited, left - 1).windows, p)
    ensures unlimited || |Sar(b', pos + |search|, search, replace, wc, unlimited, left - 1).windows| < left - 1
  {
    var n := |search|;
    SarHit(b, pos, search, replace, wc, unlimited, left, b', pos + n, left - 1);
    CoveredCons(Window(pos, pos + n), Sar(b', pos + n, search, replace, wc, unlimited, left - 1).windows, p);
  }

  /** No match in bytes that agree with b from q on means no match in b. */
  lemma MissPastSplice(b: seq<byte>, b': seq<byte>, q: nat, p: nat, search: seq<byte>, wc: byte)
    requires |b'| == |b| && q <= p && p + |search| <= |b| && b'[q..] == b[q..]
    requires !Matches(b'[p..p + |search|], search, wc)
    ensures !Matches(b[p..p + |search|], search, wc)
  {
    TailSlice(b, b', q, p, |search|);
  }

  /** SearchAndReplace: returns 0 and leaves the buffer alone for a null
      Source or an empty Search; otherwise scans left to right, replacing
      each matching window and resuming after it, and returns the number of
      replacements. */
  method SearchAndReplace(src: array?<byte>, search: seq<byte>, replace: seq<byte>, wc: byte, maxReplaces: int)
    returns (n: nat)
    requires |replace| == |search|
    modifies src
    ensures src == null ==> n == 0
    ensures src != null ==>
      var r := SearchAndReplaceSpec(old(src[..]), search, replace, wc, maxReplaces);
      src[..] == r.bytes && n == |r.windows|
  {
    var unlimited := maxReplaces <= 0;
    var left := maxReplaces;
    n := 0;
    if src == null || |search| == 0 {
      return;
    }
    ghost var total := Sar(src[..], 0, search, replace, wc, unlimited, left);
    var pos := 0;
    while pos + |search| <= src.Length && MayReplace(unlimited, left)
      invariant pos <= src.Length
      invariant Sar(src[..], pos, search, replace, wc, unlimited, left).bytes == total.bytes
      invariant n + |Sar(src[..], pos, search, replace, wc, unlimited, left).windows| == |total.windows|
      decreases src.Length - pos
    {
      ghost var b, p, l := src[..], pos, left;
      var hit := ReplaceWindow(src, pos, search, replace, wc);
      if hit {
        n, left, pos := n + 1, left - 1, pos + |search|;
        SarHit(b, p, search, replace, wc, unlimited, l, src[..], pos, left);
      } else {
        pos := pos + 1;
        SarMiss(b, p, search, replace, wc, unlimited, l, pos);
      }
    }
    SarDone(src[..], pos, search, replace, wc, unlimited, left);
  }

  /** One round of SearchAndReplace's loop: the window at pos is tested,
      with FindWildcardPattern when wildcards are on and then by an exact
      compare, and a matching window is overwritten with its replacement. */
  method ReplaceWindow(src: array<byte>, pos: nat, search: seq<byte>, replace: seq<byte>, wc: byte)
    returns (hit: bool)
    requires pos + |search| <= src.Length && |replace| == |search|
    modifies src
    ensures hit == Matches(old(src[pos..pos + |search|]), search, wc)
    ensures src[..] == if hit then Splice(old(src[..]), pos, Replacement(old(src[pos..pos + |search|]), replace, wc))
                       else old(src[..])
  {
    ghost var w := src[pos..pos + |search|];
    MatchesIs(w, search, wc);
    var found, newReplace := false, None;
    if wc != NoWildcard {
      found, newReplace := FindWildcardPattern(src, pos, search, replace, wc);
    }
    hit := found || src[pos..pos + |search|] == search;
    if hit {
      if wc != NoWildcard && newReplace.None? {
        InstantiateWithoutWildcard(w, replace, wc);
      }
      var with := if newReplace.Some? then newReplace.value else replace;
      CopyAt(src, pos, with);
    }
  }

  // ---------------------------------------------------------------------
  // SearchAndReplace as written: the loop runs while Source < End, so a
  // window starting in the last |Search| - 1 bytes is compared with, and
  // overwritten into, whatever lies after the buffer. `mem` is the buffer
  // (its first `size` bytes) followed by that memory.

  function SarAsWritten(mem: seq<byte>, size: nat, pos: nat, search: seq<byte>, replace: seq<byte>, wc: byte,
                        unlimited: bool, left: int): Outcome
    requires size + |search| <= |mem| + 1 && 0 < |search| == |replace|
    decreases if pos < size then size - pos else 0
  {
    if pos >= size || !MayReplace(unlimited, left) then Outcome(mem, [])
    else
      var w := mem[pos..pos + |search|];
      if Matches(w, search, wc) then
        var r := SarAsWritten(Splice(mem, pos, Replacement(w, replace, wc)), size, pos + |search|, search, replace, wc,
                              unlimited, left - 1);
        Outcome(r.bytes, [Window(pos, pos + |search|)] + r.windows)
      else SarAsWritten(mem, size, pos + 1, search, replace, wc, unlimited, left)
  }

  /** A one-byte buffer followed in memory by 2: searching for [1, 2]
      overwrites the byte after the buffer; the model's scan finds nothing. */
  lemma SarAsWrittenWritesPastEnd()
    ensures SarAsWritten([1, 2], 1, 0, [1, 2], [3, 4], NoWildcard, true, 0).bytes[1] == 4
    ensures SearchAndReplaceSpec([1], [1, 2], [3, 4], NoWildcard, 0) == Outcome([1], [])
  {
    var r := SarAsWritten([3, 4], 1, 2, [1, 2], [3, 4], NoWildcard, true, -1);
    assert Splice([1, 2], 0, [3, 4]) == [3, 4];
  }
}
