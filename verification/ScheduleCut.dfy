/** A later answer is an earlier one, cut where the later range starts: in every lawful zone, whatever its clock changes. */
module ScheduleCut {
  import opened Lists
  import opened ScheduleResolver
  import opened ScheduleMeaning
  import opened ScheduleCanonical
  import opened ScheduleGaps
  import opened DeviceService
  import opened DeviceProperties

  // ---------------------------------------------------------------- one element at a time

  lemma {:induction false} FilterLast<T(!new)>(p: T -> bool, s: seq<T>, x: T)
    ensures Filter(p, s + [x]) == Filter(p, s) + if p(x) then [x] else []
  {
    assert (s + [x])[..|s|] == s;
  }

  lemma {:induction false} GapsLast(a: seq<AllowedWindow>, w: AllowedWindow, rangeStart: Instant, rangeEnd: Instant)
    ensures Gaps(a + [w], rangeStart, rangeEnd) == Gaps(a, rangeStart, rangeEnd) + GapBefore(w, Cursor(a, rangeStart), rangeEnd)
    ensures Cursor(a + [w], rangeStart) == if w.offAt > Cursor(a, rangeStart) then w.offAt else Cursor(a, rangeStart)
  {
    hide GapBefore;
    assert (a + [w])[..|a|] == a;
  }

  lemma {:induction false} GapsConcat(a: seq<AllowedWindow>, b: seq<AllowedWindow>, rangeStart: Instant, rangeEnd: Instant)
    ensures Gaps(a + b, rangeStart, rangeEnd) == Gaps(a, rangeStart, rangeEnd) + Gaps(b, Cursor(a, rangeStart), rangeEnd)
    ensures Cursor(a + b, rangeStart) == Cursor(b, Cursor(a, rangeStart))
  {
    hide Gaps, Cursor, GapBefore;
    if b == [] {
      assert a + b == a;
      NoWindows(Cursor(a, rangeStart), rangeEnd);
    } else {
      var front, w := b[..|b| - 1], b[|b| - 1];
      GapsConcat(a, front, rangeStart, rangeEnd);
      GapsLast(a + front, w, rangeStart, rangeEnd);
      assert a + b == a + front + [w];
      GapsLast(front, w, Cursor(a, rangeStart), rangeEnd);
      assert b == front + [w];
    }
  }

  lemma {:induction false} NoWindows(rangeStart: Instant, rangeEnd: Instant)
    ensures Gaps([], rangeStart, rangeEnd) == [] && Cursor([], rangeStart) == rangeStart
  {}

  lemma {:induction false} NoGap(w: AllowedWindow, cursor: Instant, rangeEnd: Instant, t: Instant)
    requires w.onAt <= t || w.onAt <= cursor
    ensures Ahead(GapBefore(w, cursor, rangeEnd), t) == []
    ensures w.onAt <= cursor ==> GapBefore(w, cursor, rangeEnd) == []
  {
    hide Filter;
    NoneAhead(GapBefore(w, cursor, rangeEnd), t);
  }

  // ---------------------------------------------------------------- merging does not matter to the gaps still to come

  /** The gaps that end after `t`. */
  function Ahead(gaps: seq<OffWindow>, t: Instant): seq<OffWindow> {
    Filter(EndingAfter(t), gaps)
  }

  lemma {:induction false} AheadConcat(a: seq<OffWindow>, b: seq<OffWindow>, t: Instant)
    ensures Ahead(a + b, t) == Ahead(a, t) + Ahead(b, t)
  {
    FilterConcat(EndingAfter(t), a, b);
  }

  lemma {:induction false} NoneAhead(gaps: seq<OffWindow>, t: Instant)
    requires forall g :: g in gaps ==> g.onAt <= t
    ensures Ahead(gaps, t) == []
  {
    if gaps != [] {
      assert gaps[|gaps| - 1] in gaps;
      NoneAhead(gaps[..|gaps| - 1], t);
    }
  }

  function StartingBefore(rangeEnd: Instant): AllowedWindow -> bool {
    (w: AllowedWindow) => w.onAt < rangeEnd
  }

  /** Lists of windows with the same gaps ahead of `t`, and that reach equally far within the range. */
  ghost predicate Alike(x: seq<AllowedWindow>, y: seq<AllowedWindow>, rangeStart: Instant, rangeEnd: Instant, t: Instant) {
    && Ahead(Gaps(x, rangeStart, rangeEnd), t) == Ahead(Gaps(y, rangeStart, rangeEnd), t)
    && (Cursor(x, rangeStart) == Cursor(y, rangeStart) || (rangeEnd <= Cursor(x, rangeStart) && rangeEnd <= Cursor(y, rangeStart)))
    && rangeStart <= Cursor(x, rangeStart)
  }

  /** A window that ends by the start of the range starts by `t`, even one turned inside out. */
  ghost predicate Tame(w: AllowedWindow, rangeStart: Instant, t: Instant) {
    w.offAt <= rangeStart ==> w.onAt <= t
  }

  /** The same window added to both, unless it starts after the range: no gap opens where they reach past it. */
  lemma {:induction false} AlikeBoth(x: seq<AllowedWindow>, y: seq<AllowedWindow>, w: AllowedWindow, rangeStart: Instant, rangeEnd: Instant, t: Instant)
    requires Alike(x, y, rangeStart, rangeEnd, t) && w.onAt < rangeEnd
    ensures Alike(x + [w], y + [w], rangeStart, rangeEnd, t)
  {
    hide Gaps, Cursor, Ahead, GapBefore;
    var cx, cy := Cursor(x, rangeStart), Cursor(y, rangeStart);
    GapsLast(x, w, rangeStart, rangeEnd);
    GapsLast(y, w, rangeStart, rangeEnd);
    AheadConcat(Gaps(x, rangeStart, rangeEnd), GapBefore(w, cx, rangeEnd), t);
    AheadConcat(Gaps(y, rangeStart, rangeEnd), GapBefore(w, cy, rangeEnd), t);
    if cx != cy {
      NoGap(w, cx, rangeEnd, t);
      NoGap(w, cy, rangeEnd, t);
    }
  }

  /** A window added to the second list alone, that neither opens a gap ahead nor reaches further. */
  lemma {:induction false} AlikeSecond(x: seq<AllowedWindow>, y: seq<AllowedWindow>, w: AllowedWindow, rangeStart: Instant, rangeEnd: Instant, t: Instant)
    requires Alike(x, y, rangeStart, rangeEnd, t)
    requires w.onAt <= t || w.onAt <= Cursor(y, rangeStart)
    requires w.offAt <= Cursor(y, rangeStart)
    ensures Alike(x, y + [w], rangeStart, rangeEnd, t)
  {
    hide Gaps, Cursor, Ahead, GapBefore;
    var c := Cursor(y, rangeStart);
    GapsLast(y, w, rangeStart, rangeEnd);
    AheadConcat(Gaps(y, rangeStart, rangeEnd), GapBefore(w, c, rangeEnd), t);
    NoGap(w, c, rangeEnd, t);
  }

  /** Windows that start together leave the same gaps; only how far they reach differs. */
  lemma {:induction false} SameStartSameGaps(x: seq<AllowedWindow>, v: AllowedWindow, w: AllowedWindow, rangeStart: Instant, rangeEnd: Instant)
    requires v.onAt == w.onAt
    ensures Gaps(x + [v], rangeStart, rangeEnd) == Gaps(x + [w], rangeStart, rangeEnd)
  {
    GapsLast(x, v, rangeStart, rangeEnd);
    GapsLast(x, w, rangeStart, rangeEnd);
    hide Gaps, Cursor;
  }

  function Joined(prev: AllowedWindow, w: AllowedWindow): AllowedWindow {
    AllowedWindow(prev.onAt, if w.offAt > prev.offAt then w.offAt else prev.offAt)
  }

  /** Joining `w` to the last merged window, when that one is within the range. */
  lemma {:induction false} JoinInRange(f: seq<AllowedWindow>, prev: AllowedWindow, w: AllowedWindow, y: seq<AllowedWindow>,
                                       rangeStart: Instant, rangeEnd: Instant, t: Instant)
    requires Alike(f + [prev], y, rangeStart, rangeEnd, t) && w.onAt <= prev.offAt && prev.onAt < rangeEnd && rangeStart < rangeEnd
    ensures Alike(f + [Joined(prev, w)], if w.onAt < rangeEnd then y + [w] else y, rangeStart, rangeEnd, t)
  {
    hide Gaps, Cursor, Ahead, GapBefore;
    var cy := Cursor(y, rangeStart);
    GapsLast(f, prev, rangeStart, rangeEnd);
    GapsLast(f, Joined(prev, w), rangeStart, rangeEnd);
    SameStartSameGaps(f, prev, Joined(prev, w), rangeStart, rangeEnd);
    if w.onAt < rangeEnd {
      GapsLast(y, w, rangeStart, rangeEnd);
      AheadConcat(Gaps(y, rangeStart, rangeEnd), GapBefore(w, cy, rangeEnd), t);
      NoGap(w, cy, rangeEnd, t);
    }
  }

  /** Joining `w` to the last merged window, when that one ends by the start of the range. */
  lemma {:induction false} JoinBeforeRange(f: seq<AllowedWindow>, prev: AllowedWindow, w: AllowedWindow, y: seq<AllowedWindow>,
                                           rangeStart: Instant, rangeEnd: Instant, t: Instant)
    requires Alike(f, y, rangeStart, rangeEnd, t) && prev.onAt <= w.onAt <= prev.offAt <= rangeStart < rangeEnd && Tame(prev, rangeStart, t)
    ensures Alike(if w.offAt > rangeStart then f + [Joined(prev, w)] else f, y + [w], rangeStart, rangeEnd, t)
  {
    hide Gaps, Cursor, Ahead, GapBefore;
    var c, cy := Cursor(f, rangeStart), Cursor(y, rangeStart);
    GapsLast(y, w, rangeStart, rangeEnd);
    AheadConcat(Gaps(y, rangeStart, rangeEnd), GapBefore(w, cy, rangeEnd), t);
    NoGap(w, cy, rangeEnd, t);
    if w.offAt > rangeStart {
      GapsLast(f, Joined(prev, w), rangeStart, rangeEnd);
      AheadConcat(Gaps(f, rangeStart, rangeEnd), GapBefore(Joined(prev, w), c, rangeEnd), t);
      NoGap(Joined(prev, w), c, rangeEnd, t);
    }
  }

  lemma {:induction false} JoinAlike(merged: seq<AllowedWindow>, w: AllowedWindow, y: seq<AllowedWindow>, rangeStart: Instant, rangeEnd: Instant, t: Instant)
    requires merged != [] && rangeStart < rangeEnd
    requires var prev := merged[|merged| - 1]; prev.onAt <= w.onAt <= prev.offAt && Tame(prev, rangeStart, t)
    requires Alike(Filter(AllowedOverlapping(rangeStart, rangeEnd), merged), y, rangeStart, rangeEnd, t)
    ensures Alike(Filter(AllowedOverlapping(rangeStart, rangeEnd), MergeInto(merged, w)), if w.onAt < rangeEnd then y + [w] else y,
                  rangeStart, rangeEnd, t)
  {
    hide Filter, Alike, MergeInto, AllowedOverlapping;
    var front, prev := merged[..|merged| - 1], merged[|merged| - 1];
    assert merged == front + [prev];
    MergeJoins(merged, w);
    OverlappingLast(front, prev, rangeStart, rangeEnd);
    OverlappingLast(front, Joined(prev, w), rangeStart, rangeEnd);
    var f := Filter(AllowedOverlapping(rangeStart, rangeEnd), front);
    if prev.onAt < rangeEnd {
      if prev.offAt > rangeStart {
        JoinInRange(f, prev, w, y, rangeStart, rangeEnd, t);
      } else {
        JoinBeforeRange(f, prev, w, y, rangeStart, rangeEnd, t);
      }
    }
  }

  lemma {:induction false} MergeJoins(merged: seq<AllowedWindow>, w: AllowedWindow)
    requires merged != [] && w.onAt <= merged[|merged| - 1].offAt
    ensures MergeInto(merged, w) == merged[..|merged| - 1] + [Joined(merged[|merged| - 1], w)]
  {}

  lemma {:induction false} OverlappingLast(front: seq<AllowedWindow>, w: AllowedWindow, rangeStart: Instant, rangeEnd: Instant)
    ensures Filter(AllowedOverlapping(rangeStart, rangeEnd), front + [w])
         == if w.offAt > rangeStart && w.onAt < rangeEnd then Filter(AllowedOverlapping(rangeStart, rangeEnd), front) + [w]
            else Filter(AllowedOverlapping(rangeStart, rangeEnd), front)
  {
    FilterLast(AllowedOverlapping(rangeStart, rangeEnd), front, w);
    hide Filter;
  }

  lemma {:induction false} AppendAlike(merged: seq<AllowedWindow>, w: AllowedWindow, y: seq<AllowedWindow>, rangeStart: Instant, rangeEnd: Instant, t: Instant)
    requires Tame(w, rangeStart, t) && Alike(Filter(AllowedOverlapping(rangeStart, rangeEnd), merged), y, rangeStart, rangeEnd, t)
    requires rangeStart < rangeEnd
    ensures Alike(Filter(AllowedOverlapping(rangeStart, rangeEnd), merged + [w]), if w.onAt < rangeEnd then y + [w] else y, rangeStart, rangeEnd, t)
  {
    hide Filter, AllowedOverlapping, Gaps, Cursor, Ahead;
    OverlappingLast(merged, w, rangeStart, rangeEnd);
    var x := Filter(AllowedOverlapping(rangeStart, rangeEnd), merged);
    if w.onAt < rangeEnd {
      if w.offAt > rangeStart {
        hide Alike;
        AlikeBoth(x, y, w, rangeStart, rangeEnd, t);
      } else {
        AlikeSecond(x, y, w, rangeStart, rangeEnd, t);
      }
    }
  }

  lemma {:induction false} StepAlike(merged: seq<AllowedWindow>, w: AllowedWindow, y: seq<AllowedWindow>, rangeStart: Instant, rangeEnd: Instant, t: Instant)
    requires rangeStart < rangeEnd && Tame(w, rangeStart, t)
    requires merged != [] ==> merged[|merged| - 1].onAt <= w.onAt && Tame(merged[|merged| - 1], rangeStart, t)
    requires Alike(Filter(AllowedOverlapping(rangeStart, rangeEnd), merged), y, rangeStart, rangeEnd, t)
    ensures Alike(Filter(AllowedOverlapping(rangeStart, rangeEnd), MergeInto(merged, w)), if w.onAt < rangeEnd then y + [w] else y,
                  rangeStart, rangeEnd, t)
  {
    hide Filter, Alike, AllowedOverlapping;
    if merged != [] && w.onAt <= merged[|merged| - 1].offAt {
      hide MergeInto;
      JoinAlike(merged, w, y, rangeStart, rangeEnd, t);
    } else {
      AppendAlike(merged, w, y, rangeStart, rangeEnd, t);
    }
  }

  ghost predicate AllTame(ws: seq<AllowedWindow>, rangeStart: Instant, t: Instant) {
    forall i :: 0 <= i < |ws| ==> Tame(ws[i], rangeStart, t)
  }

  lemma {:induction false} MergeIntoTame(merged: seq<AllowedWindow>, w: AllowedWindow, rangeStart: Instant, t: Instant)
    requires AllTame(merged, rangeStart, t) && Tame(w, rangeStart, t)
    ensures AllTame(MergeInto(merged, w), rangeStart, t)
  {}

  /** The windows of the range have the gaps ahead that the windows had before merging. */
  lemma {:induction false} MergedAlike(sorted: seq<AllowedWindow>, rangeStart: Instant, rangeEnd: Instant, t: Instant)
    requires SortedBy(OnAt, sorted) && rangeStart < rangeEnd && AllTame(sorted, rangeStart, t)
    ensures Alike(Filter(AllowedOverlapping(rangeStart, rangeEnd), Merged(sorted)), Filter(StartingBefore(rangeEnd), sorted), rangeStart, rangeEnd, t)
    ensures AllTame(Merged(sorted), rangeStart, t)
  {
    hide Filter, Alike, Merged, MergeInto, SortedBy, AllTame, Tame, AllowedOverlapping, StartingBefore;
    if sorted == [] {
      NothingMergedAlike(rangeStart, rangeEnd, t);
    } else {
      var front, w := sorted[..|sorted| - 1], sorted[|sorted| - 1];
      LastWindow(sorted, rangeStart, rangeEnd, t);
      MergedAlike(front, rangeStart, rangeEnd, t);
      MergedSorted(front);
      LastTame(Merged(front), rangeStart, t);
      MergeIntoTame(Merged(front), w, rangeStart, t);
      StepAlike(Merged(front), w, Filter(StartingBefore(rangeEnd), front), rangeStart, rangeEnd, t);
    }
  }

  lemma {:induction false} NothingMergedAlike(rangeStart: Instant, rangeEnd: Instant, t: Instant)
    ensures Alike(Filter(AllowedOverlapping(rangeStart, rangeEnd), Merged([])), Filter(StartingBefore(rangeEnd), []), rangeStart, rangeEnd, t)
    ensures AllTame(Merged([]), rangeStart, t)
  {}

  lemma {:induction false} LastTame(ws: seq<AllowedWindow>, rangeStart: Instant, t: Instant)
    requires AllTame(ws, rangeStart, t)
    ensures ws != [] ==> Tame(ws[|ws| - 1], rangeStart, t)
  {}

  lemma {:induction false} LastWindow(sorted: seq<AllowedWindow>, rangeStart: Instant, rangeEnd: Instant, t: Instant)
    requires SortedBy(OnAt, sorted) && AllTame(sorted, rangeStart, t) && sorted != []
    ensures var front, w := sorted[..|sorted| - 1], sorted[|sorted| - 1];
            && SortedBy(OnAt, front) && AllTame(front, rangeStart, t) && Tame(w, rangeStart, t)
            && (front != [] ==> front[|front| - 1].onAt <= w.onAt) && (front == [] ==> Merged(front) == [])
            && Merged(sorted) == MergeInto(Merged(front), w)
            && Filter(StartingBefore(rangeEnd), sorted) == if w.onAt < rangeEnd then Filter(StartingBefore(rangeEnd), front) + [w]
                                                           else Filter(StartingBefore(rangeEnd), front)
  {
    var front, w := sorted[..|sorted| - 1], sorted[|sorted| - 1];
    hide MergeInto;
    assert front != [] ==> OnAt(front[|front| - 1]) <= OnAt(w);
  }

  lemma {:induction false} AlikeAllGaps(x: seq<AllowedWindow>, y: seq<AllowedWindow>, rangeStart: Instant, rangeEnd: Instant, t: Instant)
    requires Alike(x, y, rangeStart, rangeEnd, t)
    ensures Ahead(AllGaps(x, rangeStart, rangeEnd), t) == Ahead(AllGaps(y, rangeStart, rangeEnd), t)
  {
    hide Gaps, Cursor, Ahead;
    var cx, cy := Cursor(x, rangeStart), Cursor(y, rangeStart);
    AheadConcat(Gaps(x, rangeStart, rangeEnd), if cx < rangeEnd then [OffWindow(cx, rangeEnd)] else [], t);
    AheadConcat(Gaps(y, rangeStart, rangeEnd), if cy < rangeEnd then [OffWindow(cy, rangeEnd)] else [], t);
  }

  // ---------------------------------------------------------------- a later start of the range

  /** From a later start the gaps ahead are the same, but begin no earlier than that start. */
  lemma {:induction false} StartLater(ws: seq<AllowedWindow>, c: Instant, r: Instant, rangeEnd: Instant, t: Instant)
    requires c <= r <= t && forall i :: 0 <= i < |ws| ==> ws[i].onAt < rangeEnd
    ensures Ahead(Gaps(ws, r, rangeEnd), t) == DelayAll(Ahead(Gaps(ws, c, rangeEnd), t), r)
    ensures Cursor(ws, r) == if Cursor(ws, c) > r then Cursor(ws, c) else r
  {
    hide Gaps, Cursor, Ahead, GapBefore, DelayAll;
    if ws == [] {
      NoWindows(c, rangeEnd);
      NoWindows(r, rangeEnd);
      NoneAhead([], t);
      NoDelay(r);
    } else {
      var front, w := ws[..|ws| - 1], ws[|ws| - 1];
      StartLater(front, c, r, rangeEnd, t);
      assert ws == front + [w];
      GapsLast(front, w, c, rangeEnd);
      GapsLast(front, w, r, rangeEnd);
      AheadConcat(Gaps(front, c, rangeEnd), GapBefore(w, Cursor(front, c), rangeEnd), t);
      AheadConcat(Gaps(front, r, rangeEnd), GapBefore(w, Cursor(front, r), rangeEnd), t);
      GapStartsLater(w, Cursor(front, c), r, rangeEnd, t);
      DelayConcat(Ahead(Gaps(front, c, rangeEnd), t), Ahead(GapBefore(w, Cursor(front, c), rangeEnd), t), r);
    }
  }

  lemma {:induction false} GapStartsLater(w: AllowedWindow, c: Instant, r: Instant, rangeEnd: Instant, t: Instant)
    requires r <= t && w.onAt < rangeEnd
    ensures Ahead(GapBefore(w, if c > r then c else r, rangeEnd), t) == DelayAll(Ahead(GapBefore(w, c, rangeEnd), t), r)
  {
    hide Ahead, DelayAll;
    NoneAhead([], t);
    NoDelay(r);
    if w.onAt <= t {
      NoGap(w, c, rangeEnd, t);
      NoGap(w, if c > r then c else r, rangeEnd, t);
    } else {
      OneAhead(OffWindow(c, w.onAt), t, r);
      OneAhead(OffWindow(if c > r then c else r, w.onAt), t, r);
    }
  }

  lemma {:induction false} NoDelay(r: Instant)
    ensures DelayAll([], r) == []
  {}

  lemma {:induction false} OneAhead(g: OffWindow, t: Instant, r: Instant)
    requires t < g.onAt
    ensures Ahead([g], t) == [g] && DelayAll([g], r) == [Delay(g, r)]
  {
    FilterLast(EndingAfter(t), [], g);
    assert [] + [g] == [g] && [g][..0] == [];
  }

  lemma {:induction false} DelayConcat(a: seq<OffWindow>, b: seq<OffWindow>, r: Instant)
    ensures DelayAll(a + b, r) == DelayAll(a, r) + DelayAll(b, r)
  {
    if b == [] {
      assert a + b == a;
    } else {
      DelayConcat(a, b[..|b| - 1], r);
      assert (a + b)[..|a + b| - 1] == a + b[..|b| - 1];
    }
  }

  lemma {:induction false} StartAllLater(ws: seq<AllowedWindow>, c: Instant, r: Instant, rangeEnd: Instant, t: Instant)
    requires c <= r <= t < rangeEnd && forall i :: 0 <= i < |ws| ==> ws[i].onAt < rangeEnd
    ensures Ahead(AllGaps(ws, r, rangeEnd), t) == DelayAll(Ahead(AllGaps(ws, c, rangeEnd), t), r)
  {
    hide Gaps, Cursor, Ahead, DelayAll;
    StartLater(ws, c, r, rangeEnd, t);
    var cc, cr := Cursor(ws, c), Cursor(ws, r);
    var lastC := if cc < rangeEnd then [OffWindow(cc, rangeEnd)] else [];
    var lastR := if cr < rangeEnd then [OffWindow(cr, rangeEnd)] else [];
    AheadConcat(Gaps(ws, c, rangeEnd), lastC, t);
    AheadConcat(Gaps(ws, r, rangeEnd), lastR, t);
    OneAhead(OffWindow(cc, rangeEnd), t, r);
    OneAhead(OffWindow(cr, rangeEnd), t, r);
    NoneAhead([], t);
    NoDelay(r);
    DelayConcat(Ahead(Gaps(ws, c, rangeEnd), t), Ahead(lastC, t), r);
  }

  /** Windows over by `r` leave no gap ahead, and do not reach past `r`. */
  lemma {:induction false} OverBy(ws: seq<AllowedWindow>, rangeStart: Instant, r: Instant, rangeEnd: Instant, t: Instant)
    requires rangeStart <= r <= t && forall i :: 0 <= i < |ws| ==> ws[i].onAt <= r && ws[i].offAt <= r
    ensures Ahead(Gaps(ws, rangeStart, rangeEnd), t) == [] && Cursor(ws, rangeStart) <= r
  {
    hide Gaps, Cursor, Ahead, GapBefore;
    if ws == [] {
      NoWindows(rangeStart, rangeEnd);
      NoneAhead([], t);
    } else {
      var front, w := ws[..|ws| - 1], ws[|ws| - 1];
      OverBy(front, rangeStart, r, rangeEnd, t);
      assert ws == front + [w];
      GapsLast(front, w, rangeStart, rangeEnd);
      AheadConcat(Gaps(front, rangeStart, rangeEnd), GapBefore(w, Cursor(front, rangeStart), rangeEnd), t);
      NoGap(w, Cursor(front, rangeStart), rangeEnd, t);
    }
  }

  /** Dropping windows that are over by the later start, and starting there, cuts the gaps ahead. */
  lemma {:induction false} DropOver(over: seq<AllowedWindow>, ws: seq<AllowedWindow>, rangeStart: Instant, r: Instant, rangeEnd: Instant, t: Instant)
    requires rangeStart <= r <= t < rangeEnd && forall i :: 0 <= i < |ws| ==> ws[i].onAt < rangeEnd
    requires forall i :: 0 <= i < |over| ==> over[i].onAt <= r && over[i].offAt <= r
    ensures Ahead(AllGaps(ws, r, rangeEnd), t) == DelayAll(Ahead(AllGaps(over + ws, rangeStart, rangeEnd), t), r)
  {
    hide Gaps, Cursor, Ahead, DelayAll;
    OverBy(over, rangeStart, r, rangeEnd, t);
    GapsConcat(over, ws, rangeStart, rangeEnd);
    var c := Cursor(over, rangeStart);
    StartAllLater(ws, c, r, rangeEnd, t);
    var last := if Cursor(ws, c) < rangeEnd then [OffWindow(Cursor(ws, c), rangeEnd)] else [];
    assert AllGaps(ws, c, rangeEnd) == Gaps(ws, c, rangeEnd) + last;
    assert AllGaps(over + ws, rangeStart, rangeEnd) == Gaps(over, rangeStart, rangeEnd) + (Gaps(ws, c, rangeEnd) + last);
    AheadConcat(Gaps(over, rangeStart, rangeEnd), AllGaps(ws, c, rangeEnd), t);
    hide AllGaps;
    assert [] + Ahead(AllGaps(ws, c, rangeEnd), t) == Ahead(AllGaps(ws, c, rangeEnd), t);
  }

  // ---------------------------------------------------------------- the days that are no longer scanned

  /** A window placed after windows that start no later goes among the rest. */
  lemma {:induction false} InsertAfter(w: AllowedWindow, a: seq<AllowedWindow>, b: seq<AllowedWindow>)
    requires forall i :: 0 <= i < |a| ==> a[i].onAt <= w.onAt
    ensures InsertBy(OnAt, w, a + b) == a + InsertBy(OnAt, w, b)
  {
    if b == [] {
      assert a + b == a;
    } else {
      InsertAfter(w, a, b[..|b| - 1]);
      assert (a + b)[..|a + b| - 1] == a + b[..|b| - 1];
    }
  }

  /** Windows that start no later than any other are sorted first, on their own. */
  lemma {:induction false} SortedApart(a: seq<AllowedWindow>, b: seq<AllowedWindow>)
    requires forall v, w :: v in a && w in b ==> v.onAt <= w.onAt
    ensures SortBy(OnAt, a + b) == SortBy(OnAt, a) + SortBy(OnAt, b)
  {
    hide SortBy, InsertBy;
    if b == [] {
      assert a + b == a;
      SortNothing();
    } else {
      var front, w := b[..|b| - 1], b[|b| - 1];
      assert b == front + [w] && w in b;
      SortedApart(a, front);
      SortLast(front, w);
      SortLast(a + front, w);
      assert a + b == a + front + [w];
      SortedBelow(a, w);
      InsertAfter(w, SortBy(OnAt, a), SortBy(OnAt, front));
    }
  }

  lemma {:induction false} SortNothing()
    ensures SortBy(OnAt, []) == []
  {}

  lemma {:induction false} SortLast(s: seq<AllowedWindow>, w: AllowedWindow)
    ensures SortBy(OnAt, s + [w]) == InsertBy(OnAt, w, SortBy(OnAt, s))
  {
    hide InsertBy;
    assert (s + [w])[..|s|] == s;
  }

  lemma {:induction false} SortedBelow(a: seq<AllowedWindow>, w: AllowedWindow)
    requires forall v :: v in a ==> v.onAt <= w.onAt
    ensures forall i :: 0 <= i < |SortBy(OnAt, a)| ==> SortBy(OnAt, a)[i].onAt <= w.onAt
  {
    SortBySorts(OnAt, a);
    hide SortBy, SortedBy;
    var sorted := SortBy(OnAt, a);
    forall i | 0 <= i < |sorted|
      ensures sorted[i].onAt <= w.onAt
    {
      assert sorted[i] in sorted;
    }
  }

  lemma {:induction false} ExpandedSplit(zone: Zone, rules: seq<ScheduleRule>, overrides: seq<ScheduleOverride>, first: LocalDate, mid: LocalDate, end: LocalDate)
    requires first <= mid <= end
    ensures Expanded(zone, rules, overrides, first, end) == Expanded(zone, rules, overrides, first, mid) + Expanded(zone, rules, overrides, mid, end)
    decreases end - mid
  {
    hide RuleWindows, OverrideWindows;
    if mid < end {
      ExpandedSplit(zone, rules, overrides, first, mid, end - 1);
    }
  }

  /** What is asked of a window of date `day`: it starts within the day and ends by the end of the next. */
  ghost predicate OfDay(zone: Zone, w: AllowedWindow, day: LocalDate) {
    zone.startOfDay(day) <= w.onAt <= zone.startOfDay(day + 1) && zone.startOfDay(day) <= w.offAt <= zone.startOfDay(day + 2)
  }

  lemma {:induction false} WindowOfDay(zone: Zone, day: LocalDate, start: LocalTime, end: LocalTime)
    requires zone.Lawful()
    ensures forall w :: w in Listed(Window(zone, day, start, end)) ==> OfDay(zone, w, day)
  {
    assert zone.startOfDay(day) <= zone.at(day, start) <= zone.startOfDay(day + 1);
    assert zone.startOfDay(day) <= zone.at(day, end) <= zone.startOfDay(day + 1);
    assert zone.startOfDay(day + 1) <= zone.at(day + 1, MIDNIGHT) <= zone.startOfDay(day + 1 + 1);
    assert zone.startOfDay(day) < zone.startOfDay(day + 1) < zone.startOfDay(day + 2);
  }

  lemma {:induction false} RuleWindowsOfDay(zone: Zone, rules: seq<ScheduleRule>, day: LocalDate)
    requires zone.Lawful()
    ensures forall w :: w in RuleWindows(zone, rules, day) ==> OfDay(zone, w, day)
  {
    if rules != [] {
      hide Zone.Lawful, OfDay, Window;
      RuleWindowsOfDay(zone, rules[..|rules| - 1], day);
      WindowOfDay(zone, day, rules[|rules| - 1].startTime, rules[|rules| - 1].endTime);
    }
  }

  lemma {:induction false} OverrideWindowsOfDay(zone: Zone, overrides: seq<ScheduleOverride>, day: LocalDate)
    requires zone.Lawful()
    ensures forall w :: w in OverrideWindows(zone, overrides, day) ==> OfDay(zone, w, day)
  {
    if overrides != [] {
      hide Zone.Lawful, OfDay, Window;
      OverrideWindowsOfDay(zone, overrides[..|overrides| - 1], day);
      WindowOfDay(zone, day, overrides[|overrides| - 1].startTime, overrides[|overrides| - 1].endTime);
    }
  }

  lemma {:induction false} ExpandedOfDays(zone: Zone, rules: seq<ScheduleRule>, overrides: seq<ScheduleOverride>, first: LocalDate, end: LocalDate)
    requires zone.Lawful()
    ensures forall w :: w in Expanded(zone, rules, overrides, first, end) ==> exists day :: first <= day < end && OfDay(zone, w, day)
    decreases end - first
  {
    if first < end {
      hide Zone.Lawful, OfDay, RuleWindows, OverrideWindows;
      ExpandedOfDays(zone, rules, overrides, first, end - 1);
      RuleWindowsOfDay(zone, rules, end - 1);
      OverrideWindowsOfDay(zone, overrides, end - 1);
    }
  }

  lemma {:induction false} DaysNeverBack(zone: Zone, d: LocalDate, e: LocalDate)
    requires zone.Lawful() && d <= e
    ensures zone.startOfDay(d) <= zone.startOfDay(e)
  {
    assert d < e ==> zone.startOfDay(d) < zone.startOfDay(e);
  }

  /** A scanned window that ends by the start of a range starts by the instant the range is asked for. */
  lemma {:induction false} ScannedTame(zone: Zone, w: AllowedWindow, day: LocalDate, from: Instant)
    requires zone.Lawful() && OfDay(zone, w, day)
    ensures Tame(w, RangeStart(zone, from), from)
  {
    var d := zone.dateOf(from);
    if w.offAt <= RangeStart(zone, from) {
      // the window's date is at most the day before, so it starts by midnight of `from`'s own date
      assert d - 1 < day ==> zone.startOfDay(d - 1) < zone.startOfDay(day);
      DaysNeverBack(zone, if day + 1 <= d then day + 1 else d, d);
    }
  }

  /** The windows resolved for a range, before merging, in order of their starts. */
  function Scanned(zone: Zone, rules: seq<ScheduleRule>, overrides: seq<ScheduleOverride>, from: Instant, to: Instant): seq<AllowedWindow> {
    SortBy(OnAt, ScannedWindows(zone, rules, overrides, RangeStart(zone, from), RangeEnd(zone, to)))
  }

  lemma {:induction false} ScannedAreTame(zone: Zone, rules: seq<ScheduleRule>, overrides: seq<ScheduleOverride>, from: Instant, to: Instant, t: Instant)
    requires zone.Lawful() && from <= t
    ensures SortedBy(OnAt, Scanned(zone, rules, overrides, from, to))
    ensures AllTame(Scanned(zone, rules, overrides, from, to), RangeStart(zone, from), t)
  {
    var ws := ScannedWindows(zone, rules, overrides, RangeStart(zone, from), RangeEnd(zone, to));
    SortBySorts(OnAt, ws);
    var first, end := zone.dateOf(RangeStart(zone, from)) - 1, zone.dateOf(RangeEnd(zone, to)) + 1;
    ExpandedOfDays(zone, Filter(EnabledRule(), rules), Filter(EnabledOverride(), overrides), first, end);
    hide Zone.Lawful, OfDay, Filter, Expanded, SortBy, RangeStart, RangeEnd, Tame;
    var sorted := Scanned(zone, rules, overrides, from, to);
    forall i | 0 <= i < |sorted|
      ensures Tame(sorted[i], RangeStart(zone, from), t)
    {
      assert sorted[i] in ws;
      var day :| first <= day < end && OfDay(zone, sorted[i], day);
      ScannedTame(zone, sorted[i], day, from);
      TameLater(sorted[i], RangeStart(zone, from), from, t);
    }
  }

  lemma {:induction false} TameLater(w: AllowedWindow, rangeStart: Instant, t: Instant, later: Instant)
    requires Tame(w, rangeStart, t) && t <= later
    ensures Tame(w, rangeStart, later)
  {}

  /** The gaps ahead, straight from the scanned windows: merging and dropping windows before the range do not matter. */
  lemma {:induction false} DayGapsAhead(zone: Zone, rules: seq<ScheduleRule>, overrides: seq<ScheduleOverride>, from: Instant, to: Instant, t: Instant)
    requires zone.Lawful() && from <= to && from <= t && Filter(EnabledRule(), rules) != []
    ensures var starting := Filter(StartingBefore(RangeEnd(zone, to)), Scanned(zone, rules, overrides, from, to));
            Ahead(DayGaps(zone, rules, overrides, from, to), t) == Ahead(AllGaps(starting, RangeStart(zone, from), RangeEnd(zone, to)), t)
  {
    RangeEnclosesRequest(zone, from, to);
    ScannedAreTame(zone, rules, overrides, from, to, t);
    hide Zone.Lawful, Ahead, AllGaps, RangeStart, RangeEnd, Filter, Merged, SortBy, SortedBy, AllTame, ScannedWindows, Alike;
    var sorted := Scanned(zone, rules, overrides, from, to);
    MergedAlike(sorted, RangeStart(zone, from), RangeEnd(zone, to), t);
    AlikeAllGaps(Filter(AllowedOverlapping(RangeStart(zone, from), RangeEnd(zone, to)), Merged(sorted)),
                 Filter(StartingBefore(RangeEnd(zone, to)), sorted), RangeStart(zone, from), RangeEnd(zone, to), t);
  }

  /** Dates in order: an earlier instant has no later date. */
  lemma {:induction false} DatesInOrder(zone: Zone, now: Instant, later: Instant)
    requires zone.Lawful() && now <= later
    ensures zone.dateOf(now) <= zone.dateOf(later)
  {
    var d, e := zone.dateOf(now), zone.dateOf(later);
    assert zone.startOfDay(d) <= now && later < zone.startOfDay(e + 1);
    assert e + 1 < d ==> zone.startOfDay(e + 1) < zone.startOfDay(d);
  }

  lemma {:induction false} RangeStartMoves(zone: Zone, now: Instant, later: Instant)
    requires zone.Lawful() && now <= later
    ensures RangeStart(zone, now) <= RangeStart(zone, later) < later
  {
    DatesInOrder(zone, now, later);
    DaysNeverBack(zone, zone.dateOf(now) - 1, zone.dateOf(later) - 1);
    RangeEnclosesRequest(zone, later, later);
    hide Zone.Lawful;
  }

  lemma {:induction false} ScannedDays(zone: Zone, rules: seq<ScheduleRule>, overrides: seq<ScheduleOverride>, from: Instant, to: Instant)
    requires zone.Lawful()
    ensures ScannedWindows(zone, rules, overrides, RangeStart(zone, from), RangeEnd(zone, to))
         == Expanded(zone, Filter(EnabledRule(), rules), Filter(EnabledOverride(), overrides), zone.dateOf(from) - 2, zone.dateOf(to) + 2)
  {
    hide Filter, Expanded;
    StartOfDayIsItsDate(zone, zone.dateOf(from) - 1);
    StartOfDayIsItsDate(zone, zone.dateOf(to) + 1);
  }

  /** The days no longer scanned: their windows come first, and are over by the start of the later range. */
  lemma {:induction false} ScannedSplit(zone: Zone, rules: seq<ScheduleRule>, overrides: seq<ScheduleOverride>, now: Instant, later: Instant, to: Instant)
    returns (over: seq<AllowedWindow>)
    requires zone.Lawful() && now <= later <= to
    ensures Scanned(zone, rules, overrides, now, to) == over + Scanned(zone, rules, overrides, later, to)
    ensures forall w :: w in over ==> w.onAt <= RangeStart(zone, later) && w.offAt <= RangeStart(zone, later)
  {
    hide Expanded, SortBy, SortedBy, Filter, ScannedWindows, Zone.Lawful, RangeEnd;
    var rs, os := Filter(EnabledRule(), rules), Filter(EnabledOverride(), overrides);
    var d, e, end := zone.dateOf(now) - 2, zone.dateOf(later) - 2, zone.dateOf(to) + 2;
    DatesInOrder(zone, now, later);
    DatesInOrder(zone, later, to);
    ScannedDays(zone, rules, overrides, now, to);
    ScannedDays(zone, rules, overrides, later, to);
    ExpandedSplit(zone, rs, os, d, e, end);
    DaysNeverBack(zone, e, e + 1);
    var a, b := Expanded(zone, rs, os, d, e), Expanded(zone, rs, os, e, end);
    over := SortBy(OnAt, a);
    SortBySorts(OnAt, a);
    DaysApart(zone, rs, os, d, e, end);
    SortedApart(a, b);
  }

  /** Windows of dates before `e` are over by the start of the date after it, and start no later than those from `e` on. */
  lemma {:induction false} DaysApart(zone: Zone, rules: seq<ScheduleRule>, overrides: seq<ScheduleOverride>, d: LocalDate, e: LocalDate, end: LocalDate)
    requires zone.Lawful()
    ensures forall w :: w in Expanded(zone, rules, overrides, d, e) ==> w.onAt <= zone.startOfDay(e) && w.offAt <= zone.startOfDay(e + 1)
    ensures forall w :: w in Expanded(zone, rules, overrides, e, end) ==> zone.startOfDay(e) <= w.onAt
  {
    hide Expanded, OfDay, Zone.Lawful;
    ExpandedOfDays(zone, rules, overrides, d, e);
    ExpandedOfDays(zone, rules, overrides, e, end);
    forall w | w in Expanded(zone, rules, overrides, d, e)
      ensures w.onAt <= zone.startOfDay(e) && w.offAt <= zone.startOfDay(e + 1)
    {
      var day :| d <= day < e && OfDay(zone, w, day);
      OverByThen(zone, w, day, e);
    }
    forall w | w in Expanded(zone, rules, overrides, e, end)
      ensures zone.startOfDay(e) <= w.onAt
    {
      var day :| e <= day < end && OfDay(zone, w, day);
      StartsByThen(zone, w, day, e);
    }
  }

  lemma {:induction false} OverByThen(zone: Zone, w: AllowedWindow, day: LocalDate, e: LocalDate)
    requires zone.Lawful() && OfDay(zone, w, day) && day < e
    ensures w.onAt <= zone.startOfDay(e) && w.offAt <= zone.startOfDay(e + 1)
  {
    DaysNeverBack(zone, day + 1, e);
    DaysNeverBack(zone, day + 2, e + 1);
    hide Zone.Lawful;
  }

  lemma {:induction false} StartsByThen(zone: Zone, w: AllowedWindow, day: LocalDate, e: LocalDate)
    requires zone.Lawful() && OfDay(zone, w, day) && e <= day
    ensures zone.startOfDay(e) <= w.onAt
  {
    DaysNeverBack(zone, e, day);
    hide Zone.Lawful;
  }

  lemma {:induction false} StartingFilter(over: seq<AllowedWindow>, ws: seq<AllowedWindow>, r: Instant, rangeEnd: Instant)
    requires forall w :: w in over ==> w.onAt <= r && w.offAt <= r
    ensures Filter(StartingBefore(rangeEnd), over + ws) == Filter(StartingBefore(rangeEnd), over) + Filter(StartingBefore(rangeEnd), ws)
    ensures forall i :: 0 <= i < |Filter(StartingBefore(rangeEnd), ws)| ==> Filter(StartingBefore(rangeEnd), ws)[i].onAt < rangeEnd
    ensures var kept := Filter(StartingBefore(rangeEnd), over); forall i :: 0 <= i < |kept| ==> kept[i].onAt <= r && kept[i].offAt <= r
  {
    FilterConcat(StartingBefore(rangeEnd), over, ws);
    FilterMembers(StartingBefore(rangeEnd), over);
    FilterMembers(StartingBefore(rangeEnd), ws);
    hide Filter;
    var kept, rest := Filter(StartingBefore(rangeEnd), over), Filter(StartingBefore(rangeEnd), ws);
    assert forall i :: 0 <= i < |kept| ==> kept[i] in kept;
    assert forall i :: 0 <= i < |rest| ==> rest[i] in rest;
  }

  /**
    Main result about a later range, for every lawful zone: the gaps that are still to end are those of the earlier range,
    cut where the later one starts.
  */
  lemma {:induction false} LaterGapsAhead(zone: Zone, rules: seq<ScheduleRule>, overrides: seq<ScheduleOverride>,
                                          now: Instant, later: Instant, to: Instant)
    requires zone.Lawful() && now <= later <= to
    ensures Ahead(DayGaps(zone, rules, overrides, later, to), later)
         == DelayAll(Ahead(DayGaps(zone, rules, overrides, now, to), later), RangeStart(zone, later))
  {
    if Filter(EnabledRule(), rules) == [] {
      NoneAhead([], later);
      NoDelay(RangeStart(zone, later));
    } else {
      hide Filter, DayGaps, DelayAll, Ahead, AllGaps, RangeStart, RangeEnd, Scanned, Zone.Lawful;
      var rangeStart, r, rangeEnd := RangeStart(zone, now), RangeStart(zone, later), RangeEnd(zone, to);
      RangeStartMoves(zone, now, later);
      RangeEnclosesRequest(zone, later, to);
      DayGapsAhead(zone, rules, overrides, now, to, later);
      DayGapsAhead(zone, rules, overrides, later, to, later);
      var over := ScannedSplit(zone, rules, overrides, now, later, to);
      var ws := Scanned(zone, rules, overrides, later, to);
      StartingFilter(over, ws, r, rangeEnd);
      DropOver(Filter(StartingBefore(rangeEnd), over), Filter(StartingBefore(rangeEnd), ws), rangeStart, r, rangeEnd, later);
    }
  }
}
