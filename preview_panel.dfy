/** The bookkeeping of `PreviewPanelComponent` (`preview-panel.component.ts`) that
    keeps off-screen folder entries out of the page: which entries are hidden,
    the height last measured for each, which elements are observed, and the
    timestamp label. Visibility reports arrive as explicit observations. */
module PreviewPanel {
  import opened Wrappers
  import opened Models
  import opened Text
  import Preview

  /** An element of the page, by identity. */
  type ElementId = nat

  /** One IntersectionObserver report: the element's `data-file-path` (None when it
      has none), whether it intersects the viewport margin, and its `offsetHeight`. */
  datatype Observation = Observation(filePath: Option<string>, isIntersecting: bool, offsetHeight: int)

  const DefaultPlaceholderHeight := 200

  /** The hidden set, the heights and the `changed` flag after one observation. */
  datatype Tally = Tally(hidden: set<string>, heights: map<string, int>, changed: bool)

  /** What the callback does with one observation; a missing or empty path is
      skipped. */
  function Observe(t: Tally, o: Observation): Tally {
    if o.filePath.None? || o.filePath.value == "" then t
    else
      var p := o.filePath.value;
      if o.isIntersecting then
        if p in t.hidden then t.(hidden := t.hidden - {p}, changed := true) else t
      else
        var heights := if o.offsetHeight > 0 then t.heights[p := o.offsetHeight] else t.heights;
        if p !in t.hidden && p in heights then Tally(t.hidden + {p}, heights, true)
        else t.(heights := heights)
  }

  function ObserveAll(t: Tally, os: seq<Observation>): Tally
    decreases |os|
  {
    if |os| == 0 then t else ObserveAll(Observe(t, os[0]), os[1..])
  }

  /** The invariant behind "hidden only once measured": every hidden path has a
      recorded height, and every recorded height is positive. */
  ghost predicate Measured(hidden: set<string>, heights: map<string, int>) {
    hidden <= heights.Keys && forall p :: p in heights ==> heights[p] > 0
  }

  /** One observation keeps the invariant, never forgets a height, and agrees with
      the rules: an intersecting path is shown and its height kept; a
      non-intersecting path with a positive height records it; a non-intersecting
      path is hidden only when a height is known for it. */
  lemma ObserveRules(t: Tally, o: Observation)
    requires Measured(t.hidden, t.heights)
    ensures var r := Observe(t, o);
      Measured(r.hidden, r.heights) &&
      t.heights.Keys <= r.heights.Keys &&
      (t.changed ==> r.changed) &&
      (o.filePath.None? || o.filePath.value == "" ==> r == t) &&
      (o.filePath.Some? && o.filePath.value != "" ==>
        var p := o.filePath.value;
        (o.isIntersecting ==> p !in r.hidden && r.heights == t.heights &&
                              r.hidden == t.hidden - {p}) &&
        (!o.isIntersecting && o.offsetHeight > 0 ==> r.heights == t.heights[p := o.offsetHeight] && p in r.hidden) &&
        (!o.isIntersecting && o.offsetHeight <= 0 ==>
          r.heights == t.heights && (p in r.hidden <==> p in t.heights)) &&
        (forall q :: q != p ==> (q in r.hidden <==> q in t.hidden)))
  {
  }

  /** A run of observations keeps the invariant; `changed` stays false exactly
      when the hidden set ends as it began. */
  lemma {:induction false} ObserveAllRules(t: Tally, os: seq<Observation>)
    requires Measured(t.hidden, t.heights)
    ensures var r := ObserveAll(t, os);
      Measured(r.hidden, r.heights) && t.heights.Keys <= r.heights.Keys &&
      (t.changed ==> r.changed) &&
      (!r.changed ==> r.hidden == t.hidden)
    decreases |os|
  {
    if |os| > 0 {
      ObserveRules(t, os[0]);
      ObserveUnchanged(t, os[0]);
      ObserveAllRules(Observe(t, os[0]), os[1..]);
    }
  }

  /** An observation that does not set `changed` leaves the hidden set as it was. */
  lemma ObserveUnchanged(t: Tally, o: Observation)
    ensures !Observe(t, o).changed ==> Observe(t, o).hidden == t.hidden
    ensures t.changed ==> Observe(t, o).changed
  {
  }

  class PreviewPanelComponent {
    const preview: Preview.PreviewService
    var hiddenEntries: set<string>
    /** How many times the `hiddenEntries` signal was given a new set. */
    var hiddenUpdates: nat
    var entryHeights: map<string, int>
    var hasObserver: bool
    var observedElements: set<ElementId>
    /** The elements handed to `observer.observe`, in order. */
    var observeCalls: seq<ElementId>

    ghost predicate Valid()
      reads this
    {
      Measured(hiddenEntries, entryHeights) &&
      (forall i, j :: 0 <= i < j < |observeCalls| ==> observeCalls[i] != observeCalls[j]) &&
      (forall e :: e in observedElements <==> e in observeCalls) &&
      (!hasObserver ==> observedElements == {})
    }

    constructor(preview: Preview.PreviewService)
      ensures Valid() && this.preview == preview
      ensures hiddenEntries == {} && entryHeights == map[] && !hasObserver && observedElements == {}
    {
      this.preview := preview;
      hiddenEntries := {};
      hiddenUpdates := 0;
      entryHeights := map[];
      hasObserver := false;
      observedElements := {};
      observeCalls := [];
    }

    /** The observer callback: every observation in order against a copy of the
        hidden set; the signal is written only when something changed. */
    method OnIntersection(observations: seq<Observation>)
      requires Valid()
      modifies this
      ensures Valid()
      ensures var r := ObserveAll(Tally(old(hiddenEntries), old(entryHeights), false), observations);
        hiddenEntries == r.hidden && entryHeights == r.heights &&
        hiddenUpdates == old(hiddenUpdates) + (if r.changed then 1 else 0)
      ensures old(entryHeights).Keys <= entryHeights.Keys
      ensures hasObserver == old(hasObserver) && observedElements == old(observedElements) &&
              observeCalls == old(observeCalls)
    {
      var hidden := hiddenEntries;
      var changed := false;
      ghost var start := Tally(hiddenEntries, entryHeights, false);
      ObserveAllRules(start, observations);
      for k := 0 to |observations|
        invariant ObserveAll(start, observations) == ObserveAll(Tally(hidden, entryHeights, changed), observations[k..])
        invariant Measured(hidden, entryHeights) && old(entryHeights).Keys <= entryHeights.Keys
        invariant hiddenEntries == old(hiddenEntries) && hiddenUpdates == old(hiddenUpdates)
        invariant hasObserver == old(hasObserver) && observedElements == old(observedElements) &&
                  observeCalls == old(observeCalls)
      {
        var o := observations[k];
        assert observations[k..] == [o] + observations[k + 1..];
        ghost var before := Tally(hidden, entryHeights, changed);
        ObserveRules(before, o);
        if o.filePath.None? || o.filePath.value == "" {
          continue;
        }
        var p := o.filePath.value;
        if o.isIntersecting {
          if p in hidden {
            hidden := hidden - {p};
            changed := true;
          }
        } else {
          if o.offsetHeight > 0 {
            entryHeights := entryHeights[p := o.offsetHeight];
          }
          if p !in hidden && p in entryHeights {
            hidden := hidden + {p};
            changed := true;
          }
        }
        assert Tally(hidden, entryHeights, changed) == Observe(before, o);
      }
      assert observations[|observations|..] == [];
      if changed {
        hiddenEntries := hidden;
        hiddenUpdates := hiddenUpdates + 1;
      }
    }

    /** `setupObserver`: an observer is created only when the container exists and
        there is none yet. */
    method SetupObserver(containerPresent: bool)
      requires Valid()
      modifies this
      ensures Valid()
      ensures hasObserver == (old(hasObserver) || containerPresent)
      ensures hiddenEntries == old(hiddenEntries) && entryHeights == old(entryHeights) &&
              observedElements == old(observedElements) && observeCalls == old(observeCalls) &&
              hiddenUpdates == old(hiddenUpdates)
    {
      if !containerPresent || hasObserver {
        return;
      }
      hasObserver := true;
    }

    /** `observeNewEntries`: each rendered entry element not yet observed is
        observed, once, in page order. */
    method ObserveNewEntries(containerPresent: bool, elements: seq<ElementId>)
      requires Valid()
      modifies this
      ensures Valid()
      ensures hasObserver == (old(hasObserver) || containerPresent)
      ensures containerPresent ==> observedElements == old(observedElements) + set e | e in elements
      ensures !containerPresent ==> observedElements == old(observedElements) && observeCalls == old(observeCalls)
      ensures |old(observeCalls)| <= |observeCalls| && observeCalls[..|old(observeCalls)|] == old(observeCalls)
      ensures hiddenEntries == old(hiddenEntries) && entryHeights == old(entryHeights) &&
              hiddenUpdates == old(hiddenUpdates)
    {
      SetupObserver(containerPresent);
      if !hasObserver {
        return;
      }
      if !containerPresent {
        return;
      }
      ghost var calls0 := observeCalls;
      ghost var set0 := observedElements;
      for k := 0 to |elements|
        invariant Valid() && hasObserver
        invariant observedElements == set0 + set e | e in elements[..k]
        invariant |calls0| <= |observeCalls| && observeCalls[..|calls0|] == calls0
        invariant hiddenEntries == old(hiddenEntries) && entryHeights == old(entryHeights) &&
                  hiddenUpdates == old(hiddenUpdates)
      {
        var el := elements[k];
        assert elements[..k + 1] == elements[..k] + [el];
        if el !in observedElements {
          observeCalls := observeCalls + [el];
          observedElements := observedElements + {el};
        }
      }
      assert elements[..|elements|] == elements;
    }

    /** `cleanupObserver`: disconnect, and forget the observed elements. */
    method CleanupObserver()
      requires Valid()
      modifies this
      ensures Valid()
      ensures !hasObserver && observedElements == {} && observeCalls == []
      ensures hiddenEntries == old(hiddenEntries) && entryHeights == old(entryHeights) &&
              hiddenUpdates == old(hiddenUpdates)
    {
      hasObserver := false;
      observedElements := {};
      observeCalls := [];
    }

    /** `resetVirtualScroll`: no observer, nothing observed, nothing hidden, no
        heights. */
    method ResetVirtualScroll()
      requires Valid()
      modifies this
      ensures Valid()
      ensures !hasObserver && observedElements == {} && hiddenEntries == {} && entryHeights == map[]
      ensures hiddenUpdates == old(hiddenUpdates) + 1
    {
      CleanupObserver();
      hiddenEntries := {};
      hiddenUpdates := hiddenUpdates + 1;
      entryHeights := map[];
    }

    function IsEntryVisible(filePath: string): (r: bool)
      reads this
      ensures r <==> filePath !in hiddenEntries
    {
      filePath !in hiddenEntries
    }

    /** The recorded height, or 200 for an entry never measured. */
    function GetPlaceholderHeight(filePath: string): (r: int)
      reads this
      ensures filePath in entryHeights ==> r == entryHeights[filePath]
      ensures filePath !in entryHeights ==> r == DefaultPlaceholderHeight
    {
      if filePath in entryHeights then entryHeights[filePath] else DefaultPlaceholderHeight
    }

    /** A hidden entry is replaced by a placeholder of its own measured height,
        which is positive. */
    lemma HiddenPlaceholder(filePath: string)
      requires Valid() && !IsEntryVisible(filePath)
      ensures GetPlaceholderHeight(filePath) == entryHeights[filePath] > 0
    {
    }

    /** `selectMode`: reset the bookkeeping, switch the mode and rerun the preview:
        the folder preview on the remembered folder, the single-file preview on
        the remembered file, or nothing when that path is missing or empty. */
    method SelectMode(mode: FrameMode) returns (started: Preview.Started)
      requires Valid() && preview.Valid()
      modifies this, preview
      ensures Valid() && preview.Valid()
      ensures !hasObserver && observedElements == {} && hiddenEntries == {} && entryHeights == map[]
      ensures preview.mode == mode
      ensures var s := old(preview.Snapshot()).(mode := mode);
        (s.folderMode && s.folderPath.Some? && s.folderPath.value != "" ==>
           started == Preview.FolderStarted(Preview.AwaitList(s.generationId + 1, s.folderPath.value)) &&
           preview.Snapshot() == Preview.FolderRunStart(s, s.folderPath.value)) &&
        (!s.folderMode && s.currentPath.Some? && s.currentPath.value != "" ==>
           started == Preview.FileStarted(Preview.AwaitInfo(s.generationId + 1, s.currentPath.value)) &&
           preview.Snapshot() == Preview.FileRunStart(s, s.currentPath.value)) &&
        (started == Preview.NothingStarted <==>
           (if s.folderMode then s.folderPath in {None, Some("")} else s.currentPath in {None, Some("")})) &&
        (started == Preview.NothingStarted ==> preview.Snapshot() == s)
    {
      ResetVirtualScroll();
      preview.SetMode(mode);
      started := preview.Regenerate();
    }
  }

  // ------------------------------------------------------------ timestamp label

  /** Truncation toward zero, as `Math.trunc`. */
  function Trunc(x: real): int {
    if x >= 0.0 then x.Floor else -((-x).Floor)
  }

  /** JavaScript's `a % b` on numbers: the remainder has the sign of `a`. */
  function JsRem(a: real, b: real): real
    requires b != 0.0
  {
    a - b * Trunc(a / b) as real
  }

  /** `n.toString().padStart(2, '0')` for the integer `n`. */
  function TwoDigits(n: int): string {
    PadStart(IntToString(n), 2, '0')
  }

  /** The hours, the minutes within the hour and the seconds within the minute, as
      `formatTimestamp` computes them. */
  function Clock(secs: real): (int, int, int) {
    ((secs / 3600.0).Floor, (JsRem(secs, 3600.0) / 60.0).Floor, JsRem(secs, 60.0).Floor)
  }

  /** `formatTimestamp`: "h:mm:ss" from one hour on, "m:ss" below. */
  function FormatTimestamp(secs: real): string {
    var (h, m, s) := Clock(secs);
    if h > 0 then IntToString(h) + ":" + TwoDigits(m) + ":" + TwoDigits(s)
    else IntToString(m) + ":" + TwoDigits(s)
  }

  /** Flooring a real division by a positive whole number is integer division of
      the floor. */
  lemma FloorDivision(x: real, d: nat)
    requires x >= 0.0 && d > 0
    ensures (x / d as real).Floor == x.Floor / d
  {
    var n, dd := x.Floor, d as real;
    var q, r := n / d, n % d;
    assert n == q * d + r && 0 <= r < d;
    var y := x / dd;
    assert x == y * dd;
    assert (q * d) as real == q as real * dd;
    assert q as real * dd <= x by { assert (q * d) as real <= n as real <= x; }
    assert x < (q as real + 1.0) * dd by {
      assert n + 1 <= q * d + d;
      assert x < (n + 1) as real <= (q * d + d) as real;
    }
    MulCancel(q as real, y, dd);
    MulCancel(y, q as real + 1.0, dd);
    FloorBetween(y, q);
  }

  /** A real between two consecutive whole numbers floors to the lower one. */
  lemma FloorBetween(y: real, q: int)
    requires q as real <= y < q as real + 1.0
    ensures y.Floor == q
  {
  }

  /** A positive factor can be cancelled from both sides of an inequality. */
  lemma MulCancel(a: real, b: real, c: real)
    requires c > 0.0
    ensures a * c < b * c ==> a < b
    ensures a * c <= b * c ==> a <= b
  {
  }

  /** The clock parts of a non-negative time are those of its whole seconds:
      hours, minutes within the hour and seconds within the minute, as integer
      division and remainder. */
  lemma ClockFloor(secs: real)
    requires secs >= 0.0
    ensures var n := secs.Floor;
      Clock(secs) == (n / 3600, n % 3600 / 60, n % 60)
  {
    var n := secs.Floor;
    FloorDivision(secs, 3600);
    FloorDivision(secs, 60);
    var y := JsRem(secs, 3600.0);
    assert y == secs - (3600 * (n / 3600)) as real;
    assert y >= 0.0 && y.Floor == n % 3600;
    FloorDivision(y, 60);
    assert JsRem(secs, 60.0) == secs - (60 * (n / 60)) as real;
    assert JsRem(secs, 60.0).Floor == n % 60;
  }

  /** For a whole number of seconds the clock parts are integer division and
      remainder. */
  lemma ClockWhole(n: nat)
    ensures Clock(n as real) == (n / 3600, n % 3600 / 60, n % 60)
  {
    ClockFloor(n as real);
  }

  /** The parts of the clock add up to the whole seconds of the input, with
      minutes and seconds below 60. */
  lemma ClockAddsUp(secs: real)
    requires secs >= 0.0
    ensures var (h, m, s) := Clock(secs);
      h * 3600 + m * 60 + s == secs.Floor && 0 <= m < 60 && 0 <= s < 60
  {
    ClockFloor(secs);
    var n := secs.Floor;
    var r := n % 3600;
    assert n == (n / 3600) * 3600 + r;
    assert r == (r / 60) * 60 + r % 60;
    assert n % 60 == r % 60 by {
      assert n == ((n / 3600) * 60 + r / 60) * 60 + r % 60;
    }
  }

  /** The label ignores fractions of a second: it is the label of the whole
      seconds. */
  lemma FormatIgnoresFraction(secs: real)
    requires secs >= 0.0
    ensures FormatTimestamp(secs) == FormatTimestamp(secs.Floor as real)
  {
    ClockFloor(secs);
    ClockWhole(secs.Floor);
    var (h, m, s) := Clock(secs);
    FormatFromClock(secs, h, m, s);
    FormatFromClock(secs.Floor as real, h, m, s);
  }

  /** For a whole number of seconds the label shows hours, minutes below 60 and
      seconds below 60 that add up to the input. */
  lemma FormatWholeSeconds(n: nat)
    ensures var h, m, s := n / 3600, n % 3600 / 60, n % 60;
      h * 3600 + m * 60 + s == n && m < 60 && s < 60 &&
      FormatTimestamp(n as real) ==
        if h > 0 then NatToString(h) + ":" + TwoDigits(m) + ":" + TwoDigits(s)
        else NatToString(m) + ":" + TwoDigits(s)
  {
    var h, m, s := n / 3600, n % 3600 / 60, n % 60;
    ClockWhole(n);
    ClockAddsUp(n as real);
    FormatFromClock(n as real, h, m, s);
    assert IntToString(h) == NatToString(h) && IntToString(m) == NatToString(m);
  }

  /** Unfolds the label for given clock parts. */
  lemma FormatFromClock(secs: real, h: int, m: int, s: int)
    requires Clock(secs) == (h, m, s)
    ensures FormatTimestamp(secs) ==
      if h > 0 then IntToString(h) + ":" + TwoDigits(m) + ":" + TwoDigits(s)
      else IntToString(m) + ":" + TwoDigits(s)
  {
  }

  /** Minutes and seconds are padded to two digits: two minutes read "2:00". */
  lemma FormatTwoMinutes()
    ensures FormatTimestamp(120.0) == "2:00"
  {
    TwoMinutesClock();
    FormatFromClock(120.0, 0, 2, 0);
    TwoMinutesText();
  }

  lemma TwoMinutesClock()
    ensures Clock(120.0) == (0, 2, 0)
  {
    ClockWhole(120);
  }

  lemma TwoMinutesText()
    ensures IntToString(2) + ":" + TwoDigits(0) == "2:00"
  {
    TwoDigitsSingle(0);
    assert TwoDigits(0) == "00";
    assert IntToString(2) == "2";
    assert "2" + ":" + "00" == "2:00";
  }

  /** From one hour on the hours lead: 3725 seconds read "1:02:05". */
  lemma FormatOneHour()
    ensures FormatTimestamp(3725.0) == "1:02:05"
  {
    OneHourClock();
    FormatFromClock(3725.0, 1, 2, 5);
    OneHourText();
  }

  lemma OneHourClock()
    ensures Clock(3725.0) == (1, 2, 5)
  {
    ClockWhole(3725);
  }

  lemma OneHourText()
    ensures IntToString(1) + ":" + TwoDigits(2) + ":" + TwoDigits(5) == "1:02:05"
  {
    TwoDigitsSingle(2);
    TwoDigitsSingle(5);
    assert TwoDigits(2) == "02" && TwoDigits(5) == "05";
    assert IntToString(1) == "1";
    assert "1" + ":" + "02" + ":" + "05" == "1:02:05";
  }

  /** A single digit gets one leading zero. */
  lemma TwoDigitsSingle(n: int)
    requires 0 <= n < 10
    ensures TwoDigits(n) == ['0', DigitChar(n)]
  {
    assert IntToString(n) == [DigitChar(n)];
    assert PadStart([DigitChar(n)], 2, '0') == ['0'] + [DigitChar(n)];
  }
}
