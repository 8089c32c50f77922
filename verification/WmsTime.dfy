/** Merging the WMS time information of the layers of a group. */
module WmsTime {
  import opened Wrappers

  function MinNone(a: Option<int>, b: Option<int>): Option<int> {
    if a.None? then b else if b.None? then a else Some(if b.value < a.value then b.value else a.value)
  }

  function MaxNone(a: Option<int>, b: Option<int>): Option<int> {
    if a.None? then b else if b.None? then a else Some(if b.value > a.value then b.value else a.value)
  }

  type Interval = (int, int, int, int)

  /** A time extent: a set of dates, or a start, an end and an interval; with the resolution and the default dates. */
  datatype Extent =
    | Values(values: set<int>, resolution: string, minDef: Option<int>, maxDef: Option<int>)
    | Range(start: int, end: int, interval: Interval, resolution: string, minDef: Option<int>, maxDef: Option<int>)

  /** The same kind of definition, with the same interval. */
  predicate SameKind(a: Extent, b: Extent) {
    a.Values? == b.Values? && (a.Range? && b.Range? ==> a.interval == b.interval)
  }

  /** The merge of two extents, `None` when they do not fit; the resolution is that of the first. */
  function MergeExtents(a: Extent, b: Extent): Option<Extent> {
    match (a, b)
    case (Values(v, r, min, max), Values(w, _, min', max')) =>
      Some(Values(v + w, r, MinNone(min, min'), MaxNone(max, max')))
    case (Range(s, e, i, r, min, max), Range(s', e', i', _, min', max')) =>
      if i != i' then None
      else Some(Range(if s' < s then s' else s, if e' > e then e' else e, i, r, MinNone(min, min'), MaxNone(max, max')))
    case (_, _) => None
  }

  const DISABLED := "disabled"
  const SLIDER := "slider"

  /** What a layer brings. */
  datatype Entry = Entry(extent: Extent, mode: string, widget: Option<string>)

  function WidgetOf(e: Entry): string {
    if e.widget.None? || e.widget.value == "" then SLIDER else e.widget.value
  }

  datatype Info = Info(extent: Option<Extent>, mode: Option<string>, widget: Option<string>)

  const NOTHING := Info(None, None, None)

  /** One more entry: the information afterwards, and whether it was merged. A part may be merged before the failure. */
  function Step(info: Info, e: Entry): (Info, bool) {
    var extent := if info.extent.None? then Some(e.extent) else MergeExtents(info.extent.value, e.extent);
    if extent.None? then (info, false)
    else
      var extended := info.(extent := extent);
      if e.mode != DISABLED && info.mode.Some? && info.mode.value != e.mode then (extended, false)
      else
        var moded := if e.mode != DISABLED then extended.(mode := Some(e.mode)) else extended;
        if info.widget.Some? && info.widget.value != WidgetOf(e) then (moded, false)
        else (moded.(widget := Some(WidgetOf(e))), true)
  }

  /** All entries in turn, `None` when one of them does not fit. */
  function MergeAll(entries: seq<Entry>): Option<Info> {
    if entries == [] then Some(NOTHING)
    else
      var front := MergeAll(entries[..|entries| - 1]);
      if front.None? then None
      else
        var (info, merged) := Step(front.value, entries[|entries| - 1]);
        if merged then Some(info) else None
  }

  // When it succeeds, and with what.

  predicate ModesFit(a: Entry, b: Entry) {
    a.mode == "disabled" || b.mode == "disabled" || a.mode == b.mode
  }

  /** The widget of the entry; without one, or with an empty one, it is a slider. */
  predicate HasWidget(e: Entry, widget: string) {
    if e.widget == None || e.widget == Some("") then widget == "slider" else e.widget == Some(widget)
  }

  predicate WidgetsFit(a: Entry, b: Entry) {
    if a.widget == None || a.widget == Some("") then HasWidget(b, "slider") else HasWidget(b, a.widget.value)
  }

  predicate Fit(a: Entry, b: Entry) {
    SameKind(a.extent, b.extent) && ModesFit(a, b) && WidgetsFit(a, b)
  }

  predicate AllFit(entries: set<Entry>) {
    forall a, b :: a in entries && b in entries ==> Fit(a, b)
  }

  function Members(entries: seq<Entry>): set<Entry> {
    set e | e in entries
  }

  /** The least of the dates that are given. */
  ghost predicate IsLeast(least: Option<int>, dates: set<Option<int>>) {
    && (least.Some? ==> least in dates)
    && forall d :: d in dates && d.Some? ==> least.Some? && least.value <= d.value
  }

  ghost predicate IsGreatest(greatest: Option<int>, dates: set<Option<int>>) {
    && (greatest.Some? ==> greatest in dates)
    && forall d :: d in dates && d.Some? ==> greatest.Some? && d.value <= greatest.value
  }

  function MinDefs(entries: set<Entry>): set<Option<int>> {
    set e | e in entries :: e.extent.minDef
  }

  function MaxDefs(entries: set<Entry>): set<Option<int>> {
    set e | e in entries :: e.extent.maxDef
  }

  function Starts(entries: set<Entry>): set<Option<int>> {
    set e | e in entries && e.extent.Range? :: Some(e.extent.start)
  }

  function Ends(entries: set<Entry>): set<Option<int>> {
    set e | e in entries && e.extent.Range? :: Some(e.extent.end)
  }

  function AllValues(entries: set<Entry>): set<int> {
    set e, v | e in entries && e.extent.Values? && v in e.extent.values :: v
  }

  /** The extent covers those of the entries. */
  ghost predicate Covers(extent: Extent, entries: set<Entry>) {
    && (forall e :: e in entries ==> SameKind(extent, e.extent))
    && IsLeast(extent.minDef, MinDefs(entries)) && IsGreatest(extent.maxDef, MaxDefs(entries))
    && (extent.Values? ==> extent.values == AllValues(entries))
    && (extent.Range? ==> IsLeast(Some(extent.start), Starts(entries)) && IsGreatest(Some(extent.end), Ends(entries)))
  }

  /** The mode is the one of the entries that are not disabled. */
  ghost predicate IsMode(mode: Option<string>, entries: set<Entry>) {
    && (mode.Some? ==> exists e :: e in entries && e.mode != "disabled" && e.mode == mode.value)
    && forall e :: e in entries && e.mode != "disabled" ==> mode == Some(e.mode)
  }

  /** The information says what the entries say together. */
  ghost predicate Sums(info: Info, entries: set<Entry>) {
    && info.extent.Some? && Covers(info.extent.value, entries) && IsMode(info.mode, entries)
    && info.widget.Some? && forall e :: e in entries ==> HasWidget(e, info.widget.value)
  }

  lemma LeastMore(least: Option<int>, dates: set<Option<int>>, d: Option<int>)
    requires IsLeast(least, dates)
    ensures IsLeast(MinNone(least, d), dates + {d})
  {
  }

  lemma GreatestMore(greatest: Option<int>, dates: set<Option<int>>, d: Option<int>)
    requires IsGreatest(greatest, dates)
    ensures IsGreatest(MaxNone(greatest, d), dates + {d})
  {
  }

  lemma DefsMore(entries: set<Entry>, e: Entry)
    ensures MinDefs(entries + {e}) == MinDefs(entries) + {e.extent.minDef}
    ensures MaxDefs(entries + {e}) == MaxDefs(entries) + {e.extent.maxDef}
  {
  }

  lemma StartsMore(entries: set<Entry>, e: Entry)
    requires e.extent.Range?
    ensures Starts(entries + {e}) == Starts(entries) + {Some(e.extent.start)}
  {
  }

  lemma EndsMore(entries: set<Entry>, e: Entry)
    requires e.extent.Range?
    ensures Ends(entries + {e}) == Ends(entries) + {Some(e.extent.end)}
  {
  }

  lemma ValuesMore(entries: set<Entry>, e: Entry)
    requires e.extent.Values?
    ensures AllValues(entries + {e}) == AllValues(entries) + e.extent.values
  {
    var more := entries + {e};
    assert e in more;
    forall v | v in AllValues(entries) ensures v in AllValues(more) {
      var f :| f in entries && f.extent.Values? && v in f.extent.values;
      assert f in more;
    }
    forall v | v in e.extent.values ensures v in AllValues(more) {
    }
  }

  /** One more extent: it fits exactly when it is of the kind of the others, and is then covered too. */
  lemma MergeCovers(extent: Extent, entries: set<Entry>, e: Entry)
    requires Covers(extent, entries)
    ensures var merged := MergeExtents(extent, e.extent);
            && (merged.Some? <==> SameKind(extent, e.extent))
            && (merged.Some? ==> Covers(merged.value, entries + {e}) && merged.value.resolution == extent.resolution)
  {
    var merged := MergeExtents(extent, e.extent);
    if merged.Some? {
      var m, more := merged.value, entries + {e};
      assert IsLeast(m.minDef, MinDefs(more)) && IsGreatest(m.maxDef, MaxDefs(more)) by {
        LeastMore(extent.minDef, MinDefs(entries), e.extent.minDef);
        GreatestMore(extent.maxDef, MaxDefs(entries), e.extent.maxDef);
        DefsMore(entries, e);
      }
      if extent.Range? {
        assert IsLeast(Some(m.start), Starts(more)) by {
          LeastMore(Some(extent.start), Starts(entries), Some(e.extent.start));
          StartsMore(entries, e);
        }
        assert IsGreatest(Some(m.end), Ends(more)) by {
          GreatestMore(Some(extent.end), Ends(entries), Some(e.extent.end));
          EndsMore(entries, e);
        }
      } else {
        ValuesMore(entries, e);
      }
    }
  }

  lemma FirstCovers(e: Entry)
    ensures Covers(e.extent, {e})
  {
    DefsMore({}, e);
    assert {} + {e} == {e} && MinDefs({}) == {} && MaxDefs({}) == {};
    if e.extent.Range? {
      StartsMore({}, e);
      EndsMore({}, e);
    } else {
      ValuesMore({}, e);
    }
  }

  lemma ModeMore(mode: Option<string>, entries: set<Entry>, e: Entry)
    requires IsMode(mode, entries)
    ensures e.mode == DISABLED || mode.None? || mode.value == e.mode
            ==> IsMode(if e.mode != DISABLED then Some(e.mode) else mode, entries + {e})
    ensures !(e.mode == DISABLED || mode.None? || mode.value == e.mode) ==> exists a :: a in entries && !ModesFit(a, e)
  {
  }

  /** An entry fits the others exactly when it fits their sum. */
  predicate FitsSum(info: Info, e: Entry) {
    && info.extent.Some? && SameKind(info.extent.value, e.extent)
    && (e.mode == DISABLED || info.mode.None? || info.mode.value == e.mode)
    && info.widget == Some(WidgetOf(e))
  }

  lemma FitsSumIff(info: Info, entries: set<Entry>, e: Entry, a: Entry)
    requires Sums(info, entries) && AllFit(entries) && a in entries
    ensures FitsSum(info, e) <==> AllFit(entries + {e})
  {
  }

  /** One more entry: it is merged exactly when it fits the others. */
  lemma StepSums(info: Info, entries: set<Entry>, e: Entry, a: Entry)
    requires Sums(info, entries) && AllFit(entries) && a in entries
    ensures var (after, merged) := Step(info, e);
            && (merged <==> AllFit(entries + {e}))
            && (merged ==> Sums(after, entries + {e}) && after.extent.value.resolution == info.extent.value.resolution)
  {
    MergeCovers(info.extent.value, entries, e);
    ModeMore(info.mode, entries, e);
    FitsSumIff(info, entries, e, a);
    var (after, merged) := Step(info, e);
    assert info.widget == Some(WidgetOf(a));
    assert merged <==> FitsSum(info, e);
  }

  lemma FirstSums(e: Entry)
    ensures var (after, merged) := Step(NOTHING, e); merged && Sums(after, {e}) && after.extent == Some(e.extent)
  {
    FirstCovers(e);
  }

  /** Entries can be merged exactly when every two of them fit, and give then what they say together. */
  lemma {:induction false} MergeAllIff(entries: seq<Entry>)
    requires entries != []
    ensures var merged := MergeAll(entries);
            && (merged.Some? <==> AllFit(Members(entries)))
            && (merged.Some? ==> Sums(merged.value, Members(entries))
                                 && merged.value.extent.value.resolution == entries[0].extent.resolution)
    decreases |entries|
  {
    var front, last := entries[..|entries| - 1], entries[|entries| - 1];
    assert Members(entries) == Members(front) + {last};
    if front == [] {
      assert Members(entries) == {last} && MergeAll(front) == Some(NOTHING);
      FirstSums(last);
    } else {
      MergeAllIff(front);
      assert front[0] in Members(front);
      if AllFit(Members(front)) {
        StepSums(MergeAll(front).value, Members(front), last, front[0]);
      } else {
        assert !AllFit(Members(entries));
      }
    }
  }

  // The order of the entries.

  /** The same information, except for the resolution. */
  predicate SameButResolution(a: Info, b: Info) {
    && a.mode == b.mode && a.widget == b.widget && a.extent.Some? == b.extent.Some?
    && (a.extent.Some? ==> a.extent.value == b.extent.value.(resolution := a.extent.value.resolution))
  }

  lemma LeastUnique(a: Option<int>, b: Option<int>, dates: set<Option<int>>)
    requires IsLeast(a, dates) && IsLeast(b, dates)
    ensures a == b
  {
  }

  lemma GreatestUnique(a: Option<int>, b: Option<int>, dates: set<Option<int>>)
    requires IsGreatest(a, dates) && IsGreatest(b, dates)
    ensures a == b
  {
  }

  lemma SumsUnique(a: Info, b: Info, entries: set<Entry>, e: Entry)
    requires e in entries && Sums(a, entries) && Sums(b, entries)
    ensures SameButResolution(a, b)
  {
    var x, y := a.extent.value, b.extent.value;
    assert SameKind(x, e.extent) && SameKind(y, e.extent);
    LeastUnique(x.minDef, y.minDef, MinDefs(entries));
    GreatestUnique(x.maxDef, y.maxDef, MaxDefs(entries));
    if x.Range? {
      LeastUnique(Some(x.start), Some(y.start), Starts(entries));
      GreatestUnique(Some(x.end), Some(y.end), Ends(entries));
    }
  }

  /** Entries in any order, or repeated, either fail to merge or give the same information; only the resolution is that of
    * the first. */
  lemma OrderDoesNotMatter(a: seq<Entry>, b: seq<Entry>)
    requires forall e :: e in a <==> e in b
    ensures MergeAll(a).Some? <==> MergeAll(b).Some?
    ensures MergeAll(a).Some? ==> SameButResolution(MergeAll(a).value, MergeAll(b).value)
  {
    assert Members(a) == Members(b);
    assert a != [] ==> a[0] in a;
    assert b != [] ==> b[0] in b;
    if a != [] {
      assert a[0] in b;
      MergeAllIff(a);
      MergeAllIff(b);
      if MergeAll(a).Some? {
        SumsUnique(MergeAll(a).value, MergeAll(b).value, Members(a), a[0]);
      }
    }
  }
}
