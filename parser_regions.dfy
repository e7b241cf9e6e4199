/** server/lib/pdf-structure-parser.ts: the greedy single pass that groups the
    y-sorted text items of a page into vertical regions. */
module ParserRegions {
  import opened Common
  import opened ParserText

  /** A region: the top of its first item, the lowest bottom seen, its items. */
  datatype Region = Region(min: real, max: real, items: seq<NormItem>)

  /** An item joins the current region when its top is above max + 10. */
  const JoinDistance: real := 10.0

  /** The regions after the items seen so far, one item at a time, as the loop builds them. */
  function Group(items: seq<NormItem>): seq<Region>
    decreases |items|
  {
    if items == [] then [] else GroupStep(Group(items[..|items| - 1]), items[|items| - 1])
  }

  /** One turn of the loop: a blank item is skipped; otherwise the item joins
      the last region when its top is above that region's max + 10, and opens
      a new region when not. */
  function GroupStep(prev: seq<Region>, it: NormItem): seq<Region> {
    if IsBlank(it.text) then prev
    else if prev == [] then [Region(it.y, it.bottom, [it])]
    else if it.y < prev[|prev| - 1].max + JoinDistance then JoinLast(prev, it)
    else prev + [Region(it.y, it.bottom, [it])]
  }

  /** The regions the loop holds: the closed ones, then the current one. */
  function Pending(closed: seq<Region>, current: Option<Region>): seq<Region> {
    closed + (if current.Some? then [current.value] else [])
  }

  /** One turn of the grouping loop on `textRegions` and `currentRegion`. */
  method GroupItem(closed: seq<Region>, current: Option<Region>, item: NormItem)
    returns (closed': seq<Region>, current': Option<Region>)
    requires current.None? ==> closed == []
    ensures Pending(closed', current') == GroupStep(Pending(closed, current), item)
    ensures current'.None? ==> closed' == []
  {
    closed', current' := closed, current;
    if IsBlank(item.text) {
      return;
    }
    if current.Some? {
      var cur := current.value;
      if item.y < cur.max + JoinDistance {
        PendingJoin(closed, cur, item);
        current' := Some(Extend(cur, item));
      } else {
        PendingStart(closed + [cur], item);
        closed' := closed + [cur];
        current' := Some(Region(item.y, item.bottom, [item]));
      }
    } else {
      current' := Some(Region(item.y, item.bottom, [item]));
    }
  }

  /** The grouping loop of parsePdf, with `currentRegion` and `textRegions`. */
  method GroupRegions(items: seq<NormItem>) returns (regions: seq<Region>)
    ensures regions == Group(items)
  {
    var textRegions: seq<Region> := [];
    var current: Option<Region> := None;
    for k := 0 to |items|
      invariant Pending(textRegions, current) == Group(items[..k])
      invariant current.None? ==> textRegions == []
    {
      GroupPrefix(items, k);
      textRegions, current := GroupItem(textRegions, current, items[k]);
    }
    assert items[..|items|] == items;
    if current.Some? {
      textRegions := textRegions + [current.value];
    }
    regions := textRegions;
  }

  lemma GroupPrefix(items: seq<NormItem>, k: nat)
    requires k < |items|
    ensures Group(items[..k + 1]) == GroupStep(Group(items[..k]), items[k])
  {
    assert items[..k + 1][..k] == items[..k];
  }

  lemma PendingJoin(closed: seq<Region>, cur: Region, it: NormItem)
    requires !IsBlank(it.text) && it.y < cur.max + JoinDistance
    ensures Pending(closed, Some(Extend(cur, it))) == GroupStep(Pending(closed, Some(cur)), it)
  {
    assert (closed + [cur])[..|closed|] == closed;
  }

  lemma PendingStart(rs: seq<Region>, it: NormItem)
    requires !IsBlank(it.text) && rs != [] && it.y >= rs[|rs| - 1].max + JoinDistance
    ensures Pending(rs, Some(Region(it.y, it.bottom, [it]))) == GroupStep(rs, it)
  {
  }

  // ---------------------------------------------------------------------------
  // What the grouping guarantees

  /** The items of the regions, region by region. */
  function Flatten(rs: seq<Region>): seq<NormItem> {
    if rs == [] then [] else Flatten(rs[..|rs| - 1]) + rs[|rs| - 1].items
  }

  /** The items that are not blank once tags are stripped, in order. */
  function NonBlank(items: seq<NormItem>): seq<NormItem> {
    if items == [] then []
    else NonBlank(items[..|items| - 1]) + (if IsBlank(items[|items| - 1].text) then [] else [items[|items| - 1]])
  }

  /** The lowest bottom among the items. */
  function MaxBottom(s: seq<NormItem>): real
    requires |s| > 0
  {
    if |s| == 1 then s[0].bottom else Max(MaxBottom(s[..|s| - 1]), s[|s| - 1].bottom)
  }

  /** A region starts at its first item's top, ends at the lowest bottom, and
      every later item's top lies above the running maximum plus 10. */
  predicate WellFormedRegion(r: Region) {
    && |r.items| > 0
    && r.min == r.items[0].y
    && r.max == MaxBottom(r.items)
    && forall j :: 0 < j < |r.items| ==> r.items[j].y < MaxBottom(r.items[..j]) + JoinDistance
  }

  /** Each region starts at least 10 below where the previous one ends. */
  predicate Separated(rs: seq<Region>) {
    forall i :: 0 <= i < |rs| - 1 ==> rs[i + 1].min >= rs[i].max + JoinDistance
  }

  predicate AllWellFormed(rs: seq<Region>) {
    forall i :: 0 <= i < |rs| ==> WellFormedRegion(rs[i])
  }

  /** Adding a region that starts far enough below the last one. */
  lemma StartRegion(prev: seq<Region>, it: NormItem)
    requires AllWellFormed(prev) && Separated(prev)
    requires prev != [] ==> it.y >= prev[|prev| - 1].max + JoinDistance
    ensures Flatten(prev + [Region(it.y, it.bottom, [it])]) == Flatten(prev) + [it]
    ensures AllWellFormed(prev + [Region(it.y, it.bottom, [it])])
    ensures Separated(prev + [Region(it.y, it.bottom, [it])])
  {
    var r := Region(it.y, it.bottom, [it]);
    var rs := prev + [r];
    assert rs[..|rs| - 1] == prev && rs[|rs| - 1] == r;
    forall i | 0 <= i < |rs| ensures WellFormedRegion(rs[i]) {
      if i < |prev| {
        assert rs[i] == prev[i];
      }
    }
    forall i | 0 <= i < |rs| - 1 ensures rs[i + 1].min >= rs[i].max + JoinDistance {
      assert rs[i] == prev[i];
      if i + 1 < |prev| {
        assert rs[i + 1] == prev[i + 1];
      }
    }
  }

  /** The current region after it takes in one more item. */
  function Extend(cur: Region, it: NormItem): Region {
    Region(cur.min, Max(cur.max, it.bottom), cur.items + [it])
  }

  lemma ExtendWellFormed(cur: Region, it: NormItem)
    requires WellFormedRegion(cur) && it.y < cur.max + JoinDistance
    ensures WellFormedRegion(Extend(cur, it))
  {
    var e := Extend(cur, it);
    assert e.items[..|cur.items|] == cur.items;
    assert e.items[0] == cur.items[0];
    forall j | 0 < j < |e.items|
      ensures e.items[j].y < MaxBottom(e.items[..j]) + JoinDistance
    {
      if j < |cur.items| {
        assert e.items[..j] == cur.items[..j];
        assert e.items[j] == cur.items[j];
      }
    }
  }

  /** The regions with the last one grown by an item. */
  function JoinLast(prev: seq<Region>, it: NormItem): seq<Region>
    requires prev != []
  {
    prev[..|prev| - 1] + [Extend(prev[|prev| - 1], it)]
  }

  lemma JoinFlatten(prev: seq<Region>, it: NormItem)
    requires prev != []
    ensures Flatten(JoinLast(prev, it)) == Flatten(prev) + [it]
  {
    var m := |prev|;
    var rs := JoinLast(prev, it);
    assert rs[..m - 1] == prev[..m - 1];
  }

  lemma JoinWellFormed(prev: seq<Region>, it: NormItem)
    requires AllWellFormed(prev) && prev != []
    requires it.y < prev[|prev| - 1].max + JoinDistance
    ensures AllWellFormed(JoinLast(prev, it))
  {
    var m := |prev|;
    var rs := JoinLast(prev, it);
    ExtendWellFormed(prev[m - 1], it);
    forall i | 0 <= i < m ensures WellFormedRegion(rs[i]) {
      if i < m - 1 {
        assert rs[i] == prev[i];
      }
    }
  }

  lemma JoinSeparated(prev: seq<Region>, it: NormItem)
    requires Separated(prev) && prev != []
    ensures Separated(JoinLast(prev, it))
  {
    var m := |prev|;
    var rs := JoinLast(prev, it);
    forall i | 0 <= i < m - 1 ensures rs[i + 1].min >= rs[i].max + JoinDistance {
      assert rs[i] == prev[i];
      assert rs[i + 1].min == prev[i + 1].min;
    }
  }

  /** Every non-blank item lands in exactly one region, in input order; every
      region is well formed; and consecutive regions are separated. Together with
      WellFormedRegion this is the rule "an item joins iff item.y < max + 10". */
  lemma {:induction false} GroupFacts(items: seq<NormItem>)
    ensures Flatten(Group(items)) == NonBlank(items)
    ensures AllWellFormed(Group(items)) && Separated(Group(items))
    decreases |items|
  {
    if items != [] {
      var n := |items|;
      var init := items[..n - 1];
      GroupFacts(init);
      GroupStepFacts(Group(init), items[n - 1]);
    }
  }

  lemma GroupStepFacts(prev: seq<Region>, it: NormItem)
    requires AllWellFormed(prev) && Separated(prev)
    ensures Flatten(GroupStep(prev, it)) == Flatten(prev) + (if IsBlank(it.text) then [] else [it])
    ensures AllWellFormed(GroupStep(prev, it)) && Separated(GroupStep(prev, it))
  {
    if IsBlank(it.text) {
    } else if prev == [] {
      StartRegion(prev, it);
    } else if it.y < prev[|prev| - 1].max + JoinDistance {
      JoinFlatten(prev, it);
      JoinWellFormed(prev, it);
      JoinSeparated(prev, it);
    } else {
      StartRegion(prev, it);
    }
  }

  /** The lowest bottom is at least every item's bottom. */
  lemma {:induction false} MaxBottomBound(s: seq<NormItem>)
    requires |s| > 0
    ensures forall j :: 0 <= j < |s| ==> s[j].bottom <= MaxBottom(s)
  {
    if |s| > 1 {
      MaxBottomBound(s[..|s| - 1]);
      forall j | 0 <= j < |s| - 1 ensures s[j].bottom <= MaxBottom(s) {
        assert s[..|s| - 1][j] == s[j];
      }
    }
  }

  /** A region whose first item has a non-negative height ends no higher than it starts. */
  lemma RegionMinBelowMax(r: Region)
    requires WellFormedRegion(r)
    requires r.items[0].y <= r.items[0].bottom
    ensures r.min <= r.max
  {
    MaxBottomBound(r.items);
  }
}
