/** The dashboard routes (routes/dashboard.js) that read the stores or
    compute new records: the overview totals, paging, the click listing,
    one link's details and the PATCH update. The routes that change the
    stores are methods of `Store.Db`. */
module Dashboard {
  import opened Wrappers
  import opened Http
  import opened DeviceDetect
  import opened LinkModel
  import opened Queries

  // ---------------------------------------------------------------------
  // Totals over a user's links (summed from the last link backwards, so
  // that a loop over a growing prefix adds one link per step).

  function TotalOf(links: seq<LinkRecord>): int {
    if |links| == 0 then 0 else TotalOf(links[..|links| - 1]) + links[|links| - 1].totalClicks
  }

  function DeviceTotal(links: seq<LinkRecord>, d: DeviceType): int {
    if |links| == 0 then 0 else DeviceTotal(links[..|links| - 1], d) + links[|links| - 1].deviceClicks.Get(d)
  }

  /** The clicks on `day` summed over every `dateClicks` entry of every link. */
  function DayTotal(links: seq<LinkRecord>, day: string): int {
    if |links| == 0 then 0 else DayTotal(links[..|links| - 1], day) + DayCount(links[|links| - 1].dateClicks, day)
  }

  /** Every day that has an entry in some link. */
  function DatesOf(links: seq<LinkRecord>): set<string> {
    if |links| == 0 then {} else DatesOf(links[..|links| - 1]) + DatesIn(links[|links| - 1].dateClicks)
  }

  lemma {:induction false} DayCountOutside(entries: seq<DateClick>, day: string)
    requires day !in DatesIn(entries)
    ensures DayCount(entries, day) == 0
  {
    if |entries| > 0 {
      DayCountOutside(entries[1..], day);
    }
  }

  lemma {:induction false} DayTotalOutside(links: seq<LinkRecord>, day: string)
    requires day !in DatesOf(links)
    ensures DayTotal(links, day) == 0
  {
    if |links| > 0 {
      DayTotalOutside(links[..|links| - 1], day);
      DayCountOutside(links[|links| - 1].dateClicks, day);
    }
  }

  /** On consistent links, the reported total equals the sum of the three
      device totals: no click is lost between the two views. */
  lemma {:induction false} DeviceTotalsAddUp(links: seq<LinkRecord>)
    requires forall k :: 0 <= k < |links| ==> Consistent(links[k])
    ensures TotalOf(links) == DeviceTotal(links, Mobile) + DeviceTotal(links, Desktop) + DeviceTotal(links, Tablet)
  {
    if |links| > 0 {
      DeviceTotalsAddUp(links[..|links| - 1]);
    }
  }

  // ---------------------------------------------------------------------
  // The reported arrays and their order.

  /** One reported `{date, totalClicks}` or `{device, clicks}` pair. */
  datatype Entry = Entry(key: string, value: int)

  predicate SortedDesc(s: seq<Entry>) {
    forall i, j :: 0 <= i < j < |s| ==> s[i].value >= s[j].value
  }

  function KeysOf(s: seq<Entry>): set<string> {
    set e | e in s :: e.key
  }

  predicate DistinctKeys(s: seq<Entry>) {
    forall i, j :: 0 <= i < j < |s| ==> s[i].key != s[j].key
  }

  /** Inserts `x` before the first entry that does not exceed it, so that
      entries with equal values keep their order. */
  function InsertDesc(x: Entry, s: seq<Entry>): seq<Entry> {
    if |s| == 0 then [x]
    else if s[0].value <= x.value then [x] + s
    else [s[0]] + InsertDesc(x, s[1..])
  }

  /** `.sort((a, b) => b.value - a.value)`: a stable sort by decreasing value.
      The result is ordered by decreasing value and loses or adds nothing. */
  function SortDesc(s: seq<Entry>): (r: seq<Entry>)
    ensures SortedDesc(r)
    ensures multiset(r) == multiset(s)
  {
    if |s| == 0 then []
    else
      var t := SortDesc(s[1..]);
      SortStep(s, t);
      InsertDesc(s[0], t)
  }

  /** Inserting the head into the sorted rest sorts the whole sequence. */
  lemma SortStep(s: seq<Entry>, t: seq<Entry>)
    requires |s| > 0 && SortedDesc(t) && multiset(t) == multiset(s[1..])
    ensures SortedDesc(InsertDesc(s[0], t))
    ensures multiset(InsertDesc(s[0], t)) == multiset(s)
  {
    InsertDescSorted(s[0], t);
    InsertDescPerm(s[0], t);
    assert s == [s[0]] + s[1..];
  }

  lemma {:induction false} InsertDescPerm(x: Entry, s: seq<Entry>)
    ensures multiset(InsertDesc(x, s)) == multiset(s) + multiset{x}
  {
    if |s| > 0 && s[0].value > x.value {
      InsertDescPerm(x, s[1..]);
      assert s == [s[0]] + s[1..];
    }
  }

  /** An entry at least as large as every other can be put in front. */
  lemma ConsSorted(x: Entry, s: seq<Entry>)
    requires SortedDesc(s) && forall e :: e in s ==> e.value <= x.value
    ensures SortedDesc([x] + s)
  {
    var t := [x] + s;
    forall i, j | 0 <= i < j < |t| ensures t[i].value >= t[j].value {
      assert t[j] == s[j - 1];
      if i > 0 {
        assert t[i] == s[i - 1];
      } else {
        assert s[j - 1] in s;
      }
    }
  }

  lemma {:induction false} InsertDescSorted(x: Entry, s: seq<Entry>)
    requires SortedDesc(s)
    ensures SortedDesc(InsertDesc(x, s))
  {
    if |s| > 0 && s[0].value > x.value {
      assert SortedDesc(s[1..]) by {
        forall i, j | 0 <= i < j < |s[1..]| ensures s[1..][i].value >= s[1..][j].value {
          assert s[1..][i] == s[i + 1] && s[1..][j] == s[j + 1];
        }
      }
      InsertDescSorted(x, s[1..]);
      InsertDescPerm(x, s[1..]);
      var t := InsertDesc(x, s[1..]);
      forall e | e in t ensures e.value <= s[0].value {
        assert e in multiset(s[1..]) + multiset{x};
        if e != x {
          var m :| 0 <= m < |s[1..]| && s[1..][m] == e;
          assert s[m + 1] == e;
        }
      }
      ConsSorted(s[0], t);
    } else if |s| > 0 {
      forall e | e in s ensures e.value <= x.value {
        var m :| 0 <= m < |s| && s[m] == e;
        assert s[0].value >= s[m].value || m == 0;
      }
      ConsSorted(x, s);
    }
  }

  lemma KeysOfPermutation(s: seq<Entry>, t: seq<Entry>)
    requires multiset(s) == multiset(t)
    ensures KeysOf(s) == KeysOf(t)
  {
    forall e | e in s ensures e in t { assert e in multiset(s); }
    forall e | e in t ensures e in s { assert e in multiset(t); }
  }

  /** An entry whose key no other entry has can be put in front. */
  lemma ConsDistinctKeys(x: Entry, s: seq<Entry>)
    requires DistinctKeys(s) && x.key !in KeysOf(s)
    ensures DistinctKeys([x] + s)
  {
    var t := [x] + s;
    forall i, j | 0 <= i < j < |t| ensures t[i].key != t[j].key {
      assert t[j] == s[j - 1];
      if i > 0 {
        assert t[i] == s[i - 1];
      } else {
        assert s[j - 1] in s;
      }
    }
  }

  lemma {:induction false} InsertDescDistinct(x: Entry, s: seq<Entry>)
    requires DistinctKeys(s) && x.key !in KeysOf(s)
    ensures DistinctKeys(InsertDesc(x, s))
  {
    if |s| > 0 && s[0].value > x.value {
      assert DistinctKeys(s[1..]) by {
        forall i, j | 0 <= i < j < |s[1..]| ensures s[1..][i].key != s[1..][j].key {
          assert s[1..][i] == s[i + 1] && s[1..][j] == s[j + 1];
        }
      }
      assert KeysOf(s[1..]) <= KeysOf(s) by {
        forall e | e in s[1..] ensures e in s { }
      }
      InsertDescDistinct(x, s[1..]);
      InsertDescPerm(x, s[1..]);
      var t := InsertDesc(x, s[1..]);
      assert s[0].key !in KeysOf(t) by {
        forall e | e in t ensures e.key != s[0].key {
          assert e in multiset(s[1..]) + multiset{x};
          if e != x {
            var m :| 0 <= m < |s[1..]| && s[1..][m] == e;
            assert s[m + 1] == e;
          } else {
            assert s[0] in s;
          }
        }
      }
      ConsDistinctKeys(s[0], t);
    } else {
      ConsDistinctKeys(x, s);
    }
  }

  /** Sorting keeps the set of keys and keeps them distinct. */
  lemma {:induction false} SortDescDistinct(s: seq<Entry>)
    requires DistinctKeys(s)
    ensures DistinctKeys(SortDesc(s))
    ensures KeysOf(SortDesc(s)) == KeysOf(s)
  {
    KeysOfPermutation(SortDesc(s), s);
    if |s| > 0 {
      TailDistinctKeys(s);
      SortDescDistinct(s[1..]);
      InsertDescDistinct(s[0], SortDesc(s[1..]));
    }
  }

  /** Dropping the head keeps keys distinct, and the head's key is not among
      the rest. */
  lemma TailDistinctKeys(s: seq<Entry>)
    requires |s| > 0 && DistinctKeys(s)
    ensures DistinctKeys(s[1..])
    ensures s[0].key !in KeysOf(s[1..])
  {
    forall i, j | 0 <= i < j < |s[1..]| ensures s[1..][i].key != s[1..][j].key {
      assert s[1..][i] == s[i + 1] && s[1..][j] == s[j + 1];
    }
    forall e | e in s[1..] ensures e.key != s[0].key {
      var m :| 0 <= m < |s[1..]| && s[1..][m] == e;
      assert s[m + 1] == e;
    }
  }

  /** `Object.entries(obj).map(...)` for an object with key order `keys`:
      one entry per key of the object, no key twice, each with its value. */
  function EntriesOf(keys: seq<string>, m: map<string, int>): (r: seq<Entry>)
    requires KeyOrder(keys, m)
    ensures DistinctKeys(r)
    ensures KeysOf(r) == m.Keys
    ensures forall e :: e in r ==> e.key in m && e.value == m[e.key]
    ensures |r| == |keys|
    ensures forall i :: 0 <= i < |r| ==> r[i] == Entry(keys[i], m[keys[i]])
  {
    var r := seq(|keys|, i requires 0 <= i < |keys| => Entry(keys[i], m[keys[i]]));
    assert KeysOf(r) == m.Keys by {
      forall d | d in m ensures d in KeysOf(r) {
        var a :| 0 <= a < |keys| && keys[a] == d;
        assert r[a] in r;
      }
    }
    r
  }

  // ---------------------------------------------------------------------
  // GET /

  /** The keys of the `dateWiseClicks` object in insertion order: no key
      twice, and exactly the keys of the map. */
  ghost predicate KeyOrder(order: seq<string>, dateWise: map<string, int>) {
    && (forall a, b :: 0 <= a < b < |order| ==> order[a] != order[b])
    && (forall d :: d in order <==> d in dateWise)
  }

  /** `dateWise` with key order `order` holds, for every day, its value in
      `base` (0 if absent) plus the counts of the entries `done` for that
      day, and has exactly the days of `base` and of `done`. */
  ghost predicate Tally(dateWise: map<string, int>, order: seq<string>, base: map<string, int>, done: seq<DateClick>) {
    && KeyOrder(order, dateWise)
    && dateWise.Keys == base.Keys + DatesIn(done)
    && forall d :: d in dateWise ==> dateWise[d] == (if d in base then base[d] else 0) + DayCount(done, d)
  }

  /** One step of the inner loop: adding entry `e` to its day (a new day
      goes at the end of the key order) extends the tally by `e`. */
  lemma AddDayStep(dateWise: map<string, int>, order: seq<string>, base: map<string, int>, done: seq<DateClick>, e: DateClick)
    requires Tally(dateWise, order, base, done)
    ensures Tally(dateWise[e.date := (if e.date in dateWise then dateWise[e.date] else 0) + e.count],
                  if e.date in dateWise then order else order + [e.date],
                  base, done + [e])
  {
    DatesInAppend(done, e);
    forall d ensures DayCount(done + [e], d) == DayCount(done, d) + (if e.date == d then e.count else 0) {
      DayCountAppend(done, e, d);
    }
    if e.date !in dateWise {
      DayCountOutside(done, e.date);
    }
  }

  /** One entry of the inner `forEach`: `if (dateWise[date]) dateWise[date] +=
      count; else dateWise[date] = count;`. The truthiness test sends a day
      whose total is 0 down the second branch, which gives the same value,
      so the step always adds `count` to the day's total so far. A new day
      becomes the last key. */
  method AddDay(dateWise: map<string, int>, order: seq<string>, e: DateClick)
    returns (dateWise': map<string, int>, order': seq<string>)
    ensures dateWise' == dateWise[e.date := (if e.date in dateWise then dateWise[e.date] else 0) + e.count]
    ensures order' == if e.date in dateWise then order else order + [e.date]
  {
    order' := order;
    if e.date in dateWise && dateWise[e.date] != 0 {
      dateWise' := dateWise[e.date := dateWise[e.date] + e.count];
    } else {
      if e.date !in dateWise {
        order' := order + [e.date];
      }
      dateWise' := dateWise[e.date := e.count];
    }
  }

  /** The inner `link.dateClicks.forEach`: adds each entry's count to its
      day's total, creating the day when it is new (or when its total so far
      is 0, which the truthiness test treats alike). */
  method AddDays(dateWise: map<string, int>, order: seq<string>, entries: seq<DateClick>)
    returns (dateWise': map<string, int>, order': seq<string>)
    requires KeyOrder(order, dateWise)
    ensures Tally(dateWise', order', dateWise, entries)
  {
    dateWise', order' := dateWise, order;
    var j := 0;
    while j < |entries|
      invariant 0 <= j <= |entries|
      invariant Tally(dateWise', order', dateWise, entries[..j])
    {
      var e := entries[j];
      assert entries[..j + 1] == entries[..j] + [e];
      AddDayStep(dateWise', order', dateWise, entries[..j], e);
      dateWise', order' := AddDay(dateWise', order', e);
      j := j + 1;
    }
    assert entries[..j] == entries;
  }

  /** The outer `exist.forEach`, over the user's links. */
  method SumLinks(mine: seq<LinkRecord>)
    returns (total: int, dateWise: map<string, int>, order: seq<string>, mobile: int, desktop: int, tablet: int)
    ensures total == TotalOf(mine)
    ensures mobile == DeviceTotal(mine, Mobile) && desktop == DeviceTotal(mine, Desktop) && tablet == DeviceTotal(mine, Tablet)
    ensures KeyOrder(order, dateWise)
    ensures dateWise.Keys == DatesOf(mine)
    ensures forall d :: d in dateWise ==> dateWise[d] == DayTotal(mine, d)
  {
    dateWise, order := map[], [];
    mobile, desktop, tablet := 0, 0, 0;
    total := 0;
    var i := 0;
    while i < |mine|
      invariant 0 <= i <= |mine|
      invariant total == TotalOf(mine[..i])
      invariant mobile == DeviceTotal(mine[..i], Mobile)
      invariant desktop == DeviceTotal(mine[..i], Desktop)
      invariant tablet == DeviceTotal(mine[..i], Tablet)
      invariant KeyOrder(order, dateWise)
      invariant dateWise.Keys == DatesOf(mine[..i])
      invariant forall d :: d in dateWise ==> dateWise[d] == DayTotal(mine[..i], d)
    {
      var l := mine[i];
      assert mine[..i + 1][..i] == mine[..i];
      assert mine[..i + 1][i] == l;
      total := total + l.totalClicks;
      ghost var before := dateWise;
      dateWise, order := AddDays(dateWise, order, l.dateClicks);
      forall d | d in dateWise ensures dateWise[d] == DayTotal(mine[..i + 1], d) {
        if d !in before {
          DayTotalOutside(mine[..i], d);
        }
      }
      mobile := mobile + l.deviceClicks.mobile;
      desktop := desktop + l.deviceClicks.desktop;
      tablet := tablet + l.deviceClicks.tablet;
      i := i + 1;
    }
    assert mine[..i] == mine;
  }

  /** `Object.entries(dateWiseClicks)` sorted: distinct days, in decreasing
      order, each with its total. */
  lemma DateArray(order: seq<string>, dateWise: map<string, int>)
    requires KeyOrder(order, dateWise)
    ensures SortedDesc(SortDesc(EntriesOf(order, dateWise)))
    ensures DistinctKeys(SortDesc(EntriesOf(order, dateWise)))
    ensures KeysOf(SortDesc(EntriesOf(order, dateWise))) == dateWise.Keys
    ensures forall e :: e in SortDesc(EntriesOf(order, dateWise)) ==> e.key in dateWise && e.value == dateWise[e.key]
  {
    var dates := EntriesOf(order, dateWise);
    SortDescDistinct(dates);
    forall e | e in SortDesc(dates) ensures e.key in dateWise && e.value == dateWise[e.key] {
      assert e in multiset(dates);
    }
  }

  /** GET /: the user's links; the sum of their `totalClicks`; the per-day
      totals merged across those links, one entry per day that occurs, each
      the sum of every entry for that day; and the three device totals;
      both arrays in decreasing order of count. */
  method Overview(links: seq<LinkRecord>, user: Id)
    returns (linkData: seq<LinkRecord>, total: int, byDate: seq<Entry>, byDevice: seq<Entry>)
    ensures linkData == OwnedBy(links, user)
    ensures forall l :: l in linkData <==> l in links && l.user == user
    ensures total == TotalOf(OwnedBy(links, user))
    ensures SortedDesc(byDate) && DistinctKeys(byDate)
    ensures KeysOf(byDate) == DatesOf(OwnedBy(links, user))
    ensures forall k :: 0 <= k < |byDate| ==> byDate[k].value == DayTotal(OwnedBy(links, user), byDate[k].key)
    ensures SortedDesc(byDevice) && |byDevice| == 3
    ensures multiset(byDevice) == multiset{Entry("mobile", DeviceTotal(OwnedBy(links, user), Mobile)),
                                           Entry("desktop", DeviceTotal(OwnedBy(links, user), Desktop)),
                                           Entry("tablet", DeviceTotal(OwnedBy(links, user), Tablet))}
  {
    var mine := OwnedBy(links, user);
    linkData := mine;
    var dateWise, order, mobile, desktop, tablet;
    total, dateWise, order, mobile, desktop, tablet := SumLinks(mine);
    byDate := SortDesc(EntriesOf(order, dateWise));
    DateArray(order, dateWise);
    forall k | 0 <= k < |byDate| ensures byDate[k].value == DayTotal(mine, byDate[k].key) {
      assert byDate[k] in byDate;
    }
    var devices := [Entry("mobile", mobile), Entry("desktop", desktop), Entry("tablet", tablet)];
    byDevice := SortDesc(devices);
    assert |byDevice| == |devices| by {
      assert |multiset(byDevice)| == |byDevice| && |multiset(devices)| == |devices|;
    }
  }

  // ---------------------------------------------------------------------
  // GET /links and GET /getClicks

  /** `Number(limit) || 10`: an absent, non-numeric or zero limit is 10, so a
      page is never asked to be empty; a positive limit is used as it is. */
  function LimitOf(limit: Option<nat>): (n: nat)
    ensures n >= 1
    ensures limit.None? || limit.value == 0 ==> n == 10
    ensures limit.Some? && limit.value > 0 ==> n == limit.value
  {
    if limit.None? || limit.value == 0 then 10 else limit.value
  }

  /** `r` holds the entries of `s` numbered `[offset, offset + limit)` that
      exist, in order. The offset is `Number(offset) || 0`: an absent or
      non-numeric one (None) skips nothing. */
  ghost predicate IsPage<T>(r: seq<T>, s: seq<T>, offset: Option<nat>, limit: Option<nat>) {
    && |r| == (if offset.GetOr(0) >= |s| then 0
               else if |s| - offset.GetOr(0) < LimitOf(limit) then |s| - offset.GetOr(0)
               else LimitOf(limit))
    && forall k :: 0 <= k < |r| ==> offset.GetOr(0) + k < |s| && r[k] == s[offset.GetOr(0) + k]
  }

  /** `.skip(offset).limit(limit)`: the entries numbered `[offset, offset + limit)`
      that exist, in order. */
  function Page<T>(s: seq<T>, offset: Option<nat>, limit: Option<nat>): (r: seq<T>)
    ensures IsPage(r, s, offset, limit)
  {
    var from := if offset.GetOr(0) < |s| then offset.GetOr(0) else |s|;
    var to := if from + LimitOf(limit) < |s| then from + LimitOf(limit) else |s|;
    s[from..to]
  }

  /** With no paging parameters, the first ten. */
  lemma PageDefaults<T>(s: seq<T>)
    ensures Page(s, None, None) == if |s| <= 10 then s else s[..10]
    ensures Page(s, None, Some(0)) == Page(s, None, None)
  {
  }

  /** GET /links: one page of the user's links, in store order. */
  function ListLinks(links: seq<LinkRecord>, user: Id, offset: Option<nat>, limit: Option<nat>): (r: seq<LinkRecord>)
    ensures IsPage(r, OwnedBy(links, user), offset, limit)
    ensures |r| <= LimitOf(limit)
    ensures forall l :: l in r ==> l in links && l.user == user
  {
    var page := Page(OwnedBy(links, user), offset, limit);
    assert forall l :: l in page ==> l in OwnedBy(links, user);
    page
  }

  /** The body of GET /getClicks: one page of clicks and how many there are. */
  datatype ClickPage = ClickPage(clicks: seq<Click>, count: nat)

  /** GET /getClicks: 404 when the user has no links; otherwise one page of
      the clicks on the user's links and the number of all such clicks. */
  function GetClicks(links: seq<LinkRecord>, clicks: seq<Click>, user: Id,
                     offset: Option<nat>, limit: Option<nat>): (r: Response<ClickPage>)
    ensures r.Fail? <==> forall l :: l in links ==> l.user != user
    ensures r.Fail? ==> r.status == NotFound
    ensures r.Reply? ==> r.body.count == |ClicksFor(clicks, IdsOf(OwnedBy(links, user)))|
    ensures r.Reply? ==> IsPage(r.body.clicks, ClicksFor(clicks, IdsOf(OwnedBy(links, user))), offset, limit)
    ensures r.Reply? ==> |r.body.clicks| <= LimitOf(limit)
    ensures r.Reply? ==> forall c :: c in r.body.clicks ==>
              c in clicks && exists l :: l in links && l.user == user && l.id == c.link
  {
    var mine := OwnedBy(links, user);
    if |mine| == 0 then
      Fail(NotFound)
    else
      var all := ClicksFor(clicks, IdsOf(mine));
      var page := Page(all, offset, limit);
      assert mine[0] in links && mine[0].user == user;
      assert forall c :: c in page ==> c in all;
      Reply(ClickPage(page, |all|))
  }

  // ---------------------------------------------------------------------
  // GET /:id and PATCH /:id

  /** The body of GET /:id. */
  datatype LinkView = LinkView(originalLink: string, remark: string, expireDate: Option<int>)

  /** `Link.findOne({ user, _id: id })`: the first of the user's links with that id, or -1. */
  function IndexOfOwned(links: seq<LinkRecord>, user: Id, id: Id): (i: int)
    ensures -1 <= i < |links|
    ensures i >= 0 ==> links[i].user == user && links[i].id == id
    ensures i < 0 ==> forall j :: 0 <= j < |links| ==> !(links[j].user == user && links[j].id == id)
  {
    if |links| == 0 then -1
    else if links[0].user == user && links[0].id == id then 0
    else
      var k := IndexOfOwned(links[1..], user, id);
      if k < 0 then -1 else k + 1
  }

  /** GET /:id: the link's URL, remark and expiry, only to its owner. */
  function GetLink(links: seq<LinkRecord>, user: Id, id: Id): (r: Response<LinkView>)
    ensures r.Fail? <==> forall l :: l in links ==> !(l.user == user && l.id == id)
    ensures r.Fail? ==> r.status == NotFound
    ensures r.Reply? ==> (exists l :: l in links && l.user == user && l.id == id &&
                                      r.body == LinkView(l.originalLink, l.remark, l.expireDate))
  {
    var i := IndexOfOwned(links, user, id);
    if i < 0 then Fail(NotFound)
    else
      assert links[i] in links;
      Reply(LinkView(links[i].originalLink, links[i].remark, links[i].expireDate))
  }

  /** `findByIdAndUpdate(id, { originalLink, remark, expireDate })`: each
      field the request supplies replaces the stored one (an `expireDate` of
      null clears it); an absent field is left as it was. No save hook runs,
      so `activeStatus` and the counters stay as they were. */
  function Patched(l: LinkRecord, originalLink: Option<string>, remark: Option<string>,
                   expireDate: Option<Option<int>>): (r: LinkRecord)
    ensures r.originalLink == originalLink.GetOr(l.originalLink)
    ensures r.remark == remark.GetOr(l.remark)
    ensures r.expireDate == expireDate.GetOr(l.expireDate)
    ensures r.(originalLink := l.originalLink, remark := l.remark, expireDate := l.expireDate) == l
  {
    l.(originalLink := originalLink.GetOr(l.originalLink),
       remark := remark.GetOr(l.remark),
       expireDate := expireDate.GetOr(l.expireDate))
  }

  /** A PATCH that moves `expireDate` into the past leaves a link that still
      reads "Active" and yet is refused by the redirect; only a later save
      makes it "Inactive". */
  lemma PatchLeavesStatusStale(l: LinkRecord, past: int, now: int)
    requires l.activeStatus == Active && past < now
    ensures Patched(l, None, None, Some(Some(past))).activeStatus == Active
    ensures IsExpired(Patched(l, None, None, Some(Some(past))).expireDate, now)
    ensures Saved(Patched(l, None, None, Some(Some(past))), now).activeStatus == Inactive
  {
  }

  /** The patch keeps every counter and the consistency of the counters. */
  lemma PatchedConsistent(l: LinkRecord, originalLink: Option<string>, remark: Option<string>,
                          expireDate: Option<Option<int>>)
    requires Consistent(l)
    ensures Consistent(Patched(l, originalLink, remark, expireDate))
  {
  }
}
