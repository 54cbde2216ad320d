/** The pieces of the short-link redirect (index.js, `GET /:shortLink`) that
    are about values: the lookup, the Click it records, and what one click
    does to a Link's counters. The handler itself, which changes the stores,
    is `Store.Db.Resolve`. */
module Resolver {
  import opened Wrappers
  import opened Http
  import opened DeviceDetect
  import opened LinkModel

  /** The outcome of a redirect request. */
  datatype Resolution = Redirect(url: string) | Missing | Expired {
    function Status(): int {
      match this
      case Redirect(_) => Found
      case Missing => NotFound
      case Expired => Gone
    }
  }

  /** `Link.findOne({ shortLink: code })`: the first link in store order with
      that code, or -1. Codes are not unique, so "first" matters. */
  function IndexOfCode(links: seq<LinkRecord>, code: string): (i: int)
    ensures -1 <= i < |links|
    ensures i >= 0 ==> links[i].shortLink == code && forall j :: 0 <= j < i ==> links[j].shortLink != code
    ensures i < 0 ==> forall j :: 0 <= j < |links| ==> links[j].shortLink != code
  {
    if |links| == 0 then -1
    else if links[0].shortLink == code then 0
    else
      var k := IndexOfCode(links[1..], code);
      if k < 0 then -1 else k + 1
  }

  /** `req.ip || "Unknown IP"`: the address when there is one, a placeholder
      otherwise. Either way the result is non-empty, so the `required`
      `ipAddress` of a Click is always met. */
  function ClientIp(ip: Option<string>): (s: string)
    ensures s != ""
    ensures Given(ip) ==> s == ip.value
    ensures !Given(ip) ==> s == "Unknown IP"
  {
    if Given(ip) then ip.value else "Unknown IP"
  }

  /** The Click recorded for a redirect through `l`, built at instant
      `clickNow` (the schema's `Date.now` default for `timestamp`). It points at
      the link, copies both of its URLs, and carries a non-empty address. */
  function ClickOf(l: LinkRecord, ip: Option<string>, device: DeviceType, clickNow: int): (c: Click)
    ensures c.link == l.id && c.timestamp == clickNow && c.userDevice == device
    ensures c.originalLink == l.originalLink && c.shortLink == l.shortLink
    ensures c.ipAddress != "" && (Given(ip) ==> c.ipAddress == ip.value)
  {
    Click(l.id, clickNow, ClientIp(ip), device, l.originalLink, l.shortLink)
  }

  /** Reference definition of the `dateClicks` after one click on `day`: the
      first entry for that day counts one more or, if there is none, an entry
      `{day, 1}` is appended. */
  function Tallied(entries: seq<DateClick>, day: string): seq<DateClick> {
    if |entries| == 0 then [DateClick(day, 1)]
    else if entries[0].date == day then [entries[0].(count := entries[0].count + 1)] + entries[1..]
    else [entries[0]] + Tallied(entries[1..], day)
  }

  /** `link.dateClicks.find(entry => entry.date === day)`: the index of the
      first entry for `day`, or -1. */
  method FindDateEntry(entries: seq<DateClick>, day: string) returns (k: int)
    ensures -1 <= k < |entries|
    ensures k >= 0 ==> entries[k].date == day && forall j :: 0 <= j < k ==> entries[j].date != day
    ensures k < 0 ==> forall j :: 0 <= j < |entries| ==> entries[j].date != day
  {
    k := 0;
    while k < |entries|
      invariant 0 <= k <= |entries|
      invariant forall j :: 0 <= j < k ==> entries[j].date != day
    {
      if entries[k].date == day {
        return;
      }
      k := k + 1;
    }
    k := -1;
  }

  /** When the first entry for `day` is at `k`, a click bumps that entry in
      place and leaves every other entry, and the order, as it was. */
  lemma {:induction false} TalliedFound(entries: seq<DateClick>, day: string, k: nat)
    requires k < |entries| && entries[k].date == day
    requires forall j :: 0 <= j < k ==> entries[j].date != day
    ensures Tallied(entries, day) == entries[k := entries[k].(count := entries[k].count + 1)]
  {
    if k > 0 {
      TalliedFound(entries[1..], day, k - 1);
    }
  }

  /** With no entry for `day`, a click appends `{day, 1}` after the others. */
  lemma {:induction false} TalliedAbsent(entries: seq<DateClick>, day: string)
    requires forall j :: 0 <= j < |entries| ==> entries[j].date != day
    ensures Tallied(entries, day) == entries + [DateClick(day, 1)]
  {
    if |entries| > 0 {
      TalliedAbsent(entries[1..], day);
      assert entries == [entries[0]] + entries[1..];
    }
  }

  /** A click adds exactly one to the total of all day counts, and to the
      count of its own day only. */
  lemma {:induction false} TalliedCounts(entries: seq<DateClick>, day: string, other: string)
    ensures DateSum(Tallied(entries, day)) == DateSum(entries) + 1
    ensures DayCount(Tallied(entries, day), other) == DayCount(entries, other) + (if other == day then 1 else 0)
  {
    if |entries| > 0 {
      var t := Tallied(entries, day);
      if entries[0].date == day {
        assert t[1..] == entries[1..];
      } else {
        TalliedCounts(entries[1..], day, other);
        assert t[1..] == Tallied(entries[1..], day);
      }
    }
  }

  /** A click adds `day` to the days with an entry, and a new entry appears
      exactly when the day had none: the sequence grows by at most one. */
  lemma {:induction false} TalliedDates(entries: seq<DateClick>, day: string)
    ensures DatesIn(Tallied(entries, day)) == DatesIn(entries) + {day}
    ensures |Tallied(entries, day)| == |entries| + (if day in DatesIn(entries) then 0 else 1)
  {
    if |entries| > 0 {
      var t := Tallied(entries, day);
      if entries[0].date == day {
        assert t[1..] == entries[1..];
      } else {
        TalliedDates(entries[1..], day);
        assert t[1..] == Tallied(entries[1..], day);
      }
    }
  }

  /** A click never creates a second entry for a day. */
  lemma {:induction false} TalliedDistinct(entries: seq<DateClick>, day: string)
    requires DistinctDates(entries)
    ensures DistinctDates(Tallied(entries, day))
  {
    if |entries| > 0 {
      var t := Tallied(entries, day);
      if entries[0].date == day {
        assert forall j :: 0 <= j < |t| ==> t[j].date == entries[j].date;
      } else {
        TalliedDistinct(entries[1..], day);
        TalliedDates(entries[1..], day);
        DatesInMembers(entries[1..], entries[0].date);
        DatesInMembers(Tallied(entries[1..], day), entries[0].date);
        assert t[1..] == Tallied(entries[1..], day);
        forall j | 0 < j < |t| ensures t[0].date != t[j].date {
          assert t[j] == t[1..][j - 1];
        }
      }
    }
  }

  /** Two clicks on the same day leave one entry for that day: the second
      click does not lengthen the sequence. */
  lemma SameDayAccumulates(entries: seq<DateClick>, day: string)
    ensures |Tallied(Tallied(entries, day), day)| == |Tallied(entries, day)|
    ensures DayCount(Tallied(Tallied(entries, day), day), day) == DayCount(entries, day) + 2
  {
    TalliedDates(entries, day);
    TalliedDates(Tallied(entries, day), day);
    TalliedCounts(entries, day, day);
    TalliedCounts(Tallied(entries, day), day, day);
  }

  /** The link as the handler saves it after one click on `day` from `device`;
      `saveNow` is the instant the pre-save hook reads the clock. The status is
      the one at save time, whatever it was before. */
  function Clicked(l: LinkRecord, device: DeviceType, day: string, saveNow: int): (r: LinkRecord)
    ensures r.totalClicks == l.totalClicks + 1
    ensures r.activeStatus == StatusAt(l.expireDate, saveNow)
    ensures r.id == l.id && r.shortLink == l.shortLink && r.originalLink == l.originalLink
    ensures r.user == l.user && r.expireDate == l.expireDate
  {
    Saved(l.(totalClicks := l.totalClicks + 1,
             deviceClicks := l.deviceClicks.Bump(device),
             dateClicks := Tallied(l.dateClicks, day)), saveNow)
  }

  /** The handler's in-place updates of a fetched document for one click
      on `day` from `device`, before it is saved. */
  method RecordClick(doc: LinkDoc, device: DeviceType, day: string)
    modifies doc
    ensures doc.ToRecord() == old(doc.ToRecord()).(totalClicks := old(doc.totalClicks) + 1,
                                                   deviceClicks := old(doc.deviceClicks).Bump(device),
                                                   dateClicks := Tallied(old(doc.dateClicks), day))
  {
    doc.totalClicks := doc.totalClicks + 1;
    doc.deviceClicks := doc.deviceClicks.Bump(device);
    var k := FindDateEntry(doc.dateClicks, day);
    if k >= 0 {
      TalliedFound(doc.dateClicks, day, k);
      doc.dateClicks := doc.dateClicks[k := doc.dateClicks[k].(count := doc.dateClicks[k].count + 1)];
    } else {
      TalliedAbsent(doc.dateClicks, day);
      doc.dateClicks := doc.dateClicks + [DateClick(day, 1)];
    }
  }

  /** One click: `totalClicks` rises by exactly one, so does exactly the
      classified device's counter, and so does the total of the day counts;
      `dateClicks` grows by at most one entry; the status is recomputed; no
      other field changes. */
  lemma ClickedCounters(l: LinkRecord, device: DeviceType, day: string, saveNow: int)
    ensures Clicked(l, device, day, saveNow).totalClicks == l.totalClicks + 1
    ensures Clicked(l, device, day, saveNow).deviceClicks.Get(device) == l.deviceClicks.Get(device) + 1
    ensures forall e :: e != device ==> Clicked(l, device, day, saveNow).deviceClicks.Get(e) == l.deviceClicks.Get(e)
    ensures DateSum(Clicked(l, device, day, saveNow).dateClicks) == DateSum(l.dateClicks) + 1
    ensures |l.dateClicks| <= |Clicked(l, device, day, saveNow).dateClicks| <= |l.dateClicks| + 1
    ensures Clicked(l, device, day, saveNow).activeStatus == StatusAt(l.expireDate, saveNow)
    ensures Clicked(l, device, day, saveNow).(totalClicks := l.totalClicks, deviceClicks := l.deviceClicks,
                                         dateClicks := l.dateClicks, activeStatus := l.activeStatus) == l
  {
    TalliedCounts(l.dateClicks, day, day);
    TalliedDates(l.dateClicks, day);
  }

  /** The handler tests expiry at `now` and the hook recomputes the status at
      a later `saveNow`. A link that passes the test is saved Inactive exactly
      when its expiry falls in between; otherwise it is saved Active. */
  lemma ClickedIsActive(l: LinkRecord, device: DeviceType, day: string, now: int, saveNow: int)
    requires !IsExpired(l.expireDate, now)
    ensures Clicked(l, device, day, saveNow).activeStatus == Inactive <==>
              l.expireDate.Some? && now <= l.expireDate.value < saveNow
    ensures saveNow <= now ==> Clicked(l, device, day, saveNow).activeStatus == Active
  {
  }

  /** A link expiring at 10 is redirected by a request tested at 10 and, if
      the hook runs at 11, saved as Inactive. */
  lemma ExpiresBetweenReads(l: LinkRecord, device: DeviceType, day: string)
    requires l.expireDate == Some(10)
    ensures !IsExpired(l.expireDate, 10)
    ensures Clicked(l, device, day, 11).activeStatus == Inactive
  {
  }

  /** A click keeps a consistent link consistent: the three counters move
      together and days stay distinct. */
  lemma ClickedConsistent(l: LinkRecord, device: DeviceType, day: string, saveNow: int)
    requires Consistent(l)
    ensures Consistent(Clicked(l, device, day, saveNow))
  {
    TalliedCounts(l.dateClicks, day, day);
    TalliedDistinct(l.dateClicks, day);
  }
}
