/** The Link and Click records (models/link.model.js, models/clicks.model.js),
    the expiry rule, and the Mongoose document through which a Link is
    changed in place and saved. */
module LinkModel {
  import opened Wrappers
  import opened DeviceDetect

  /** Document ids (MongoDB ObjectIds). */
  type Id = nat

  /** `activeStatus`: the schema's enum has exactly these two values. */
  datatype Status = Active | Inactive

  /** One `dateClicks` entry: a calendar day and the clicks on it. */
  datatype DateClick = DateClick(date: string, count: nat)

  /** The `deviceClicks` sub-document. */
  datatype DeviceClicks = DeviceClicks(mobile: nat, desktop: nat, tablet: nat) {

    function Get(d: DeviceType): nat {
      match d
      case Mobile => mobile
      case Desktop => desktop
      case Tablet => tablet
    }

    /** `deviceClicks[d] += 1`: that counter rises by one, the others stay. */
    function Bump(d: DeviceType): (r: DeviceClicks)
      ensures r.Get(d) == Get(d) + 1
      ensures forall e :: e != d ==> r.Get(e) == Get(e)
    {
      match d
      case Mobile => this.(mobile := mobile + 1)
      case Desktop => this.(desktop := desktop + 1)
      case Tablet => this.(tablet := tablet + 1)
    }

    function Sum(): nat {
      mobile + desktop + tablet
    }
  }

  /** A stored Link. `expireDate` is a timestamp or null; `user` is the owner. */
  datatype LinkRecord = LinkRecord(
    id: Id,
    originalLink: string,
    remark: string,
    shortLink: string,
    expireDate: Option<int>,
    user: Id,
    activeStatus: Status,
    totalClicks: nat,
    dateClicks: seq<DateClick>,
    deviceClicks: DeviceClicks)

  /** A stored Click: the link it belongs to, when, from where, on what,
      and copies of the link's two URLs at click time. */
  datatype Click = Click(
    link: Id,
    timestamp: int,
    ipAddress: string,
    userDevice: DeviceType,
    originalLink: string,
    shortLink: string)

  /** `expireDate && expireDate < today`: a set date strictly before now.
      Both the save hook and the redirect use this one test. */
  predicate IsExpired(expireDate: Option<int>, now: int) {
    expireDate.Some? && expireDate.value < now
  }

  function StatusAt(expireDate: Option<int>, now: int): Status {
    if IsExpired(expireDate, now) then Inactive else Active
  }

  /** The record as the pre-save hook leaves it. */
  function Saved(l: LinkRecord, now: int): (r: LinkRecord)
    ensures r.activeStatus == Inactive <==> IsExpired(l.expireDate, now)
    ensures r.activeStatus == Active <==> !IsExpired(l.expireDate, now)
    ensures r.(activeStatus := l.activeStatus) == l
  {
    l.(activeStatus := StatusAt(l.expireDate, now))
  }

  /** Saving twice at the same instant is saving once. */
  lemma SavedIdempotent(l: LinkRecord, now: int)
    ensures Saved(Saved(l, now), now) == Saved(l, now)
  {
  }

  /** A link that expires exactly now is not yet expired. */
  lemma ExpiresNowStillActive(l: LinkRecord, now: int)
    requires l.expireDate == Some(now)
    ensures !IsExpired(l.expireDate, now)
    ensures Saved(l, now).activeStatus == Active
  {
  }

  /** Sum of the counts of all `dateClicks` entries. */
  function DateSum(entries: seq<DateClick>): nat {
    if |entries| == 0 then 0 else entries[0].count + DateSum(entries[1..])
  }

  /** Sum of the counts of the entries for `day`. */
  function DayCount(entries: seq<DateClick>, day: string): nat {
    if |entries| == 0 then 0
    else (if entries[0].date == day then entries[0].count else 0) + DayCount(entries[1..], day)
  }

  /** The days that have an entry. */
  function DatesIn(entries: seq<DateClick>): set<string> {
    if |entries| == 0 then {} else {entries[0].date} + DatesIn(entries[1..])
  }

  predicate DistinctDates(entries: seq<DateClick>) {
    forall i, j :: 0 <= i < j < |entries| ==> entries[i].date != entries[j].date
  }

  lemma {:induction false} DayCountAppend(entries: seq<DateClick>, e: DateClick, day: string)
    ensures DayCount(entries + [e], day) == DayCount(entries, day) + (if e.date == day then e.count else 0)
  {
    if |entries| > 0 {
      assert (entries + [e])[1..] == entries[1..] + [e];
      DayCountAppend(entries[1..], e, day);
    }
  }

  lemma {:induction false} DatesInAppend(entries: seq<DateClick>, e: DateClick)
    ensures DatesIn(entries + [e]) == DatesIn(entries) + {e.date}
  {
    if |entries| > 0 {
      assert (entries + [e])[1..] == entries[1..] + [e];
      DatesInAppend(entries[1..], e);
    } else {
      assert [e][1..] == [];
    }
  }

  lemma {:induction false} DatesInMembers(entries: seq<DateClick>, day: string)
    ensures day in DatesIn(entries) <==> exists k :: 0 <= k < |entries| && entries[k].date == day
  {
    if |entries| > 0 {
      DatesInMembers(entries[1..], day);
      if exists k :: 0 <= k < |entries| && entries[k].date == day {
        var k :| 0 <= k < |entries| && entries[k].date == day;
        if k > 0 {
          assert entries[1..][k - 1].date == day;
        }
      }
      if exists k :: 0 <= k < |entries[1..]| && entries[1..][k].date == day {
        var k :| 0 <= k < |entries[1..]| && entries[1..][k].date == day;
        assert entries[k + 1].date == day;
      }
    }
  }

  /** The counters of a link agree with each other: `totalClicks` equals the
      sum of the per-day counts and the sum of the device counters, and no
      day has two entries. Every link the store holds satisfies this. */
  predicate Consistent(l: LinkRecord) {
    && DistinctDates(l.dateClicks)
    && DateSum(l.dateClicks) == l.totalClicks
    && l.deviceClicks.Sum() == l.totalClicks
  }

  /** A Mongoose Link document: fetched from the store (or created),
      changed field by field, then saved. */
  class LinkDoc {
    var id: Id
    var originalLink: string
    var remark: string
    var shortLink: string
    var expireDate: Option<int>
    var user: Id
    var activeStatus: Status
    var totalClicks: nat
    var dateClicks: seq<DateClick>
    var deviceClicks: DeviceClicks

    /** The record this document would be written as. */
    function ToRecord(): LinkRecord
      reads this
    {
      LinkRecord(id, originalLink, remark, shortLink, expireDate, user,
                 activeStatus, totalClicks, dateClicks, deviceClicks)
    }

    /** A document read from the store. */
    constructor Hydrate(r: LinkRecord)
      ensures ToRecord() == r
    {
      id, originalLink, remark, shortLink := r.id, r.originalLink, r.remark, r.shortLink;
      expireDate, user, activeStatus := r.expireDate, r.user, r.activeStatus;
      totalClicks, dateClicks, deviceClicks := r.totalClicks, r.dateClicks, r.deviceClicks;
    }

    /** `new Link(linkData)`: the given fields, and the schema's defaults for
        the rest (an absent `expireDate` is the default null). */
    constructor Create(id: Id, originalLink: string, remark: string, shortLink: string,
                       user: Id, expireDate: Option<int>)
      ensures this.id == id && this.originalLink == originalLink && this.remark == remark
      ensures this.shortLink == shortLink && this.user == user && this.expireDate == expireDate
      ensures activeStatus == Active && totalClicks == 0
      ensures dateClicks == [] && deviceClicks == DeviceClicks(0, 0, 0)
    {
      this.id, this.originalLink, this.remark, this.shortLink := id, originalLink, remark, shortLink;
      this.user, this.expireDate := user, expireDate;
      activeStatus, totalClicks := Active, 0;
      dateClicks, deviceClicks := [], DeviceClicks(0, 0, 0);
    }

    /** The `pre("save")` hook: rewrites `activeStatus` from `expireDate`
        and touches nothing else. */
    method PreSave(now: int)
      modifies this
      ensures ToRecord() == Saved(old(ToRecord()), now)
    {
      if expireDate.Some? && expireDate.value < now {
        activeStatus := Inactive;
      } else {
        activeStatus := Active;
      }
    }
  }
}
