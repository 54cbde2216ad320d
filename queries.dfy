/** The store queries the handlers issue (`find`, `findById`, `deleteMany`),
    over collections held in memory in store order. */
module Queries {
  import opened LinkModel

  /** `Link.find({ user })`: the user's links, in store order. */
  function OwnedBy(links: seq<LinkRecord>, user: Id): (r: seq<LinkRecord>)
    ensures forall l :: l in r <==> l in links && l.user == user
    ensures |r| <= |links|
  {
    if |links| == 0 then []
    else (if links[0].user == user then [links[0]] else []) + OwnedBy(links[1..], user)
  }

  /** Each of the user's links appears in the result as often as in the store. */
  lemma {:induction false} OwnedByCounts(links: seq<LinkRecord>, user: Id)
    ensures forall l: LinkRecord :: l.user == user ==> multiset(OwnedBy(links, user))[l] == multiset(links)[l]
  {
    if |links| > 0 {
      OwnedByCounts(links[1..], user);
      assert links == [links[0]] + links[1..];
    }
  }

  /** `Link.deleteMany({ user })`: the links of every other owner, in order. */
  function DropOwned(links: seq<LinkRecord>, user: Id): (r: seq<LinkRecord>)
    ensures forall l :: l in r <==> l in links && l.user != user
    ensures |r| <= |links|
  {
    if |links| == 0 then []
    else (if links[0].user != user then [links[0]] else []) + DropOwned(links[1..], user)
  }

  /** No two links share an id. */
  predicate DistinctIds(links: seq<LinkRecord>) {
    forall a, b :: 0 <= a < b < |links| ==> links[a].id != links[b].id
  }

  /** The ids of some links. */
  function IdsOf(links: seq<LinkRecord>): set<Id> {
    set l | l in links :: l.id
  }

  /** `findById(id)`: the position of the link with that id, or -1. */
  function IndexOfId(links: seq<LinkRecord>, id: Id): (i: int)
    ensures -1 <= i < |links|
    ensures i >= 0 ==> links[i].id == id
    ensures i < 0 ==> forall j :: 0 <= j < |links| ==> links[j].id != id
  {
    if |links| == 0 then -1
    else if links[0].id == id then 0
    else
      var k := IndexOfId(links[1..], id);
      if k < 0 then -1 else k + 1
  }

  /** `Link.findByIdAndDelete(id)`: every other link, in order. */
  function WithoutId(links: seq<LinkRecord>, id: Id): (r: seq<LinkRecord>)
    ensures forall l :: l in r <==> l in links && l.id != id
    ensures |r| <= |links|
  {
    if |links| == 0 then []
    else (if links[0].id != id then [links[0]] else []) + WithoutId(links[1..], id)
  }

  /** `Clicks.find({ link: { $in: ids } })`: the clicks of those links, in order. */
  function ClicksFor(clicks: seq<Click>, ids: set<Id>): (r: seq<Click>)
    ensures forall c :: c in r <==> c in clicks && c.link in ids
    ensures |r| <= |clicks|
  {
    if |clicks| == 0 then []
    else (if clicks[0].link in ids then [clicks[0]] else []) + ClicksFor(clicks[1..], ids)
  }

  /** Each click of those links appears in the result as often as in the store. */
  lemma {:induction false} ClicksForCounts(clicks: seq<Click>, ids: set<Id>)
    ensures forall c: Click :: c.link in ids ==> multiset(ClicksFor(clicks, ids))[c] == multiset(clicks)[c]
  {
    if |clicks| > 0 {
      ClicksForCounts(clicks[1..], ids);
      assert clicks == [clicks[0]] + clicks[1..];
    }
  }

  /** `Clicks.deleteMany({ link: { $in: ids } })`: every click of another
      link survives, as often as it was there. */
  function DropClicks(clicks: seq<Click>, ids: set<Id>): (r: seq<Click>)
    ensures forall c :: c in r <==> c in clicks && c.link !in ids
    ensures forall c: Click :: c.link !in ids ==> multiset(r)[c] == multiset(clicks)[c]
    ensures |r| <= |clicks|
  {
    if |clicks| == 0 then []
    else
      var rest := DropClicks(clicks[1..], ids);
      assert clicks == [clicks[0]] + clicks[1..];
      (if clicks[0].link !in ids then [clicks[0]] else []) + rest
  }

  /** The number of clicks recorded against link `id`. */
  function ClickCount(clicks: seq<Click>, id: Id): nat {
    if |clicks| == 0 then 0
    else (if clicks[0].link == id then 1 else 0) + ClickCount(clicks[1..], id)
  }

  lemma {:induction false} ClickCountAppend(clicks: seq<Click>, c: Click, id: Id)
    ensures ClickCount(clicks + [c], id) == ClickCount(clicks, id) + (if c.link == id then 1 else 0)
  {
    if |clicks| > 0 {
      assert (clicks + [c])[1..] == clicks[1..] + [c];
      ClickCountAppend(clicks[1..], c, id);
    }
  }

  /** A link no click refers to has a count of zero. */
  lemma {:induction false} ClickCountNone(clicks: seq<Click>, id: Id)
    requires forall k :: 0 <= k < |clicks| ==> clicks[k].link != id
    ensures ClickCount(clicks, id) == 0
  {
    if |clicks| > 0 {
      ClickCountNone(clicks[1..], id);
    }
  }

  /** Deleting the clicks of other links leaves this link's count alone;
      deleting its own leaves none. */
  lemma {:induction false} ClickCountDrop(clicks: seq<Click>, ids: set<Id>, id: Id)
    ensures ClickCount(DropClicks(clicks, ids), id) == if id in ids then 0 else ClickCount(clicks, id)
  {
    if |clicks| > 0 {
      ClickCountDrop(clicks[1..], ids, id);
      var rest := DropClicks(clicks[1..], ids);
      var r := DropClicks(clicks, ids);
      if clicks[0].link !in ids {
        assert r == [clicks[0]] + rest;
        assert r[1..] == rest;
        assert ClickCount(r, id) == (if clicks[0].link == id then 1 else 0) + ClickCount(rest, id);
      } else {
        assert r == rest;
      }
    }
  }

  /** A link whose id no other link has can be put in front. */
  lemma ConsDistinct(x: LinkRecord, s: seq<LinkRecord>)
    requires DistinctIds(s) && forall l :: l in s ==> l.id != x.id
    ensures DistinctIds([x] + s)
  {
    var t := [x] + s;
    forall a, b | 0 <= a < b < |t| ensures t[a].id != t[b].id {
      assert t[b] == s[b - 1];
      if a > 0 {
        assert t[a] == s[a - 1];
      } else {
        assert s[b - 1] in s;
      }
    }
  }

  /** The tail of links with distinct ids has distinct ids, none of them the head's. */
  lemma TailDistinct(links: seq<LinkRecord>)
    requires |links| > 0 && DistinctIds(links)
    ensures DistinctIds(links[1..])
    ensures forall l :: l in links[1..] ==> l.id != links[0].id
  {
    var t := links[1..];
    forall a, b | 0 <= a < b < |t| ensures t[a].id != t[b].id {
      assert t[a] == links[a + 1] && t[b] == links[b + 1];
    }
    forall l | l in t ensures l.id != links[0].id {
      var m :| 0 <= m < |t| && t[m] == l;
      assert links[m + 1] == l;
    }
  }

  lemma {:induction false} DropOwnedDistinct(links: seq<LinkRecord>, user: Id)
    requires DistinctIds(links)
    ensures DistinctIds(DropOwned(links, user))
  {
    if |links| > 0 {
      TailDistinct(links);
      DropOwnedDistinct(links[1..], user);
      var rest := DropOwned(links[1..], user);
      if links[0].user != user {
        ConsDistinct(links[0], rest);
      } else {
        assert DropOwned(links, user) == rest;
      }
    }
  }

  lemma {:induction false} OwnedByDistinct(links: seq<LinkRecord>, user: Id)
    requires DistinctIds(links)
    ensures DistinctIds(OwnedBy(links, user))
  {
    if |links| > 0 {
      TailDistinct(links);
      OwnedByDistinct(links[1..], user);
      var rest := OwnedBy(links[1..], user);
      if links[0].user == user {
        ConsDistinct(links[0], rest);
      } else {
        assert OwnedBy(links, user) == rest;
      }
    }
  }

  /** No ids select no clicks. */
  lemma {:induction false} ClicksForNone(clicks: seq<Click>)
    ensures ClicksFor(clicks, {}) == []
  {
    if |clicks| > 0 {
      ClicksForNone(clicks[1..]);
    }
  }

  /** Adding a new id to the set adds exactly that link's clicks. */
  lemma {:induction false} ClicksForAdd(clicks: seq<Click>, ids: set<Id>, id: Id)
    requires id !in ids
    ensures |ClicksFor(clicks, ids + {id})| == |ClicksFor(clicks, ids)| + ClickCount(clicks, id)
  {
    if |clicks| > 0 {
      ClicksForAdd(clicks[1..], ids, id);
    }
  }

  lemma {:induction false} WithoutIdDistinct(links: seq<LinkRecord>, id: Id)
    requires DistinctIds(links)
    ensures DistinctIds(WithoutId(links, id))
  {
    if |links| > 0 {
      TailDistinct(links);
      WithoutIdDistinct(links[1..], id);
      var rest := WithoutId(links[1..], id);
      if links[0].id != id {
        ConsDistinct(links[0], rest);
      } else {
        assert WithoutId(links, id) == rest;
      }
    }
  }

  /** Deleting the clicks of no link deletes nothing. */
  lemma {:induction false} DropNoClicks(clicks: seq<Click>)
    ensures DropClicks(clicks, {}) == clicks
  {
    if |clicks| > 0 {
      DropNoClicks(clicks[1..]);
      assert clicks == [clicks[0]] + clicks[1..];
    }
  }

  /** Every click refers to one of the links. */
  ghost predicate Attached(links: seq<LinkRecord>, clicks: seq<Click>) {
    forall k :: 0 <= k < |clicks| ==> clicks[k].link in IdsOf(links)
  }

  /** Every link is consistent and has exactly `totalClicks` clicks. */
  ghost predicate Agree(links: seq<LinkRecord>, clicks: seq<Click>) {
    forall k :: 0 <= k < |links| ==> Consistent(links[k]) && ClickCount(clicks, links[k].id) == links[k].totalClicks
  }

  /** Two different links of a store with distinct ids have different ids. */
  lemma DifferentLinksDifferentIds(links: seq<LinkRecord>, l: LinkRecord, m: LinkRecord)
    requires DistinctIds(links) && l in links && m in links && l != m
    ensures l.id != m.id
  {
    var a :| 0 <= a < |links| && links[a] == l;
    var b :| 0 <= b < |links| && links[b] == m;
    assert a != b;
  }

  /** Removing the links with a given property together with all their
      clicks keeps the remaining links attached and their counts exact. */
  lemma CascadeKeepsInvariant(links: seq<LinkRecord>, clicks: seq<Click>, kept: seq<LinkRecord>, gone: set<Id>)
    requires DistinctIds(links) && Attached(links, clicks) && Agree(links, clicks)
    requires forall l :: l in kept ==> l in links && l.id !in gone
    requires forall l :: l in links && l.id !in gone ==> l in kept
    ensures Attached(kept, DropClicks(clicks, gone)) && Agree(kept, DropClicks(clicks, gone))
  {
    var rest := DropClicks(clicks, gone);
    forall k | 0 <= k < |rest| ensures rest[k].link in IdsOf(kept) {
      assert rest[k] in rest;
      var m :| 0 <= m < |clicks| && clicks[m] == rest[k];
      var l :| l in links && l.id == rest[k].link;
      assert l in kept;
    }
    forall k | 0 <= k < |kept| ensures Consistent(kept[k]) && ClickCount(rest, kept[k].id) == kept[k].totalClicks {
      assert kept[k] in kept;
      var m :| 0 <= m < |links| && links[m] == kept[k];
      ClickCountDrop(clicks, gone, kept[k].id);
    }
  }
}
