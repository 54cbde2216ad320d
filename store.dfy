/** The stores and the handlers that change them: the redirect of index.js,
    add/patch/delete of routes/dashboard.js, and register/update/delete of
    routes/user.js. Each handler runs to completion before the next starts. */
module Store {
  import opened Wrappers
  import opened Http
  import opened DeviceDetect
  import opened LinkModel
  import opened Resolver
  import opened Queries
  import opened Dashboard
  import opened Accounts

  /** An id a click refers to is below the next fresh id. */
  lemma AttachedBelow(links: seq<LinkRecord>, clicks: seq<Click>, bound: Id)
    requires Attached(links, clicks)
    requires forall k :: 0 <= k < |links| ==> links[k].id < bound
    ensures forall k :: 0 <= k < |clicks| ==> clicks[k].link < bound
  {
    forall k | 0 <= k < |clicks| ensures clicks[k].link < bound {
      var l :| l in links && l.id == clicks[k].link;
      var m :| 0 <= m < |links| && links[m] == l;
    }
  }

  lemma IdsOfReplace(links: seq<LinkRecord>, i: nat, r: LinkRecord)
    requires i < |links| && r.id == links[i].id
    ensures IdsOf(links[i := r]) == IdsOf(links)
  {
    var t := links[i := r];
    forall x | x in IdsOf(t) ensures x in IdsOf(links) {
      var l :| l in t && l.id == x;
      var m :| 0 <= m < |t| && t[m] == l;
      assert links[m] in links && links[m].id == x;
    }
    forall x | x in IdsOf(links) ensures x in IdsOf(t) {
      var l :| l in links && l.id == x;
      var m :| 0 <= m < |links| && links[m] == l;
      assert t[m] in t && t[m].id == x;
    }
  }

  lemma IdsOfAppend(links: seq<LinkRecord>, r: LinkRecord)
    ensures IdsOf(links + [r]) == IdsOf(links) + {r.id}
  {
    var t := links + [r];
    forall x | x in IdsOf(links) ensures x in IdsOf(t) {
      var l :| l in links && l.id == x;
      assert l in t;
    }
    assert r in t;
  }

  /** The store invariant, on the values of the three collections and the
      id counter: every id is below `nextId`; no id is shared within a
      collection; every click belongs to a stored link; and every link's
      counters agree with each other and with its clicks. */
  ghost predicate Inv(users: seq<User>, links: seq<LinkRecord>, clicks: seq<Click>, nextId: Id) {
    && (forall k :: 0 <= k < |users| ==> users[k].id < nextId)
    && (forall k :: 0 <= k < |links| ==> links[k].id < nextId)
    && DistinctUserIds(users)
    && DistinctIds(links)
    && Attached(links, clicks)
    && Agree(links, clicks)
  }

  /** Over links with distinct ids whose `totalClicks` are their click
      counts, the sum of the totals is the number of their clicks. */
  lemma {:induction false} TotalCountsClicks(mine: seq<LinkRecord>, clicks: seq<Click>)
    requires DistinctIds(mine)
    requires forall k :: 0 <= k < |mine| ==> ClickCount(clicks, mine[k].id) == mine[k].totalClicks
    ensures TotalOf(mine) == |ClicksFor(clicks, IdsOf(mine))|
  {
    if |mine| == 0 {
      assert IdsOf(mine) == {};
      ClicksForNone(clicks);
    } else {
      var init, x := mine[..|mine| - 1], mine[|mine| - 1];
      assert mine == init + [x];
      assert forall k :: 0 <= k < |init| ==> init[k] == mine[k];
      TotalCountsClicks(init, clicks);
      IdsOfAppend(init, x);
      assert x.id !in IdsOf(init) by {
        forall l | l in init ensures l.id != x.id {
          var a :| 0 <= a < |init| && init[a] == l;
        }
      }
      ClicksForAdd(clicks, IdsOf(init), x.id);
    }
  }

  /** In a store that keeps the invariant, the total the dashboard shows a
      user (GET /) is the number of clicks GET /getClicks counts for them. */
  lemma DashboardAgreesWithClicks(users: seq<User>, links: seq<LinkRecord>, clicks: seq<Click>, nextId: Id,
                                  user: Id, offset: Option<nat>, limit: Option<nat>)
    requires Inv(users, links, clicks, nextId)
    ensures TotalOf(OwnedBy(links, user)) == |ClicksFor(clicks, IdsOf(OwnedBy(links, user)))|
    ensures GetClicks(links, clicks, user, offset, limit).Reply? ==>
              GetClicks(links, clicks, user, offset, limit).body.count == TotalOf(OwnedBy(links, user))
  {
    var mine := OwnedBy(links, user);
    OwnedByDistinct(links, user);
    forall k | 0 <= k < |mine| ensures ClickCount(clicks, mine[k].id) == mine[k].totalClicks {
      assert mine[k] in mine;
      var j :| 0 <= j < |links| && links[j] == mine[k];
    }
    TotalCountsClicks(mine, clicks);
  }

  /** The guarded cascade `if (linkIds.length > 0) Clicks.deleteMany(...)`:
      skipping the call for no ids leaves the same clicks the call would. */
  method DeleteClicksOf(clicks: seq<Click>, owned: set<Id>) returns (rest: seq<Click>)
    ensures rest == DropClicks(clicks, owned)
    ensures owned == {} ==> rest == clicks
  {
    if |owned| > 0 {
      rest := DropClicks(clicks, owned);
    } else {
      DropNoClicks(clicks);
      rest := clicks;
    }
  }

  /** Recording a click on link `i` and saving the clicked link keeps the
      invariant. */
  lemma ClickKeepsInvariant(users: seq<User>, links: seq<LinkRecord>, clicks: seq<Click>, nextId: Id,
                            i: nat, c: Click, device: DeviceType, day: string, now: int)
    requires Inv(users, links, clicks, nextId)
    requires i < |links| && c.link == links[i].id
    ensures Inv(users, links[i := Clicked(links[i], device, day, now)], clicks + [c], nextId)
  {
    var t := links[i := Clicked(links[i], device, day, now)];
    ClickedConsistent(links[i], device, day, now);
    ClickedCounters(links[i], device, day, now);
    IdsOfReplace(links, i, t[i]);
    forall k | 0 <= k < |t| ensures Consistent(t[k]) && ClickCount(clicks + [c], t[k].id) == t[k].totalClicks {
      ClickCountAppend(clicks, c, t[k].id);
    }
    forall k | 0 <= k < |clicks| + 1 ensures (clicks + [c])[k].link in IdsOf(t) {
      if k == |clicks| {
        assert t[i] in t;
      } else {
        assert (clicks + [c])[k] == clicks[k];
      }
    }
  }

  /** A new link with a fresh id and no clicks keeps the invariant. */
  lemma AddKeepsInvariant(users: seq<User>, links: seq<LinkRecord>, clicks: seq<Click>, nextId: Id, r: LinkRecord)
    requires Inv(users, links, clicks, nextId)
    requires r.id == nextId && Consistent(r) && r.totalClicks == 0
    ensures Inv(users, links + [r], clicks, nextId + 1)
  {
    var t := links + [r];
    AttachedBelow(links, clicks, nextId);
    ClickCountNone(clicks, r.id);
    IdsOfAppend(links, r);
    assert forall k :: 0 <= k < |links| ==> t[k] == links[k];
  }

  /** Replacing link `i` by a consistent record with the same id and the
      same total keeps the invariant. */
  lemma ReplaceKeepsInvariant(users: seq<User>, links: seq<LinkRecord>, clicks: seq<Click>, nextId: Id,
                              i: nat, r: LinkRecord)
    requires Inv(users, links, clicks, nextId)
    requires i < |links| && r.id == links[i].id && r.totalClicks == links[i].totalClicks && Consistent(r)
    ensures Inv(users, links[i := r], clicks, nextId)
  {
    IdsOfReplace(links, i, r);
  }

  /** Links taken from a store keep its id bound. */
  lemma SubsetBelow(links: seq<LinkRecord>, kept: seq<LinkRecord>, bound: Id)
    requires forall k :: 0 <= k < |links| ==> links[k].id < bound
    requires forall l :: l in kept ==> l in links
    ensures forall k :: 0 <= k < |kept| ==> kept[k].id < bound
  {
    forall k | 0 <= k < |kept| ensures kept[k].id < bound {
      assert kept[k] in kept;
      var m :| 0 <= m < |links| && links[m] == kept[k];
    }
  }

  /** Deleting one link and its clicks keeps the invariant. */
  lemma DeleteKeepsInvariant(users: seq<User>, links: seq<LinkRecord>, clicks: seq<Click>, nextId: Id, id: Id)
    requires Inv(users, links, clicks, nextId)
    ensures Inv(users, WithoutId(links, id), DropClicks(clicks, {id}), nextId)
  {
    var t := WithoutId(links, id);
    SubsetBelow(links, t, nextId);
    WithoutIdDistinct(links, id);
    CascadeKeepsInvariant(links, clicks, t, {id});
  }

  /** Users taken from a store keep its id bound. */
  lemma UsersBelow(users: seq<User>, kept: seq<User>, bound: Id)
    requires forall k :: 0 <= k < |users| ==> users[k].id < bound
    requires forall u :: u in kept ==> u in users
    ensures forall k :: 0 <= k < |kept| ==> kept[k].id < bound
  {
    forall k | 0 <= k < |kept| ensures kept[k].id < bound {
      assert kept[k] in kept;
      var m :| 0 <= m < |users| && users[m] == kept[k];
    }
  }

  /** Deleting a user, the user's links and all their clicks keeps the
      invariant. */
  lemma DeleteUserKeepsInvariant(users: seq<User>, links: seq<LinkRecord>, clicks: seq<Click>, nextId: Id, user: Id)
    requires Inv(users, links, clicks, nextId)
    ensures Inv(WithoutUser(users, user), DropOwned(links, user),
                DropClicks(clicks, IdsOf(OwnedBy(links, user))), nextId)
  {
    var t := DropOwned(links, user);
    var gone := IdsOf(OwnedBy(links, user));
    SubsetBelow(links, t, nextId);
    DropOwnedDistinct(links, user);
    forall l, m | l in t && m in OwnedBy(links, user) ensures l.id != m.id {
      DifferentLinksDifferentIds(links, l, m);
    }
    forall l | l in links && l.user == user ensures l.id in gone {
      assert l in OwnedBy(links, user);
    }
    CascadeKeepsInvariant(links, clicks, t, gone);
    UsersBelow(users, WithoutUser(users, user), nextId);
    WithoutUserDistinct(users, user);
  }

  /** A new user with a fresh id keeps the invariant. */
  lemma RegisterKeepsInvariant(users: seq<User>, links: seq<LinkRecord>, clicks: seq<Click>, nextId: Id, u: User)
    requires Inv(users, links, clicks, nextId) && u.id == nextId
    ensures Inv(users + [u], links, clicks, nextId + 1)
  {
    assert forall k :: 0 <= k < |users| ==> (users + [u])[k] == users[k];
  }

  /** Replacing user `i` by a record with the same id keeps the invariant. */
  lemma ProfileUpdateKeepsInvariant(users: seq<User>, links: seq<LinkRecord>, clicks: seq<Click>, nextId: Id,
                             i: nat, u: User)
    requires Inv(users, links, clicks, nextId) && i < |users| && u.id == users[i].id
    ensures Inv(users[i := u], links, clicks, nextId)
  {
  }

  class Db {
    var users: seq<User>
    var links: seq<LinkRecord>
    var clicks: seq<Click>
    /** The next document id to hand out; ids are never reused. */
    var nextId: Id

    /** The store invariant holds of the current collections. */
    ghost predicate Valid()
      reads this
    {
      Inv(users, links, clicks, nextId)
    }

    constructor ()
      ensures Valid()
      ensures users == [] && links == [] && clicks == []
    {
      users, links, clicks, nextId := [], [], [], 0;
    }
  
    /** GET /:shortLink. No link with the code: 404 and nothing changes. An
        expired link: 410 and nothing changes. Otherwise one Click is
        appended, the link is saved with its counters bumped and its status
        recomputed, and the reply redirects to its `originalLink`.
        The handler reads the clock three times: `now` for the expiry test
        and the day key, `clickNow` when the Click is built (its timestamp
        default), and `saveNow` in the link's pre-save hook. `dayOf` gives
        the UTC calendar day of an instant. */
    method Resolve(code: string, userAgent: Option<string>, ip: Option<string>,
                   now: int, clickNow: int, saveNow: int, dayOf: int -> string)
      returns (res: Resolution)
      requires Valid()
      modifies this
      ensures Valid()
      ensures users == old(users) && nextId == old(nextId)
      ensures IndexOfCode(old(links), code) < 0 ==>
                res == Missing && res.Status() == NotFound && links == old(links) && clicks == old(clicks)
      ensures var i := IndexOfCode(old(links), code);
              i >= 0 && IsExpired(old(links)[i].expireDate, now) ==>
                res == Expired && res.Status() == Gone && links == old(links) && clicks == old(clicks)
      ensures var i := IndexOfCode(old(links), code);
              i >= 0 && !IsExpired(old(links)[i].expireDate, now) ==>
                && res == Redirect(old(links)[i].originalLink) && res.Status() == Found
                && clicks == old(clicks) + [ClickOf(old(links)[i], ip, Classify(userAgent), clickNow)]
                && links == old(links)[i := Clicked(old(links)[i], Classify(userAgent), dayOf(now), saveNow)]
    {
      var device := Classify(userAgent);
      var i := IndexOfCode(links, code);
      if i < 0 {
        return Missing;
      }
      var r := links[i];
      var doc := new LinkDoc.Hydrate(r);
      if doc.expireDate.Some? && doc.expireDate.value < now {
        return Expired;
      }
      var url := CountClick(i, doc, device, ip, clickNow, saveNow, dayOf(now));
      res := Redirect(url);
    }

    /** The redirect past its two checks: the Click built at `clickNow` is
        stored, the fetched document `doc` of link `i` is changed in place and
        saved over it at `saveNow`. */
    method CountClick(i: nat, doc: LinkDoc, device: DeviceType, ip: Option<string>,
                      clickNow: int, saveNow: int, day: string)
      returns (url: string)
      requires Valid() && i < |links| && doc.ToRecord() == links[i]
      modifies this, doc
      ensures Valid()
      ensures users == old(users) && nextId == old(nextId)
      ensures url == old(links)[i].originalLink
      ensures clicks == old(clicks) + [ClickOf(old(links)[i], ip, device, clickNow)]
      ensures links == old(links)[i := Clicked(old(links)[i], device, day, saveNow)]
    {
      var r := links[i];
      var click := Click(doc.id, clickNow, ClientIp(ip), device, doc.originalLink, doc.shortLink);
      ClickKeepsInvariant(users, links, clicks, nextId, i, click, device, day, saveNow);
      RecordClick(doc, device, day);
      doc.PreSave(saveNow);
      assert doc.ToRecord() == Clicked(r, device, day, saveNow);
      clicks := clicks + [click];
      links := links[i := doc.ToRecord()];
      url := doc.originalLink;
    }

    /** POST /dashboard/addlink. Without a truthy `originalLink` and `remark`:
        400 and nothing changes. Otherwise a new Link with a fresh id, the
        generated `code`, no clicks and the status its expiry gives is
        stored after all the others. */
    method AddLink(user: Id, originalLink: Option<string>, remark: Option<string>,
                   expireDate: Option<int>, code: string, now: int)
      returns (status: int)
      requires Valid()
      modifies this
      ensures Valid()
      ensures users == old(users) && clicks == old(clicks)
      ensures !Given(originalLink) || !Given(remark) ==>
                status == BadRequest && links == old(links) && nextId == old(nextId)
      ensures Given(originalLink) && Given(remark) ==>
                && status == Ok
                && nextId == old(nextId) + 1
                && links == old(links) + [Saved(LinkRecord(old(nextId), originalLink.value, remark.value, code,
                                                           expireDate, user, Active, 0, [], DeviceClicks(0, 0, 0)), now)]
    {
      if !Given(originalLink) || !Given(remark) {
        return BadRequest;
      }
      var doc := new LinkDoc.Create(nextId, originalLink.value, remark.value, code, user, expireDate);
      doc.PreSave(now);
      var saved := doc.ToRecord();
      AddKeepsInvariant(users, links, clicks, nextId, saved);
      links := links + [saved];
      nextId := nextId + 1;
      status := Ok;
    }

    /** PATCH /dashboard/:id. No link with that id: 400 and nothing
        changes. Otherwise the given fields are overwritten, whoever owns
        the link, and nothing else: the save hook does not run. */
    method PatchLink(id: Id, originalLink: Option<string>, remark: Option<string>,
                     expireDate: Option<Option<int>>)
      returns (status: int)
      requires Valid()
      modifies this
      ensures Valid()
      ensures users == old(users) && clicks == old(clicks) && nextId == old(nextId)
      ensures IndexOfId(old(links), id) < 0 ==> status == BadRequest && links == old(links)
      ensures IndexOfId(old(links), id) >= 0 ==>
                && status == Ok
                && links == old(links)[IndexOfId(old(links), id) :=
                                         Patched(old(links)[IndexOfId(old(links), id)], originalLink, remark, expireDate)]
    {
      var i := IndexOfId(links, id);
      if i < 0 {
        return BadRequest;
      }
      var r := Patched(links[i], originalLink, remark, expireDate);
      PatchedConsistent(links[i], originalLink, remark, expireDate);
      ReplaceKeepsInvariant(users, links, clicks, nextId, i, r);
      links := links[i := r];
      status := Ok;
    }

    /** DELETE /dashboard/:id. No link with that id: 400 and nothing
        changes. Otherwise the link and every click recorded against it are
        removed, whoever owns it. */
    method DeleteLink(id: Id) returns (status: int)
      requires Valid()
      modifies this
      ensures Valid()
      ensures users == old(users) && nextId == old(nextId)
      ensures IndexOfId(old(links), id) < 0 ==>
                status == BadRequest && links == old(links) && clicks == old(clicks)
      ensures IndexOfId(old(links), id) >= 0 ==>
                && status == Ok
                && links == WithoutId(old(links), id)
                && clicks == DropClicks(old(clicks), {id})
      ensures forall c :: c in clicks ==> c.link != id || IndexOfId(old(links), id) < 0
    {
      var i := IndexOfId(links, id);
      if i < 0 {
        return BadRequest;
      }
      DeleteKeepsInvariant(users, links, clicks, nextId, id);
      links := WithoutId(links, id);
      clicks := DropClicks(clicks, {id});
      status := Ok;
    }

    /** POST /user/register. Any field missing: 400. An account with that
        email already: 400. Otherwise a user with a fresh id and the hashed
        password is stored after the others. */
    method Register(username: Option<string>, email: Option<string>, mobile: Option<string>,
                    password: Option<string>, hash: string -> string)
      returns (status: int)
      requires Valid()
      modifies this
      ensures Valid()
      ensures links == old(links) && clicks == old(clicks)
      ensures status == Ok || status == BadRequest
      ensures status == BadRequest <==>
                || !Given(username) || !Given(email) || !Given(mobile) || !Given(password)
                || IndexOfEmail(old(users), email.value) >= 0
      ensures status == BadRequest ==> users == old(users) && nextId == old(nextId)
      ensures status == Ok ==>
                && nextId == old(nextId) + 1
                && users == old(users) + [User(old(nextId), username.value, email.value, mobile.value, hash(password.value))]
    {
      if !Given(username) || !Given(email) || !Given(mobile) || !Given(password) {
        return BadRequest;
      }
      if IndexOfEmail(users, email.value) >= 0 {
        return BadRequest;
      }
      var u := User(nextId, username.value, email.value, mobile.value, hash(password.value));
      RegisterKeepsInvariant(users, links, clicks, nextId, u);
      users := users + [u];
      nextId := nextId + 1;
      status := Ok;
    }

    /** PATCH /user/update. No such user: 400 and nothing changes.
        Otherwise the given fields are overwritten and nothing else. */
    method UpdateUser(user: Id, username: Option<string>, email: Option<string>, mobile: Option<string>)
      returns (status: int)
      requires Valid()
      modifies this
      ensures Valid()
      ensures links == old(links) && clicks == old(clicks) && nextId == old(nextId)
      ensures IndexOfUser(old(users), user) < 0 ==> status == BadRequest && users == old(users)
      ensures IndexOfUser(old(users), user) >= 0 ==>
                && status == Ok
                && users == old(users)[IndexOfUser(old(users), user) :=
                                         ProfileUpdated(old(users)[IndexOfUser(old(users), user)], username, email, mobile)]
    {
      var i := IndexOfUser(users, user);
      if i < 0 {
        return BadRequest;
      }
      ProfileUpdateKeepsInvariant(users, links, clicks, nextId, i, ProfileUpdated(users[i], username, email, mobile));
      users := users[i := ProfileUpdated(users[i], username, email, mobile)];
      status := Ok;
    }

    /** DELETE /user/delete. No such user: 400 and nothing changes.
        Otherwise the user, all of the user's links and every click of
        those links are removed; everything else stays. */
    method DeleteUser(user: Id) returns (status: int)
      requires Valid()
      modifies this
      ensures Valid()
      ensures nextId == old(nextId)
      ensures IndexOfUser(old(users), user) < 0 ==>
                status == BadRequest && users == old(users) && links == old(links) && clicks == old(clicks)
      ensures IndexOfUser(old(users), user) >= 0 ==>
                && status == Ok
                && users == WithoutUser(old(users), user)
                && links == DropOwned(old(links), user)
                && clicks == DropClicks(old(clicks), IdsOf(OwnedBy(old(links), user)))
    {
      var i := IndexOfUser(users, user);
      if i < 0 {
        return BadRequest;
      }
      DropUser(user);
      status := Ok;
    }

    /** The cascade of DELETE /user/delete once the user is found: the
        user's links and their clicks go first, then the user. */
    method DropUser(user: Id)
      requires Valid()
      modifies this
      ensures Valid()
      ensures nextId == old(nextId)
      ensures users == WithoutUser(old(users), user)
      ensures links == DropOwned(old(links), user)
      ensures clicks == DropClicks(old(clicks), IdsOf(OwnedBy(old(links), user)))
    {
      DeleteUserKeepsInvariant(users, links, clicks, nextId, user);
      clicks := DeleteClicksOf(clicks, IdsOf(OwnedBy(links, user)));
      links := DropOwned(links, user);
      users := WithoutUser(users, user);
    }
  }
}
