/**
  The user-name cache of src/lib/user-cache.ts: a map from Slack user id to
  the names last seen, with a one-hour lifetime, filled from the display
  name of the event, from Cachet when it is enabled, or from Slack's
  `users.info`. The answers of the two remote lookups and `Date.now()` are
  parameters of the call.
*/
module UserCache {
  import opened Wrappers

  /** CACHE_TTL: one hour. */
  const CacheTtl: int := 60 * 60 * 1000

  datatype CachedUserInfo = CachedUserInfo(name: string, realName: string, timestamp: int)

  datatype UserInfo = UserInfo(name: string, realName: string)

  /** The `user` object of a `users.info` reply; a missing field is `None`. */
  datatype SlackUser = SlackUser(name: Option<string>, realName: Option<string>)

  /** What `users.info` did: threw, or replied with or without a user. */
  datatype SlackReply = SlackFailed | SlackReplied(user: Option<SlackUser>)

  /** JavaScript's `a || b` on an optional string: the empty string counts
      as missing. */
  function OrElse(a: Option<string>, b: string): string {
    if a.Some? && a.value != "" then a.value else b
  }

  /** A cached entry still answers reads while younger than the lifetime. */
  predicate Fresh(e: CachedUserInfo, now: int) {
    now - e.timestamp < CacheTtl
  }

  /** The read at the top of `getUserInfo`. */
  function Hit(entries: map<string, CachedUserInfo>, userId: string, now: int): Option<UserInfo> {
    if userId in entries && Fresh(entries[userId], now)
    then Some(UserInfo(entries[userId].name, entries[userId].realName))
    else None
  }

  /** The sources consulted on a miss, in order: the display name of the
      event, then Cachet if enabled (`cachet` is `None` when it found no
      user or threw), then Slack. */
  function Fetch(displayName: Option<string>, cachetEnabled: bool, cachet: Option<string>,
                 slack: SlackReply): Option<UserInfo>
  {
    if displayName.Some? && displayName.value != "" then
      Some(UserInfo(displayName.value, displayName.value))
    else if cachetEnabled && cachet.Some? then
      var name := OrElse(cachet, "Unknown");
      Some(UserInfo(name, name))
    else match slack
      case SlackFailed => None
      case SlackReplied(user) =>
        var name := if user.Some? then OrElse(user.value.name, "Unknown") else "Unknown";
        var realName := if user.Some? then OrElse(user.value.realName, name) else name;
        Some(UserInfo(name, realName))
  }

  /** The answer of `getUserInfo`. */
  function Answer(entries: map<string, CachedUserInfo>, userId: string, displayName: Option<string>,
                  cachetEnabled: bool, cachet: Option<string>, slack: SlackReply, now: int): Option<UserInfo>
  {
    if Hit(entries, userId, now).Some? then Hit(entries, userId, now)
    else Fetch(displayName, cachetEnabled, cachet, slack)
  }

  /** The cache after `getUserInfo`: a fetched answer is stored at `now`
      under the caller's id; a hit or a failure stores nothing. */
  function AfterCall(entries: map<string, CachedUserInfo>, userId: string, displayName: Option<string>,
                     cachetEnabled: bool, cachet: Option<string>, slack: SlackReply, now: int)
    : map<string, CachedUserInfo>
  {
    if Hit(entries, userId, now).Some? then entries
    else match Fetch(displayName, cachetEnabled, cachet, slack)
      case None => entries
      case Some(u) => entries[userId := CachedUserInfo(u.name, u.realName, now)]
  }

  /** The cache after `cleanupUserCache`: exactly the entries older than the
      lifetime are gone. */
  function Swept(entries: map<string, CachedUserInfo>, now: int): map<string, CachedUserInfo> {
    map id | id in entries && now - entries[id].timestamp <= CacheTtl :: entries[id]
  }

  /** No entry and no answer ever carries an empty name. */
  predicate NamesPresent(entries: map<string, CachedUserInfo>) {
    forall id :: id in entries ==> entries[id].name != "" && entries[id].realName != ""
  }

  /** The module-level `userCache`. */
  class UserInfoCache {
    var entries: map<string, CachedUserInfo>

    predicate Valid()
      reads this
    {
      NamesPresent(entries)
    }

    constructor()
      ensures entries == map[] && Valid()
    {
      entries := map[];
    }

    /** `getUserInfo`. */
    method GetUserInfo(userId: string, displayName: Option<string>, cachetEnabled: bool,
                       cachet: Option<string>, slack: SlackReply, now: int)
      returns (r: Option<UserInfo>)
      requires Valid()
      modifies this
      ensures r == Answer(old(entries), userId, displayName, cachetEnabled, cachet, slack, now)
      ensures entries == AfterCall(old(entries), userId, displayName, cachetEnabled, cachet, slack, now)
      ensures Valid()
      ensures r.Some? ==> r.value.name != "" && r.value.realName != ""
    {
      if userId in entries && now - entries[userId].timestamp < CacheTtl {
        var cached := entries[userId];
        return Some(UserInfo(cached.name, cached.realName));
      }
      if displayName.Some? && displayName.value != "" {
        entries := entries[userId := CachedUserInfo(displayName.value, displayName.value, now)];
        return Some(UserInfo(displayName.value, displayName.value));
      }
      if cachetEnabled && cachet.Some? {
        var name := if cachet.value != "" then cachet.value else "Unknown";
        entries := entries[userId := CachedUserInfo(name, name, now)];
        return Some(UserInfo(name, name));
      }
      match slack {
        case SlackFailed =>
          r := None;
        case SlackReplied(user) =>
          var name := "Unknown";
          if user.Some? && user.value.name.Some? && user.value.name.value != "" {
            name := user.value.name.value;
          }
          var realName := name;
          if user.Some? && user.value.realName.Some? && user.value.realName.value != "" {
            realName := user.value.realName.value;
          }
          entries := entries[userId := CachedUserInfo(name, realName, now)];
          r := Some(UserInfo(name, realName));
      }
    }

    /** `cleanupUserCache`: one pass over the entries, deleting the stale
        ones. */
    method Cleanup(now: int)
      requires Valid()
      modifies this
      ensures entries == Swept(old(entries), now)
      ensures Valid()
    {
      var pending := entries.Keys;
      while pending != {}
        invariant pending <= old(entries).Keys
        invariant entries.Keys <= old(entries).Keys
        invariant forall id :: id in entries ==> entries[id] == old(entries)[id]
        invariant forall id :: id in old(entries) ==>
          (id in entries <==> id in pending || now - old(entries)[id].timestamp <= CacheTtl)
        decreases pending
      {
        var id :| id in pending;
        if now - entries[id].timestamp > CacheTtl {
          entries := entries - {id};
        }
        pending := pending - {id};
      }
    }
  }

  /** Every answer has both names. */
  lemma FetchNamesPresent(displayName: Option<string>, cachetEnabled: bool,
                          cachet: Option<string>, slack: SlackReply)
    ensures var r := Fetch(displayName, cachetEnabled, cachet, slack);
      r.Some? ==> r.value.name != "" && r.value.realName != ""
  {
  }

  /** On a hit the answer comes from the cache alone: no source is looked
      at and nothing is written. */
  lemma HitIgnoresSources(entries: map<string, CachedUserInfo>, userId: string, now: int,
                          d1: Option<string>, e1: bool, c1: Option<string>, s1: SlackReply,
                          d2: Option<string>, e2: bool, c2: Option<string>, s2: SlackReply)
    requires userId in entries && now - entries[userId].timestamp < CacheTtl
    ensures Answer(entries, userId, d1, e1, c1, s1, now) == Answer(entries, userId, d2, e2, c2, s2, now)
      == Some(UserInfo(entries[userId].name, entries[userId].realName))
    ensures AfterCall(entries, userId, d1, e1, c1, s1, now) == entries
  {
  }

  /** A non-empty display name wins over Cachet and Slack on a miss. */
  lemma DisplayNameWins(entries: map<string, CachedUserInfo>, userId: string, d: string,
                        cachetEnabled: bool, cachet: Option<string>, slack: SlackReply, now: int)
    requires Hit(entries, userId, now).None? && d != ""
    ensures Answer(entries, userId, Some(d), cachetEnabled, cachet, slack, now) == Some(UserInfo(d, d))
    ensures AfterCall(entries, userId, Some(d), cachetEnabled, cachet, slack, now)
      == entries[userId := CachedUserInfo(d, d, now)]
  {
  }

  /** Cachet is consulted only when enabled: when disabled, its answer
      changes nothing. */
  lemma CachetOnlyWhenEnabled(displayName: Option<string>, c1: Option<string>, c2: Option<string>,
                              slack: SlackReply)
    ensures Fetch(displayName, false, c1, slack) == Fetch(displayName, false, c2, slack)
  {
  }

  /** With no display name and no Cachet user, the Slack reply decides:
      `name` or "Unknown", `real_name` or the name; a failure answers null
      and stores nothing. */
  lemma SlackFallback(entries: map<string, CachedUserInfo>, userId: string, displayName: Option<string>,
                      cachetEnabled: bool, cachet: Option<string>, slack: SlackReply, now: int)
    requires Hit(entries, userId, now).None?
    requires displayName.None? || displayName.value == ""
    requires !cachetEnabled || cachet.None?
    ensures slack.SlackFailed? ==>
      Answer(entries, userId, displayName, cachetEnabled, cachet, slack, now).None?
      && AfterCall(entries, userId, displayName, cachetEnabled, cachet, slack, now) == entries
    ensures slack.SlackReplied? && slack.user.Some? ==>
      var u := slack.user.value;
      var name := if u.name.Some? && u.name.value != "" then u.name.value else "Unknown";
      Answer(entries, userId, displayName, cachetEnabled, cachet, slack, now)
        == Some(UserInfo(name, if u.realName.Some? && u.realName.value != "" then u.realName.value else name))
    ensures slack == SlackReplied(None) ==>
      Answer(entries, userId, displayName, cachetEnabled, cachet, slack, now) == Some(UserInfo("Unknown", "Unknown"))
  {
  }

  /** A call writes at most its own user's entry. */
  lemma OthersUntouched(entries: map<string, CachedUserInfo>, userId: string, displayName: Option<string>,
                        cachetEnabled: bool, cachet: Option<string>, slack: SlackReply, now: int, other: string)
    requires other != userId
    ensures var after := AfterCall(entries, userId, displayName, cachetEnabled, cachet, slack, now);
      (other in after <==> other in entries) && (other in entries ==> after[other] == entries[other])
  {
  }

  /** Within the lifetime of a fetched answer, a later call is a hit and
      repeats it, whatever the sources would now say. */
  lemma RepeatWithinTtl(entries: map<string, CachedUserInfo>, userId: string,
                        d1: Option<string>, e1: bool, c1: Option<string>, s1: SlackReply,
                        now: int, later: int,
                        d2: Option<string>, e2: bool, c2: Option<string>, s2: SlackReply)
    requires Hit(entries, userId, now).None?
    requires Fetch(d1, e1, c1, s1).Some?
    requires now <= later < now + CacheTtl
    ensures var after := AfterCall(entries, userId, d1, e1, c1, s1, now);
      Answer(after, userId, d2, e2, c2, s2, later) == Answer(entries, userId, d1, e1, c1, s1, now)
  {
    var after := AfterCall(entries, userId, d1, e1, c1, s1, now);
    assert userId in after && Fresh(after[userId], later);
  }

  /** The same call twice in a row gives the same answer and the same
      cache. */
  lemma CallIdempotent(entries: map<string, CachedUserInfo>, userId: string,
                       d: Option<string>, e: bool, c: Option<string>, s: SlackReply, now: int)
    ensures var after := AfterCall(entries, userId, d, e, c, s, now);
      Answer(after, userId, d, e, c, s, now) == Answer(entries, userId, d, e, c, s, now)
      && AfterCall(after, userId, d, e, c, s, now) == after
  {
    var after := AfterCall(entries, userId, d, e, c, s, now);
    if Hit(entries, userId, now).None? && Fetch(d, e, c, s).Some? {
      assert userId in after && Fresh(after[userId], now);
    }
  }

  /** The sweep never changes what a read at the same moment answers. */
  lemma SweepInvisible(entries: map<string, CachedUserInfo>, now: int, userId: string)
    ensures Hit(Swept(entries, now), userId, now) == Hit(entries, userId, now)
  {
  }

  /** An entry aged exactly the lifetime is already a miss for reads but
      still survives the sweep: reads use `<`, the sweep `>`. */
  lemma BoundaryEntry(entries: map<string, CachedUserInfo>, now: int, userId: string)
    requires userId in entries && now - entries[userId].timestamp == CacheTtl
    ensures Hit(entries, userId, now).None?
    ensures userId in Swept(entries, now)
  {
  }
}
