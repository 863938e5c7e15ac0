/**
  The decision logic of the Slack command handlers of src/commands.ts: the
  submit and confirm actions that add and remove rows of channel_mappings
  and user_mappings. Each handler checks its guards in the order of the
  source, answers with the first one that fails, and otherwise changes the
  table. The reply a handler sends is the `Outcome` it returns; the
  permission lookup on Slack is the parameter `canManage`, and whether the
  joins that follow a new channel bridge succeed is the parameter `joined`.
*/
module Commands {
  import opened Wrappers
  import opened Store

  /** What a handler replies. */
  datatype Outcome =
    | ChannelNameInvalid              // the IRC channel is missing or lacks `#`
    | NotPermitted                    // no user, or the user may not manage the channel
    | IrcChannelTaken(slack: string)  // already bridged to this Slack channel
    | SlackChannelTaken(irc: string)  // this Slack channel is already bridged
    | ChannelBridged
    | BridgeFailed                    // a join after the new row threw; the row stays
    | ChannelNotBridged
    | ChannelUnbridged(irc: string)
    | NickRequired
    | NickTaken(slack: string)        // the nick is linked to this Slack user
    | UserAlreadyLinked(irc: string)  // the Slack user is linked to this nick
    | UserLinked
    | UserNotLinked
    | UserUnlinked(irc: string)

  /** JavaScript truthiness of an optional string: present and not empty. */
  predicate Truthy(v: Option<string>) {
    v.Some? && v.value != []
  }

  /** The format guard: present and starting with `#`. */
  predicate IsChannelName(v: Option<string>) {
    v.Some? && |v.value| > 0 && v.value[0] == '#'
  }

  // ---------------------------------------------------------------------
  // The two "already linked" guards, shared by channels and users

  /** The result of the two lookups before `create`. */
  datatype Claim = IrcTaken(bySlack: string) | SlackTaken(byIrc: string) | Free

  /** The IRC side is looked up first, then the Slack side. */
  function ClaimOf(rows: seq<Mapping>, slack: string, irc: string): (c: Claim)
    ensures c.Free? <==> (forall k :: 0 <= k < |rows| ==> rows[k].irc != irc && rows[k].slack != slack)
    ensures c.IrcTaken? ==> exists x :: x in rows && x.irc == irc && x.slack == c.bySlack
    ensures c.SlackTaken? ==>
      (forall k :: 0 <= k < |rows| ==> rows[k].irc != irc)
      && exists x :: x in rows && x.slack == slack && x.irc == c.byIrc
  {
    match FindByIrc(rows, irc)
    case Some(r) => IrcTaken(r.slack)
    case None =>
      match FindBySlack(rows, slack)
      case Some(r) => SlackTaken(r.irc)
      case None => Free
  }

  /** A free claim turns `create` into an append that keeps both UNIQUE
      constraints. */
  lemma FreeClaimAppends(rows: seq<Mapping>, m: Mapping)
    requires OneToOne(rows) && ClaimOf(rows, m.slack, m.irc).Free?
    ensures InsertOrReplace(rows, m) == rows + [m]
    ensures OneToOne(rows + [m])
  {
    CreateFreshAppends(rows, m);
    CreateReplaces(rows, m);
  }

  /** Once a pair is linked, claiming either of its names again fails, the
      IRC side first. */
  lemma ClaimAfterLink(rows: seq<Mapping>, m: Mapping, slack: string, irc: string)
    requires ClaimOf(rows, m.slack, m.irc).Free?
    requires slack == m.slack || irc == m.irc
    ensures irc == m.irc ==> ClaimOf(rows + [m], slack, irc) == IrcTaken(m.slack)
    ensures irc != m.irc && ClaimOf(rows, slack, irc).Free? ==> ClaimOf(rows + [m], slack, irc) == SlackTaken(m.irc)
  {
    FindLast(rows, m);
    if irc != m.irc && ClaimOf(rows, slack, irc).Free? {
      FindAppendMiss(rows, m, irc);
    }
  }

  /** A name the appended row does not carry is found where it was before. */
  lemma {:induction false} FindAppendMiss(rows: seq<Mapping>, m: Mapping, irc: string)
    requires m.irc != irc
    ensures FindByIrc(rows + [m], irc) == FindByIrc(rows, irc)
    decreases |rows|
  {
    if rows == [] {
      assert FindByIrc([m][1..], irc) == None;
    } else {
      assert (rows + [m])[1..] == rows[1..] + [m];
      FindAppendMiss(rows[1..], m, irc);
    }
  }

  /** Deleting the Slack id of an appended row undoes the append. */
  lemma UnlinkUndoesLink(rows: seq<Mapping>, m: Mapping)
    requires ClaimOf(rows, m.slack, m.irc).Free?
    ensures FindBySlack(rows + [m], m.slack) == Some(m)
    ensures WithoutSlack(rows + [m], m.slack) == rows
  {
    FindLast(rows, m);
    WithoutSlackAppend(rows, m);
  }

  lemma {:induction false} WithoutSlackAppend(rows: seq<Mapping>, m: Mapping)
    requires forall k :: 0 <= k < |rows| ==> rows[k].slack != m.slack
    ensures WithoutSlack(rows + [m], m.slack) == rows
    decreases |rows|
  {
    if rows == [] {
      assert WithoutSlack([m][1..], m.slack) == [];
    } else {
      assert (rows + [m])[1..] == rows[1..] + [m];
      WithoutSlackAppend(rows[1..], m);
    }
  }

  /** Under both UNIQUE constraints, deleting a Slack id that is present
      removes exactly its row. */
  lemma UnlinkRemovesOneRow(rows: seq<Mapping>, s: string)
    requires OneToOne(rows) && FindBySlack(rows, s).Some?
    ensures forall x :: x in WithoutSlack(rows, s) <==> x in rows && x != FindBySlack(rows, s).value
    ensures |WithoutSlack(rows, s)| == |rows| - 1
  {
    var r := FindBySlack(rows, s).value;
    forall x | x in rows && x.slack == s
      ensures x == r
    {
      var i :| 0 <= i < |rows| && rows[i] == x;
      var j :| 0 <= j < |rows| && rows[j] == r;
      assert i == j;
    }
    var i :| 0 <= i < |rows| && rows[i] == r;
    WithoutSlackAt(rows, s, i);
  }

  /** With one row carrying `s`, at index `i`, the delete is the splice. */
  lemma {:induction false} WithoutSlackAt(rows: seq<Mapping>, s: string, i: nat)
    requires i < |rows| && rows[i].slack == s
    requires forall k :: 0 <= k < |rows| && k != i ==> rows[k].slack != s
    ensures WithoutSlack(rows, s) == rows[..i] + rows[i + 1..]
    decreases |rows|
  {
    if i == 0 {
      assert forall k :: 0 <= k < |rows[1..]| ==> rows[1..][k] == rows[k + 1];
      WithoutAbsent(rows[1..], s);
    } else {
      assert forall k :: 0 <= k < |rows[1..]| && k != i - 1 ==> rows[1..][k] == rows[k + 1];
      WithoutSlackAt(rows[1..], s, i - 1);
      Splice(rows, i);
    }
  }

  lemma Splice(rows: seq<Mapping>, i: nat)
    requires 0 < i < |rows|
    ensures [rows[0]] + (rows[1..][..i - 1] + rows[1..][i..]) == rows[..i] + rows[i + 1..]
  {
    assert rows[1..][..i - 1] == rows[1..i];
    assert rows[1..][i..] == rows[i + 1..];
    assert rows[..i] == [rows[0]] + rows[1..i];
  }

  // ---------------------------------------------------------------------
  // bridge_channel_submit

  /** The reply to a channel bridge request: format, then permission, then
      the IRC channel, then the Slack channel. */
  function ChannelSubmit(rows: seq<Mapping>, ircChannel: Option<string>, slackChannel: string,
                         userId: Option<string>, canManage: (string, string) -> bool): (o: Outcome)
    ensures o in {ChannelNameInvalid, NotPermitted, ChannelBridged} || o.IrcChannelTaken? || o.SlackChannelTaken?
    ensures !IsChannelName(ircChannel) <==> o == ChannelNameInvalid
    ensures o == ChannelBridged <==>
      IsChannelName(ircChannel) && Truthy(userId) && canManage(userId.value, slackChannel)
      && forall k :: 0 <= k < |rows| ==> rows[k].irc != ircChannel.value && rows[k].slack != slackChannel
    ensures o.IrcChannelTaken? ==> exists x :: x in rows && x.irc == ircChannel.value && x.slack == o.slack
    ensures o.SlackChannelTaken? ==> exists x :: x in rows && x.slack == slackChannel && x.irc == o.irc
  {
    if !IsChannelName(ircChannel) then ChannelNameInvalid
    else if !Truthy(userId) || !canManage(userId.value, slackChannel) then NotPermitted
    else match ClaimOf(rows, slackChannel, ircChannel.value)
      case IrcTaken(s) => IrcChannelTaken(s)
      case SlackTaken(i) => SlackChannelTaken(i)
      case Free => ChannelBridged
  }

  /** The handler: the table changes only when every guard passes, and
      then by appending the new pair. The IRC and Slack joins come after
      the row is written and inside the same `try`: when one throws
      (`joined` false) the reply is the failure message and the row stays. */
  method BridgeChannelSubmit(channels: MappingTable, ircChannel: Option<string>, slackChannel: string,
                             userId: Option<string>, canManage: (string, string) -> bool,
                             joined: bool, now: int)
    returns (o: Outcome)
    requires channels.Valid()
    modifies channels
    ensures ChannelSubmit(old(channels.rows), ircChannel, slackChannel, userId, canManage) != ChannelBridged ==>
      o == ChannelSubmit(old(channels.rows), ircChannel, slackChannel, userId, canManage)
      && channels.rows == old(channels.rows)
    ensures ChannelSubmit(old(channels.rows), ircChannel, slackChannel, userId, canManage) == ChannelBridged ==>
      o == (if joined then ChannelBridged else BridgeFailed)
      && channels.rows == old(channels.rows) + [Mapping(slackChannel, ircChannel.value, now)]
    ensures channels.Valid()
  {
    if ircChannel.None? || |ircChannel.value| == 0 || ircChannel.value[0] != '#' {
      return ChannelNameInvalid;
    }
    var irc := ircChannel.value;
    if userId.None? || userId.value == [] || !canManage(userId.value, slackChannel) {
      return NotPermitted;
    }
    var existingIrc := channels.GetByIrc(irc);
    if existingIrc.Some? {
      return IrcChannelTaken(existingIrc.value.slack);
    }
    var existingSlack := channels.GetBySlack(slackChannel);
    if existingSlack.Some? {
      return SlackChannelTaken(existingSlack.value.irc);
    }
    FreeClaimAppends(channels.rows, Mapping(slackChannel, irc, now));
    channels.Create(slackChannel, irc, now);
    o := if joined then ChannelBridged else BridgeFailed;
  }

  /** Sending the same request twice: the second is refused because the
      IRC channel is now bridged to this Slack channel. */
  lemma ChannelSubmitTwice(rows: seq<Mapping>, irc: string, slack: string, userId: Option<string>,
                           canManage: (string, string) -> bool, now: int)
    requires ChannelSubmit(rows, Some(irc), slack, userId, canManage) == ChannelBridged
    ensures ChannelSubmit(rows + [Mapping(slack, irc, now)], Some(irc), slack, userId, canManage)
         == IrcChannelTaken(slack)
  {
    ClaimAfterLink(rows, Mapping(slack, irc, now), slack, irc);
  }

  /** Bridging the same Slack channel to a second, unused IRC channel is
      refused with the first IRC channel. */
  lemma ChannelSubmitOtherIrc(rows: seq<Mapping>, irc: string, irc2: string, slack: string,
                              userId: Option<string>, canManage: (string, string) -> bool, now: int)
    requires ChannelSubmit(rows, Some(irc), slack, userId, canManage) == ChannelBridged
    requires irc2 != irc && ChannelSubmit(rows, Some(irc2), slack, userId, canManage) == ChannelBridged
    ensures ChannelSubmit(rows + [Mapping(slack, irc, now)], Some(irc2), slack, userId, canManage)
         == SlackChannelTaken(irc)
  {
    ClaimAfterLink(rows, Mapping(slack, irc, now), slack, irc2);
  }

  /** The guards fire in order: a failing earlier guard decides the reply
      whatever the later ones would say. */
  lemma ChannelGuardOrder(rows: seq<Mapping>, rows2: seq<Mapping>, ircChannel: Option<string>, slackChannel: string,
                          userId: Option<string>, userId2: Option<string>, canManage: (string, string) -> bool,
                          canManage2: (string, string) -> bool)
    requires IsChannelName(ircChannel) ==> userId == userId2 && canManage == canManage2
    ensures var o := ChannelSubmit(rows, ircChannel, slackChannel, userId, canManage);
            var o2 := ChannelSubmit(rows2, ircChannel, slackChannel, userId2, canManage2);
            (o == ChannelNameInvalid || o == NotPermitted) ==> o == o2
  {
  }

  // ---------------------------------------------------------------------
  // unbridge_channel_confirm

  /** The reply to confirming a channel unbridge. */
  function ChannelUnbridge(rows: seq<Mapping>, slackChannel: string): (o: Outcome)
    ensures o == ChannelNotBridged <==> forall k :: 0 <= k < |rows| ==> rows[k].slack != slackChannel
    ensures o != ChannelNotBridged ==> o.ChannelUnbridged? && exists x :: x in rows && x.slack == slackChannel && x.irc == o.irc
  {
    match FindBySlack(rows, slackChannel)
    case None => ChannelNotBridged
    case Some(r) => ChannelUnbridged(r.irc)
  }

  /** The handler: nothing changes when the channel is not bridged;
      otherwise its row, and only its row, is deleted. */
  method UnbridgeChannelConfirm(channels: MappingTable, slackChannel: string) returns (o: Outcome)
    requires channels.Valid()
    modifies channels
    ensures o == ChannelUnbridge(old(channels.rows), slackChannel)
    ensures o == ChannelNotBridged ==> channels.rows == old(channels.rows)
    ensures o != ChannelNotBridged ==>
      channels.rows == WithoutSlack(old(channels.rows), slackChannel)
      && |channels.rows| == |old(channels.rows)| - 1
      && forall x :: x in channels.rows <==> x in old(channels.rows) && x.slack != slackChannel
    ensures channels.Valid()
  {
    var mapping := channels.GetBySlack(slackChannel);
    if mapping.None? {
      return ChannelNotBridged;
    }
    UnlinkRemovesOneRow(channels.rows, slackChannel);
    channels.Delete(slackChannel);
    o := ChannelUnbridged(mapping.value.irc);
  }

  /** Bridging and then unbridging a channel gives back the table it
      started from. */
  lemma BridgeThenUnbridge(rows: seq<Mapping>, irc: string, slack: string, userId: Option<string>,
                           canManage: (string, string) -> bool, now: int)
    requires ChannelSubmit(rows, Some(irc), slack, userId, canManage) == ChannelBridged
    ensures ChannelUnbridge(rows + [Mapping(slack, irc, now)], slack) == ChannelUnbridged(irc)
    ensures WithoutSlack(rows + [Mapping(slack, irc, now)], slack) == rows
  {
    UnlinkUndoesLink(rows, Mapping(slack, irc, now));
  }

  // ---------------------------------------------------------------------
  // bridge_user_submit

  /** The reply to a user link request: a nick is required, then the nick
      must be free, then the Slack user must be unlinked. */
  function UserSubmit(rows: seq<Mapping>, ircNick: Option<string>, slackUser: string): (o: Outcome)
    ensures o in {NickRequired, UserLinked} || o.NickTaken? || o.UserAlreadyLinked?
    ensures !Truthy(ircNick) <==> o == NickRequired
    ensures o == UserLinked <==>
      Truthy(ircNick) && forall k :: 0 <= k < |rows| ==> rows[k].irc != ircNick.value && rows[k].slack != slackUser
    ensures o.NickTaken? ==> exists x :: x in rows && x.irc == ircNick.value && x.slack == o.slack
    ensures o.UserAlreadyLinked? ==> exists x :: x in rows && x.slack == slackUser && x.irc == o.irc
  {
    if !Truthy(ircNick) then NickRequired
    else match ClaimOf(rows, slackUser, ircNick.value)
      case IrcTaken(s) => NickTaken(s)
      case SlackTaken(i) => UserAlreadyLinked(i)
      case Free => UserLinked
  }

  /** The handler: the table changes only on success, by appending the
      new pair. */
  method BridgeUserSubmit(users: MappingTable, ircNick: Option<string>, slackUser: string, now: int)
    returns (o: Outcome)
    requires users.Valid()
    modifies users
    ensures o == UserSubmit(old(users.rows), ircNick, slackUser)
    ensures o == UserLinked ==> users.rows == old(users.rows) + [Mapping(slackUser, ircNick.value, now)]
    ensures o != UserLinked ==> users.rows == old(users.rows)
    ensures users.Valid()
  {
    if ircNick.None? || ircNick.value == [] {
      return NickRequired;
    }
    var nick := ircNick.value;
    var existingIrc := users.GetByIrc(nick);
    if existingIrc.Some? {
      return NickTaken(existingIrc.value.slack);
    }
    var existingSlack := users.GetBySlack(slackUser);
    if existingSlack.Some? {
      return UserAlreadyLinked(existingSlack.value.irc);
    }
    FreeClaimAppends(users.rows, Mapping(slackUser, nick, now));
    users.Create(slackUser, nick, now);
    o := UserLinked;
  }

  /** After a user links a nick, a second user asking for the same nick is
      told who holds it, and the first user cannot link another unused
      nick. */
  lemma UserSubmitAfterLink(rows: seq<Mapping>, nick: string, nick2: string, user: string, user2: string, now: int)
    requires UserSubmit(rows, Some(nick), user) == UserLinked
    requires nick2 != nick && UserSubmit(rows, Some(nick2), user) == UserLinked
    ensures UserSubmit(rows + [Mapping(user, nick, now)], Some(nick), user2) == NickTaken(user)
    ensures UserSubmit(rows + [Mapping(user, nick, now)], Some(nick2), user) == UserAlreadyLinked(nick)
  {
    ClaimAfterLink(rows, Mapping(user, nick, now), user2, nick);
    ClaimAfterLink(rows, Mapping(user, nick, now), user, nick2);
  }

  // ---------------------------------------------------------------------
  // unbridge_user_confirm

  /** The reply to confirming a user unlink. */
  function UserUnbridge(rows: seq<Mapping>, slackUser: string): (o: Outcome)
    ensures o == UserNotLinked <==> forall k :: 0 <= k < |rows| ==> rows[k].slack != slackUser
    ensures o != UserNotLinked ==> o.UserUnlinked? && exists x :: x in rows && x.slack == slackUser && x.irc == o.irc
  {
    match FindBySlack(rows, slackUser)
    case None => UserNotLinked
    case Some(r) => UserUnlinked(r.irc)
  }

  /** The handler: nothing changes for an unlinked user; otherwise that
      user's row, and only it, is deleted. */
  method UnbridgeUserConfirm(users: MappingTable, slackUser: string) returns (o: Outcome)
    requires users.Valid()
    modifies users
    ensures o == UserUnbridge(old(users.rows), slackUser)
    ensures o == UserNotLinked ==> users.rows == old(users.rows)
    ensures o != UserNotLinked ==>
      users.rows == WithoutSlack(old(users.rows), slackUser)
      && |users.rows| == |old(users.rows)| - 1
      && forall x :: x in users.rows <==> x in old(users.rows) && x.slack != slackUser
    ensures users.Valid()
  {
    var mapping := users.GetBySlack(slackUser);
    if mapping.None? {
      return UserNotLinked;
    }
    UnlinkRemovesOneRow(users.rows, slackUser);
    users.Delete(slackUser);
    o := UserUnlinked(mapping.value.irc);
  }

  /** Once unlinked, the nick is free again for anyone whose Slack id is
      not linked. */
  lemma NickFreeAfterUnlink(rows: seq<Mapping>, user: string, user2: string)
    requires OneToOne(rows) && UserUnbridge(rows, user).UserUnlinked?
    requires UserUnbridge(WithoutSlack(rows, user), user2) == UserNotLinked
    ensures UserSubmit(WithoutSlack(rows, user), Some(UserUnbridge(rows, user).irc), user2)
         == (if UserUnbridge(rows, user).irc == [] then NickRequired else UserLinked)
  {
    var r := FindBySlack(rows, user).value;
    UnlinkRemovesOneRow(rows, user);
    var rest := WithoutSlack(rows, user);
    forall k | 0 <= k < |rest|
      ensures rest[k].irc != r.irc
    {
      assert rest[k] in rows && rest[k] != r;
      var i :| 0 <= i < |rows| && rows[i] == rest[k];
      var j :| 0 <= j < |rows| && rows[j] == r;
      assert i != j;
    }
  }
}
