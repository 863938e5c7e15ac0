/**
  The SQLite mapping store of src/lib/db.ts: the channel_mappings and
  user_mappings tables (two UNIQUE text columns each) and the
  thread_timestamps table (a text primary key and a UNIQUE thread id).

  A table is the sequence of its rows in rowid order, which is the order
  in which `SELECT` scans them and in which `.get()` returns the first
  match. `INSERT OR REPLACE` deletes every row that conflicts with the new
  one on any UNIQUE or PRIMARY KEY column, then appends the new row with a
  rowid above all others.
*/
module Store {
  import opened Wrappers

  // ---------------------------------------------------------------------
  // channel_mappings and user_mappings

  /** A row of channel_mappings (`slack_channel_id`, `irc_channel`) or of
      user_mappings (`slack_user_id`, `irc_nick`); `created` is the
      `created_at` stamp. */
  datatype Mapping = Mapping(slack: string, irc: string, created: int)

  /** `.get()` on `WHERE slack = ?`: the first matching row, or null. */
  function FindBySlack(rows: seq<Mapping>, s: string): (r: Option<Mapping>)
    ensures r.None? <==> forall i :: 0 <= i < |rows| ==> rows[i].slack != s
    ensures r.Some? ==> r.value in rows && r.value.slack == s
    decreases |rows|
  {
    if rows == [] then None
    else if rows[0].slack == s then Some(rows[0])
    else FindBySlack(rows[1..], s)
  }

  /** `.get()` on `WHERE irc = ?`. */
  function FindByIrc(rows: seq<Mapping>, i: string): (r: Option<Mapping>)
    ensures r.None? <==> forall k :: 0 <= k < |rows| ==> rows[k].irc != i
    ensures r.Some? ==> r.value in rows && r.value.irc == i
    decreases |rows|
  {
    if rows == [] then None
    else if rows[0].irc == i then Some(rows[0])
    else FindByIrc(rows[1..], i)
  }

  /** Both UNIQUE constraints: no two rows share a Slack id or an IRC name. */
  predicate OneToOne(rows: seq<Mapping>) {
    forall i, j :: 0 <= i < j < |rows| ==> rows[i].slack != rows[j].slack && rows[i].irc != rows[j].irc
  }

  /** The schema before the migration: only the Slack id is UNIQUE. */
  predicate SlackUnique(rows: seq<Mapping>) {
    forall i, j :: 0 <= i < j < |rows| ==> rows[i].slack != rows[j].slack
  }

  /** A row that `INSERT OR REPLACE` of `m` would delete. */
  predicate Conflicts(r: Mapping, m: Mapping) {
    r.slack == m.slack || r.irc == m.irc
  }

  /** The rows that survive the replace step of inserting `m`, in order. */
  function WithoutConflicts(rows: seq<Mapping>, m: Mapping): (r: seq<Mapping>)
    ensures forall x :: x in r <==> x in rows && !Conflicts(x, m)
    ensures |r| <= |rows|
    decreases |rows|
  {
    if rows == [] then []
    else (if Conflicts(rows[0], m) then [] else [rows[0]]) + WithoutConflicts(rows[1..], m)
  }

  /** `INSERT OR REPLACE INTO ... (slack, irc) VALUES (?, ?)`. */
  function InsertOrReplace(rows: seq<Mapping>, m: Mapping): seq<Mapping> {
    WithoutConflicts(rows, m) + [m]
  }

  /** `DELETE FROM ... WHERE slack = ?`. */
  function WithoutSlack(rows: seq<Mapping>, s: string): (r: seq<Mapping>)
    ensures forall x :: x in r <==> x in rows && x.slack != s
    ensures |r| <= |rows|
    decreases |rows|
  {
    if rows == [] then []
    else (if rows[0].slack == s then [] else [rows[0]]) + WithoutSlack(rows[1..], s)
  }

  /** Prepending a row keeps both constraints when it shares no key with
      the rest. */
  lemma OneToOneCons(x: Mapping, rest: seq<Mapping>)
    requires OneToOne(rest)
    requires forall y :: y in rest ==> y.slack != x.slack && y.irc != x.irc
    ensures OneToOne([x] + rest)
  {
    var rows := [x] + rest;
    forall i, j | 0 <= i < j < |rows| ensures rows[i].slack != rows[j].slack && rows[i].irc != rows[j].irc {
      assert rows[j] == rest[j - 1];
      if i > 0 {
        assert rows[i] == rest[i - 1];
      }
    }
  }

  /** The replace step keeps both constraints. */
  lemma {:induction false} WithoutConflictsOneToOne(rows: seq<Mapping>, m: Mapping)
    requires OneToOne(rows)
    ensures OneToOne(WithoutConflicts(rows, m))
    decreases |rows|
  {
    if rows != [] {
      var rest := rows[1..];
      assert OneToOne(rest) by {
        forall i, j | 0 <= i < j < |rest| ensures rest[i].slack != rest[j].slack && rest[i].irc != rest[j].irc {
          assert rest[i] == rows[i + 1] && rest[j] == rows[j + 1];
        }
      }
      WithoutConflictsOneToOne(rest, m);
      if !Conflicts(rows[0], m) {
        forall y | y in WithoutConflicts(rest, m) ensures y.slack != rows[0].slack && y.irc != rows[0].irc {
          var k :| 0 <= k < |rest| && rest[k] == y;
          assert rows[k + 1] == y;
        }
        OneToOneCons(rows[0], WithoutConflicts(rest, m));
      }
    }
  }

  /** Deleting rows keeps both constraints. */
  lemma {:induction false} WithoutSlackOneToOne(rows: seq<Mapping>, s: string)
    requires OneToOne(rows)
    ensures OneToOne(WithoutSlack(rows, s))
    decreases |rows|
  {
    if rows != [] {
      var rest := rows[1..];
      assert OneToOne(rest) by {
        forall i, j | 0 <= i < j < |rest| ensures rest[i].slack != rest[j].slack && rest[i].irc != rest[j].irc {
          assert rest[i] == rows[i + 1] && rest[j] == rows[j + 1];
        }
      }
      WithoutSlackOneToOne(rest, s);
      if rows[0].slack != s {
        forall y | y in WithoutSlack(rest, s) ensures y.slack != rows[0].slack && y.irc != rows[0].irc {
          var k :| 0 <= k < |rest| && rest[k] == y;
          assert rows[k + 1] == y;
        }
        OneToOneCons(rows[0], WithoutSlack(rest, s));
      }
    }
  }

  /** INSERT OR REPLACE removes every row sharing either key with the new
      row, keeps every other row, and adds the new one: whatever the table
      held, it then satisfies both constraints if it did before. */
  lemma CreateReplaces(rows: seq<Mapping>, m: Mapping)
    requires OneToOne(rows)
    ensures forall x :: x in InsertOrReplace(rows, m) <==> x == m || (x in rows && !Conflicts(x, m))
    ensures OneToOne(InsertOrReplace(rows, m))
  {
    var kept := WithoutConflicts(rows, m);
    WithoutConflictsOneToOne(rows, m);
    var r := kept + [m];
    forall i, j | 0 <= i < j < |r| ensures r[i].slack != r[j].slack && r[i].irc != r[j].irc {
      if j == |r| - 1 {
        assert r[i] in kept;
      } else {
        assert r[i] == kept[i] && r[j] == kept[j];
      }
    }
  }

  /** After `create(s, i)` both lookups find the new row. */
  lemma CreateFinds(rows: seq<Mapping>, s: string, i: string, now: int)
    ensures FindBySlack(InsertOrReplace(rows, Mapping(s, i, now)), s) == Some(Mapping(s, i, now))
    ensures FindByIrc(InsertOrReplace(rows, Mapping(s, i, now)), i) == Some(Mapping(s, i, now))
  {
    var m := Mapping(s, i, now);
    FindLast(WithoutConflicts(rows, m), m);
  }

  lemma {:induction false} FindLast(kept: seq<Mapping>, m: Mapping)
    requires forall x :: x in kept ==> !Conflicts(x, m)
    ensures FindBySlack(kept + [m], m.slack) == Some(m)
    ensures FindByIrc(kept + [m], m.irc) == Some(m)
    decreases |kept|
  {
    if kept == [] {
      assert [] + [m] == [m];
    } else {
      assert (kept + [m])[1..] == kept[1..] + [m];
      FindLast(kept[1..], m);
    }
  }

  /** The number of rows for a Slack id. */
  function CountSlack(rows: seq<Mapping>, s: string): nat
    decreases |rows|
  {
    if rows == [] then 0 else (if rows[0].slack == s then 1 else 0) + CountSlack(rows[1..], s)
  }

  lemma {:induction false} CountSlackAbsent(rows: seq<Mapping>, s: string)
    requires forall x :: x in rows ==> x.slack != s
    ensures CountSlack(rows, s) == 0
    decreases |rows|
  {
    if rows != [] {
      CountSlackAbsent(rows[1..], s);
    }
  }

  lemma {:induction false} CountSlackAppend(a: seq<Mapping>, b: seq<Mapping>, s: string)
    ensures CountSlack(a + b, s) == CountSlack(a, s) + CountSlack(b, s)
    decreases |a|
  {
    if a == [] {
      assert a + b == b;
    } else {
      assert (a + b)[1..] == a[1..] + b;
      CountSlackAppend(a[1..], b, s);
    }
  }

  /** `create` is an upsert on the Slack id: afterwards there is exactly one
      row for `s`, and it maps to the new IRC name, whatever the table held
      (in particular after an earlier `create(s, "#old")`). */
  lemma CreateUpserts(rows: seq<Mapping>, s: string, i: string, now: int)
    ensures CountSlack(InsertOrReplace(rows, Mapping(s, i, now)), s) == 1
    ensures forall x :: x in InsertOrReplace(rows, Mapping(s, i, now)) && x.slack == s ==> x.irc == i
  {
    var m := Mapping(s, i, now);
    var kept := WithoutConflicts(rows, m);
    CountSlackAbsent(kept, s);
    CountSlackAppend(kept, [m], s);
    assert [m][1..] == [];
  }

  /** When neither key is mapped, `create` replaces nothing: it appends. */
  lemma {:induction false} CreateFreshAppends(rows: seq<Mapping>, m: Mapping)
    requires FindBySlack(rows, m.slack).None? && FindByIrc(rows, m.irc).None?
    ensures InsertOrReplace(rows, m) == rows + [m]
    decreases |rows|
  {
    NoConflictsIdentity(rows, m);
  }

  lemma {:induction false} NoConflictsIdentity(rows: seq<Mapping>, m: Mapping)
    requires forall k :: 0 <= k < |rows| ==> !Conflicts(rows[k], m)
    ensures WithoutConflicts(rows, m) == rows
    decreases |rows|
  {
    if rows != [] {
      NoConflictsIdentity(rows[1..], m);
      assert forall k :: 0 <= k < |rows[1..]| ==> rows[1..][k] == rows[k + 1];
      assert [rows[0]] + rows[1..] == rows;
    }
  }

  /** `delete(s)`: afterwards nothing is found for `s`, every other row is
      kept, and deleting an absent id changes nothing. */
  lemma DeleteLaws(rows: seq<Mapping>, s: string)
    ensures FindBySlack(WithoutSlack(rows, s), s).None?
    ensures forall x :: x in WithoutSlack(rows, s) <==> x in rows && x.slack != s
    ensures FindBySlack(rows, s).None? ==> WithoutSlack(rows, s) == rows
  {
    if FindBySlack(rows, s).None? {
      WithoutAbsent(rows, s);
    }
  }

  lemma {:induction false} WithoutAbsent(rows: seq<Mapping>, s: string)
    requires forall k :: 0 <= k < |rows| ==> rows[k].slack != s
    ensures WithoutSlack(rows, s) == rows
    decreases |rows|
  {
    if rows != [] {
      assert forall k :: 0 <= k < |rows[1..]| ==> rows[1..][k] == rows[k + 1];
      WithoutAbsent(rows[1..], s);
      assert [rows[0]] + rows[1..] == rows;
    }
  }

  // ---------------------------------------------------------------------
  // The migration's duplicate removal

  /** Row `i` is the one `ORDER BY created_at DESC LIMIT 1` keeps for its
      IRC name: no row for that name is newer, and among equally new rows
      it comes first in rowid order. */
  predicate IsNewest(rows: seq<Mapping>, i: nat)
    requires i < |rows|
  {
    forall j :: 0 <= j < |rows| && rows[j].irc == rows[i].irc ==>
      rows[j].created < rows[i].created || (rows[j].created == rows[i].created && i <= j)
  }

  /** The rows from index `k` on that the duplicate removal keeps. */
  function KeepNewestFrom(rows: seq<Mapping>, k: nat): (r: seq<Mapping>)
    requires k <= |rows|
    ensures forall x :: x in r <==> exists i :: k <= i < |rows| && rows[i] == x && IsNewest(rows, i)
    decreases |rows| - k
  {
    if k == |rows| then []
    else (if IsNewest(rows, k) then [rows[k]] else []) + KeepNewestFrom(rows, k + 1)
  }

  /** The migration: for every IRC name, delete every row but the newest. */
  function KeepNewest(rows: seq<Mapping>): seq<Mapping> {
    KeepNewestFrom(rows, 0)
  }

  /** The kept rows have distinct IRC names and, when the Slack ids were
      distinct, distinct Slack ids: the table then meets the new schema. */
  lemma {:induction false} KeepNewestFromOneToOne(rows: seq<Mapping>, k: nat)
    requires k <= |rows| && SlackUnique(rows)
    ensures OneToOne(KeepNewestFrom(rows, k))
    decreases |rows| - k
  {
    if k < |rows| {
      var rest := KeepNewestFrom(rows, k + 1);
      KeepNewestFromOneToOne(rows, k + 1);
      if IsNewest(rows, k) {
        forall y | y in rest ensures y.slack != rows[k].slack && y.irc != rows[k].irc {
          var i :| k + 1 <= i < |rows| && rows[i] == y && IsNewest(rows, i);
        }
        OneToOneCons(rows[k], rest);
      }
    }
  }

  lemma MigrationOneToOne(rows: seq<Mapping>)
    requires SlackUnique(rows)
    ensures OneToOne(KeepNewest(rows))
  {
    KeepNewestFromOneToOne(rows, 0);
  }

  /** The newest row of the IRC name of row `i`, scanning from `k` with
      `best` the newest seen so far. */
  function NewestIndexFrom(rows: seq<Mapping>, best: nat, k: nat): (b: nat)
    requires best < |rows| && k <= |rows|
    ensures b < |rows| && rows[b].irc == rows[best].irc
    decreases |rows| - k
  {
    if k == |rows| then best
    else if rows[k].irc == rows[best].irc && rows[k].created > rows[best].created then NewestIndexFrom(rows, k, k + 1)
    else NewestIndexFrom(rows, best, k + 1)
  }

  /** Scanning from the first row of a name finds the row the migration
      keeps for it. */
  lemma {:induction false} NewestIndexIsNewest(rows: seq<Mapping>, best: nat, k: nat)
    requires best < k <= |rows|
    requires forall j :: 0 <= j < k && rows[j].irc == rows[best].irc ==>
      rows[j].created < rows[best].created || (rows[j].created == rows[best].created && best <= j)
    ensures IsNewest(rows, NewestIndexFrom(rows, best, k))
    decreases |rows| - k
  {
    if k < |rows| {
      if rows[k].irc == rows[best].irc && rows[k].created > rows[best].created {
        NewestIndexIsNewest(rows, k, k + 1);
      } else {
        NewestIndexIsNewest(rows, best, k + 1);
      }
    }
  }

  /** The first row carrying the IRC name of row `i`. */
  function FirstOfIrc(rows: seq<Mapping>, i: nat, k: nat): (f: nat)
    requires k <= i < |rows| && rows[i].irc == rows[i].irc
    ensures k <= f <= i && rows[f].irc == rows[i].irc
    ensures forall j :: k <= j < f ==> rows[j].irc != rows[i].irc
    decreases i - k
  {
    if rows[k].irc == rows[i].irc then k else FirstOfIrc(rows, i, k + 1)
  }

  /** No IRC name disappears: for every row, a row with the same name and
      a `created_at` at least as recent survives the migration. */
  lemma MigrationKeepsEveryName(rows: seq<Mapping>, i: nat)
    requires i < |rows|
    ensures exists y :: y in KeepNewest(rows) && y.irc == rows[i].irc && y.created >= rows[i].created
  {
    var f := FirstOfIrc(rows, i, 0);
    NewestIndexIsNewest(rows, f, f + 1);
    var b := NewestIndexFrom(rows, f, f + 1);
    assert IsNewest(rows, b);
    assert rows[b] in KeepNewest(rows);
  }

  /** A table without duplicate IRC names is left as it is. */
  lemma {:induction false} MigrationIdentity(rows: seq<Mapping>, k: nat)
    requires k <= |rows|
    requires forall i, j :: 0 <= i < j < |rows| ==> rows[i].irc != rows[j].irc
    ensures KeepNewestFrom(rows, k) == rows[k..]
    decreases |rows| - k
  {
    if k < |rows| {
      MigrationIdentity(rows, k + 1);
      assert IsNewest(rows, k);
      assert [rows[k]] + rows[k + 1..] == rows[k..];
    }
  }

  /** A mapping table: channel_mappings or user_mappings. */
  class MappingTable {
    var rows: seq<Mapping>

    /** The table invariant the two UNIQUE constraints enforce. */
    predicate Valid()
      reads this
    {
      OneToOne(rows)
    }

    constructor ()
      ensures rows == [] && Valid()
    {
      rows := [];
    }

    /** `getAll`: every row in rowid order. */
    function GetAll(): (r: seq<Mapping>)
      reads this
      ensures |r| == |rows| && forall k :: 0 <= k < |r| ==> r[k] == rows[k]
    {
      rows
    }

    /** `getBySlackChannel` / `getBySlackUser`. */
    function GetBySlack(s: string): (r: Option<Mapping>)
      reads this
      ensures r.None? <==> forall k :: 0 <= k < |rows| ==> rows[k].slack != s
      ensures r.Some? ==> r.value in rows && r.value.slack == s
    {
      FindBySlack(rows, s)
    }

    /** `getByIrcChannel` / `getByIrcNick`. */
    function GetByIrc(i: string): (r: Option<Mapping>)
      reads this
      ensures r.None? <==> forall k :: 0 <= k < |rows| ==> rows[k].irc != i
      ensures r.Some? ==> r.value in rows && r.value.irc == i
    {
      FindByIrc(rows, i)
    }

    /** `create(slack, irc)`, with `now` standing for the `created_at`
        default. */
    method Create(s: string, i: string, now: int)
      requires Valid()
      modifies this
      ensures rows == InsertOrReplace(old(rows), Mapping(s, i, now))
      ensures Valid()
      ensures GetBySlack(s) == Some(Mapping(s, i, now)) && GetByIrc(i) == Some(Mapping(s, i, now))
    {
      CreateReplaces(rows, Mapping(s, i, now));
      CreateFinds(rows, s, i, now);
      rows := InsertOrReplace(rows, Mapping(s, i, now));
    }

    /** `delete(slack)`. */
    method Delete(s: string)
      requires Valid()
      modifies this
      ensures rows == WithoutSlack(old(rows), s)
      ensures Valid() && GetBySlack(s).None?
    {
      WithoutSlackOneToOne(rows, s);
      DeleteLaws(rows, s);
      rows := WithoutSlack(rows, s);
    }

    /** The duplicate removal of `migrateSchema`, run on a table whose only
        UNIQUE column was the Slack id; afterwards the table meets both
        constraints. */
    method RemoveDuplicateIrc()
      requires SlackUnique(rows)
      modifies this
      ensures rows == KeepNewest(old(rows))
      ensures Valid()
    {
      MigrationOneToOne(rows);
      rows := KeepNewest(rows);
    }
  }

  // ---------------------------------------------------------------------
  // thread_timestamps

  /** A row of thread_timestamps. */
  datatype ThreadInfo = ThreadInfo(ts: string, id: string, channel: string, time: int)

  /** `get(threadTs)`. */
  function FindByTs(rows: seq<ThreadInfo>, ts: string): (r: Option<ThreadInfo>)
    ensures r.None? <==> forall k :: 0 <= k < |rows| ==> rows[k].ts != ts
    ensures r.Some? ==> r.value in rows && r.value.ts == ts
    decreases |rows|
  {
    if rows == [] then None
    else if rows[0].ts == ts then Some(rows[0])
    else FindByTs(rows[1..], ts)
  }

  /** `getByThreadId(threadId)`. */
  function FindById(rows: seq<ThreadInfo>, id: string): (r: Option<ThreadInfo>)
    ensures r.None? <==> forall k :: 0 <= k < |rows| ==> rows[k].id != id
    ensures r.Some? ==> r.value in rows && r.value.id == id
    decreases |rows|
  {
    if rows == [] then None
    else if rows[0].id == id then Some(rows[0])
    else FindById(rows[1..], id)
  }

  /** The PRIMARY KEY on `thread_ts` and the UNIQUE `thread_id`. */
  predicate KeysUnique(rows: seq<ThreadInfo>) {
    forall i, j :: 0 <= i < j < |rows| ==> rows[i].ts != rows[j].ts && rows[i].id != rows[j].id
  }

  /** The rows that survive the replace step of inserting `t`. */
  function WithoutThread(rows: seq<ThreadInfo>, t: ThreadInfo): (r: seq<ThreadInfo>)
    ensures forall x :: x in r <==> x in rows && x.ts != t.ts && x.id != t.id
    decreases |rows|
  {
    if rows == [] then []
    else (if rows[0].ts == t.ts || rows[0].id == t.id then [] else [rows[0]]) + WithoutThread(rows[1..], t)
  }

  /** `update(ts, id, channel, time)`: INSERT OR REPLACE. */
  function UpsertThread(rows: seq<ThreadInfo>, t: ThreadInfo): seq<ThreadInfo> {
    WithoutThread(rows, t) + [t]
  }

  /** `cleanup(olderThan)`: `DELETE ... WHERE last_message_time < ?`. */
  function NotOlderThan(rows: seq<ThreadInfo>, cutoff: int): (r: seq<ThreadInfo>)
    ensures forall x :: x in r <==> x in rows && x.time >= cutoff
    decreases |rows|
  {
    if rows == [] then []
    else (if rows[0].time < cutoff then [] else [rows[0]]) + NotOlderThan(rows[1..], cutoff)
  }

  lemma KeysUniqueCons(x: ThreadInfo, rest: seq<ThreadInfo>)
    requires KeysUnique(rest)
    requires forall y :: y in rest ==> y.ts != x.ts && y.id != x.id
    ensures KeysUnique([x] + rest)
  {
    var rows := [x] + rest;
    forall i, j | 0 <= i < j < |rows| ensures rows[i].ts != rows[j].ts && rows[i].id != rows[j].id {
      assert rows[j] == rest[j - 1];
      if i > 0 {
        assert rows[i] == rest[i - 1];
      }
    }
  }

  lemma KeysUniqueTail(rows: seq<ThreadInfo>)
    requires KeysUnique(rows) && rows != []
    ensures KeysUnique(rows[1..])
    ensures forall y :: y in rows[1..] ==> y.ts != rows[0].ts && y.id != rows[0].id
  {
    var rest := rows[1..];
    forall i, j | 0 <= i < j < |rest| ensures rest[i].ts != rest[j].ts && rest[i].id != rest[j].id {
      assert rest[i] == rows[i + 1] && rest[j] == rows[j + 1];
    }
    forall y | y in rest ensures y.ts != rows[0].ts && y.id != rows[0].id {
      var k :| 0 <= k < |rest| && rest[k] == y;
      assert rows[k + 1] == y;
    }
  }

  lemma {:induction false} WithoutThreadUnique(rows: seq<ThreadInfo>, t: ThreadInfo)
    requires KeysUnique(rows)
    ensures KeysUnique(WithoutThread(rows, t))
    decreases |rows|
  {
    if rows != [] {
      KeysUniqueTail(rows);
      WithoutThreadUnique(rows[1..], t);
      if rows[0].ts != t.ts && rows[0].id != t.id {
        KeysUniqueCons(rows[0], WithoutThread(rows[1..], t));
      }
    }
  }

  lemma {:induction false} NotOlderThanUnique(rows: seq<ThreadInfo>, cutoff: int)
    requires KeysUnique(rows)
    ensures KeysUnique(NotOlderThan(rows, cutoff))
    decreases |rows|
  {
    if rows != [] {
      KeysUniqueTail(rows);
      NotOlderThanUnique(rows[1..], cutoff);
      if rows[0].time >= cutoff {
        KeysUniqueCons(rows[0], NotOlderThan(rows[1..], cutoff));
      }
    }
  }

  /** `update` is an upsert on `thread_ts` that also evicts any other
      thread carrying the same `thread_id`: afterwards both lookups find
      the new row, and both keys stay unique. */
  lemma UpsertThreadLaws(rows: seq<ThreadInfo>, t: ThreadInfo)
    requires KeysUnique(rows)
    ensures forall x :: x in UpsertThread(rows, t) <==> x == t || (x in rows && x.ts != t.ts && x.id != t.id)
    ensures KeysUnique(UpsertThread(rows, t))
    ensures FindByTs(UpsertThread(rows, t), t.ts) == Some(t)
    ensures FindById(UpsertThread(rows, t), t.id) == Some(t)
  {
    var kept := WithoutThread(rows, t);
    WithoutThreadUnique(rows, t);
    var r := kept + [t];
    forall i, j | 0 <= i < j < |r| ensures r[i].ts != r[j].ts && r[i].id != r[j].id {
      if j == |r| - 1 {
        assert r[i] in kept;
      } else {
        assert r[i] == kept[i] && r[j] == kept[j];
      }
    }
    FindThreadLast(kept, t);
  }

  lemma {:induction false} FindThreadLast(kept: seq<ThreadInfo>, t: ThreadInfo)
    requires forall x :: x in kept ==> x.ts != t.ts && x.id != t.id
    ensures FindByTs(kept + [t], t.ts) == Some(t)
    ensures FindById(kept + [t], t.id) == Some(t)
    decreases |kept|
  {
    if kept == [] {
      assert [] + [t] == [t];
    } else {
      assert (kept + [t])[1..] == kept[1..] + [t];
      FindThreadLast(kept[1..], t);
    }
  }

  /** `cleanup(t)` removes exactly the rows with `last_message_time < t`. */
  lemma CleanupLaws(rows: seq<ThreadInfo>, cutoff: int)
    requires KeysUnique(rows)
    ensures forall x :: x in rows && x.time < cutoff ==> x !in NotOlderThan(rows, cutoff)
    ensures forall x :: x in rows && x.time >= cutoff ==> x in NotOlderThan(rows, cutoff)
    ensures KeysUnique(NotOlderThan(rows, cutoff))
  {
    NotOlderThanUnique(rows, cutoff);
  }

  /** The thread_timestamps table. */
  class ThreadTable {
    var rows: seq<ThreadInfo>

    predicate Valid()
      reads this
    {
      KeysUnique(rows)
    }

    constructor ()
      ensures rows == [] && Valid()
    {
      rows := [];
    }

    /** `get(threadTs)`. */
    function Get(ts: string): (r: Option<ThreadInfo>)
      reads this
      ensures r.None? <==> forall k :: 0 <= k < |rows| ==> rows[k].ts != ts
      ensures r.Some? ==> r.value in rows && r.value.ts == ts
    {
      FindByTs(rows, ts)
    }

    /** `getByThreadId(threadId)`. */
    function GetByThreadId(id: string): (r: Option<ThreadInfo>)
      reads this
      ensures r.None? <==> forall k :: 0 <= k < |rows| ==> rows[k].id != id
      ensures r.Some? ==> r.value in rows && r.value.id == id
    {
      FindById(rows, id)
    }

    /** `update(threadTs, threadId, slackChannelId, timestamp)`. */
    method Update(ts: string, id: string, channel: string, time: int)
      requires Valid()
      modifies this
      ensures rows == UpsertThread(old(rows), ThreadInfo(ts, id, channel, time))
      ensures Valid()
      ensures Get(ts) == Some(ThreadInfo(ts, id, channel, time))
      ensures GetByThreadId(id) == Some(ThreadInfo(ts, id, channel, time))
    {
      UpsertThreadLaws(rows, ThreadInfo(ts, id, channel, time));
      rows := UpsertThread(rows, ThreadInfo(ts, id, channel, time));
    }

    /** `cleanup(olderThan)`. */
    method Cleanup(olderThan: int)
      requires Valid()
      modifies this
      ensures rows == NotOlderThan(old(rows), olderThan)
      ensures Valid()
      ensures forall x :: x in rows <==> x in old(rows) && x.time >= olderThan
    {
      CleanupLaws(rows, olderThan);
      rows := NotOlderThan(rows, olderThan);
    }
  }
}
