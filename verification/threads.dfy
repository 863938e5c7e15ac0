/**
  The thread mapper of src/lib/threads.ts: short thread ids derived from
  the Slack thread timestamp, and the bookkeeping on the thread table.
  `Date.now()` is the parameter `now`.
*/
module Threads {
  import opened Wrappers
  import opened Hashing
  import opened Store

  /** THREAD_TIMEOUT_MS: ten minutes. */
  const ThreadTimeoutMs: int := 10 * 60 * 1000

  /** `generateThreadId`: the base-36 form of `|hash|`, cut to its first
      five characters. */
  function GenerateThreadId(threadTs: string): (id: string)
    ensures 1 <= |id| <= 5
    ensures forall i :: 0 <= i < |id| ==> IsDigit36(id[i])
    ensures id <= Base36(Abs(Hash(threadTs)))
  {
    var digits := Base36(Abs(Hash(threadTs)));
    if |digits| <= 5 then digits else digits[..5]
  }

  /** The id has five characters exactly when `|hash|` is at least 36^4;
      shorter hashes give shorter ids. */
  lemma ThreadIdLength(threadTs: string)
    ensures |GenerateThreadId(threadTs)| == 5 <==> Abs(Hash(threadTs)) >= Pow36(4)
  {
    Base36Length(Abs(Hash(threadTs)), 4);
  }

  /** When the id has fewer than five characters it is the whole numeral,
      so it reads back as `|hash|`. */
  lemma ShortThreadIdIsHash(threadTs: string)
    requires |GenerateThreadId(threadTs)| < 5
    ensures Base36Value(GenerateThreadId(threadTs)) == Abs(Hash(threadTs))
  {
    Base36RoundTrip(Abs(Hash(threadTs)));
  }

  /** `isFirstThreadMessage`: no row for the thread yet. */
  function IsFirstThreadMessage(table: ThreadTable, threadTs: string): (first: bool)
    reads table
    ensures first <==> forall k :: 0 <= k < |table.rows| ==> table.rows[k].ts != threadTs
  {
    table.Get(threadTs).None?
  }

  /** `getThreadByThreadId`. */
  function GetThreadByThreadId(table: ThreadTable, threadId: string): (r: Option<ThreadInfo>)
    reads table
    ensures r.None? <==> forall k :: 0 <= k < |table.rows| ==> table.rows[k].id != threadId
    ensures r.Some? ==> r.value in table.rows && r.value.id == threadId
  {
    table.GetByThreadId(threadId)
  }

  /** `updateThreadTimestamp`: the thread's row now carries its id, the
      channel and `now`, it is found under both keys, and the thread is no
      longer new. */
  method UpdateThreadTimestamp(table: ThreadTable, threadTs: string, channel: string, now: int)
    returns (threadId: string)
    requires table.Valid()
    modifies table
    ensures threadId == GenerateThreadId(threadTs)
    ensures table.rows == UpsertThread(old(table.rows), ThreadInfo(threadTs, threadId, channel, now))
    ensures table.Valid()
    ensures table.Get(threadTs) == Some(ThreadInfo(threadTs, threadId, channel, now))
    ensures GetThreadByThreadId(table, threadId) == Some(ThreadInfo(threadTs, threadId, channel, now))
    ensures !IsFirstThreadMessage(table, threadTs)
  {
    var hash := HashLoop(threadTs);
    var digits := Base36(Abs(hash));
    threadId := if |digits| <= 5 then digits else digits[..5];
    table.Update(threadTs, threadId, channel, now);
  }

  /** The sweep cutoff: two timeouts before `now`. */
  function Cutoff(now: int): (c: int)
    ensures c == now - 1200000
  {
    now - ThreadTimeoutMs * 2
  }

  /** `cleanupOldThreads`: exactly the threads idle since before the
      cutoff are dropped. */
  method CleanupOldThreads(table: ThreadTable, now: int)
    requires table.Valid()
    modifies table
    ensures table.rows == NotOlderThan(old(table.rows), Cutoff(now))
    ensures table.Valid()
    ensures forall x :: x in table.rows <==> x in old(table.rows) && x.time >= now - 1200000
  {
    table.Cleanup(Cutoff(now));
  }

  /** Two updates of the same thread, the second at a later time: both find
      the thread under the same id, the second with the later time. */
  lemma RepeatedUpdates(rows: seq<ThreadInfo>, threadTs: string, c1: string, c2: string, t1: int, t2: int)
    requires KeysUnique(rows) && t1 <= t2
    ensures var id := GenerateThreadId(threadTs);
      var once := UpsertThread(rows, ThreadInfo(threadTs, id, c1, t1));
      var twice := UpsertThread(once, ThreadInfo(threadTs, id, c2, t2));
      FindByTs(once, threadTs) == Some(ThreadInfo(threadTs, id, c1, t1))
      && FindByTs(twice, threadTs) == Some(ThreadInfo(threadTs, id, c2, t2))
  {
    var id := GenerateThreadId(threadTs);
    var once := UpsertThread(rows, ThreadInfo(threadTs, id, c1, t1));
    UpsertThreadLaws(rows, ThreadInfo(threadTs, id, c1, t1));
    UpsertThreadLaws(once, ThreadInfo(threadTs, id, c2, t2));
  }

  /** The two thread timestamps of the tests get five-character ids, and
      different ones. */
  lemma ThreadIdExamples(a: string, b: string)
    requires a == "1234567890.123456" && b == "9876543210.654321"
    ensures GenerateThreadId(a) == "2qeqs" && GenerateThreadId(b) == "ljb0f"
    ensures GenerateThreadId(a) != GenerateThreadId(b)
  {
    ThreadIdA(a);
    ThreadIdB(b);
  }

  lemma ThreadIdA(s: string)
    requires s == "1234567890.123456"
    ensures GenerateThreadId(s) == "2qeqs"
  {
    TimestampHashA(s);
    assert Base36(2) == "2";
    assert Base36(98) == "2q";
    assert Base36(3542) == "2qe";
    assert Base36(127538) == "2qeq";
    assert Base36(4591396) == "2qeqs";
    assert Base36(165290262) == "2qeqs6";
  }

  lemma ThreadIdB(s: string)
    requires s == "9876543210.654321"
    ensures GenerateThreadId(s) == "ljb0f"
  {
    TimestampHashB(s);
    assert Base36(21) == "l";
    assert Base36(775) == "lj";
    assert Base36(27911) == "ljb";
    assert Base36(1004796) == "ljb0";
    assert Base36(36172671) == "ljb0f";
    assert Base36(1302216176) == "ljb0fk";
  }

  /** An input whose hash is below 36^4 gets an id shorter than five
      characters. */
  lemma ShortThreadIdExample(s: string)
    requires s == "bob"
    ensures GenerateThreadId(s) == "23ed"
  {
    HashOfBob(s);
    assert Base36(2) == "2";
    assert Base36(75) == "23";
    assert Base36(2714) == "23e";
    assert Base36(97717) == "23ed";
  }
}
