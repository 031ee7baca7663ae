/** `getTokenCapacity` in src/scheduler/capacity.ts: how many tokens a worker
    may still send, judged from the records of the tasks it started. The
    records are tallied in three trailing windows (the last 60 s, 10 s and
    1 s before `now`); each window leaves a residual budget (the whole
    per-minute limit for 60 s, a sixth of it for 10 s, a sixtieth for 1 s),
    a shorter window with no record falls back to the 60 s residual, and the
    capacity is the smallest residual. Times are milliseconds; `now` is a
    parameter instead of the clock. */
module Capacity {

  /** The part of a `TaskRecord` the capacity reads. */
  datatype TaskRecord = TaskRecord(startedAt: int, tokensDemanded: real)

  /** The accumulator of the `reduce`. */
  datatype Usage = Usage(count60s: nat, usage60s: real, count10s: nat, usage10s: real, count1s: nat, usage1s: real)

  const EmptyUsage := Usage(0, 0.0, 0, 0.0, 0, 0.0)

  /** The callback of the `reduce`: a record started after `now - 60000`
      counts in the 60 s window, and within it, when started after
      `now - 10000`, in the 10 s window, and within that, when started after
      `now - 1000`, in the 1 s window. The demanded tokens, not the tokens
      used, are what counts. */
  function Tally(u: Usage, record: TaskRecord, now: int): (r: Usage)
    ensures u.count1s <= r.count1s
    ensures r.count1s - u.count1s <= r.count10s - u.count10s <= r.count60s - u.count60s <= 1
    ensures record.startedAt <= now - 60_000 ==> r == u
  {
    if record.startedAt > now - 60_000 then
      var usage := record.tokensDemanded;
      var u := u.(count60s := u.count60s + 1, usage60s := u.usage60s + usage);
      if record.startedAt > now - 10_000 then
        var u := u.(count10s := u.count10s + 1, usage10s := u.usage10s + usage);
        if record.startedAt > now - 1_000 then
          u.(count1s := u.count1s + 1, usage1s := u.usage1s + usage)
        else u
      else u
    else u
  }

  /** `records.reduce(...)` from the empty tally, left to right. */
  function Tallied(records: seq<TaskRecord>, now: int): Usage
  {
    if |records| == 0 then EmptyUsage
    else Tally(Tallied(records[..|records| - 1], now), records[|records| - 1], now)
  }

  function Min3(a: real, b: real, c: real): (m: real)
    ensures m <= a && m <= b && m <= c
    ensures m == a || m == b || m == c
  {
    if a <= b && a <= c then a else if b <= c then b else c
  }

  /** `getTokenCapacity(tokensPerMinute, records)` at time `now`. */
  function TokenCapacity(tokensPerMinute: real, records: seq<TaskRecord>, now: int): (r: real)
    ensures r <= tokensPerMinute - Tallied(records, now).usage60s
    ensures Tallied(records, now).count10s == 0 ==> r == tokensPerMinute - Tallied(records, now).usage60s
  {
    WindowsNested(records, now);
    var w := Tallied(records, now);
    var capacity60s := tokensPerMinute - w.usage60s;
    var capacity10s := if w.count10s > 0 then tokensPerMinute / 6.0 - w.usage10s else capacity60s;
    var capacity1s := if w.count1s > 0 then tokensPerMinute / 60.0 - w.usage1s else capacity60s;
    Min3(capacity1s, capacity10s, capacity60s)
  }

  // ----- a reference definition of the windows -----

  /** The number of records started after `since`. */
  function CountAfter(records: seq<TaskRecord>, since: int): nat
  {
    if |records| == 0 then 0
    else CountAfter(records[..|records| - 1], since) + (if records[|records| - 1].startedAt > since then 1 else 0)
  }

  /** The tokens demanded by the records started after `since`. */
  function DemandAfter(records: seq<TaskRecord>, since: int): real
  {
    if |records| == 0 then 0.0
    else DemandAfter(records[..|records| - 1], since) + (if records[|records| - 1].startedAt > since then records[|records| - 1].tokensDemanded else 0.0)
  }

  /** Each window of the tally counts and sums exactly the records started
      inside it. */
  lemma {:induction false} TalliedIsWindows(records: seq<TaskRecord>, now: int)
    ensures Tallied(records, now) == Usage(
      CountAfter(records, now - 60_000), DemandAfter(records, now - 60_000),
      CountAfter(records, now - 10_000), DemandAfter(records, now - 10_000),
      CountAfter(records, now - 1_000), DemandAfter(records, now - 1_000))
  {
    if |records| > 0 {
      TalliedIsWindows(records[..|records| - 1], now);
    }
  }

  /** A window that starts later holds no more records. */
  lemma {:induction false} CountAfterMonotone(records: seq<TaskRecord>, early: int, late: int)
    requires early <= late
    ensures CountAfter(records, late) <= CountAfter(records, early)
  {
    if |records| > 0 {
      CountAfterMonotone(records[..|records| - 1], early, late);
    }
  }

  /** The windows are nested: every record in the 1 s window is in the 10 s
      window, and every record there is in the 60 s window. */
  lemma WindowsNested(records: seq<TaskRecord>, now: int)
    ensures Tallied(records, now).count1s <= Tallied(records, now).count10s <= Tallied(records, now).count60s
  {
    TalliedIsWindows(records, now);
    CountAfterMonotone(records, now - 10_000, now - 1_000);
    CountAfterMonotone(records, now - 60_000, now - 10_000);
  }

  /** The records started after `since`, in order. */
  function StartedAfter(records: seq<TaskRecord>, since: int): (r: seq<TaskRecord>)
    ensures forall j :: 0 <= j < |r| ==> r[j].startedAt > since
  {
    if |records| == 0 then []
    else
      var rest := StartedAfter(records[..|records| - 1], since);
      if records[|records| - 1].startedAt > since then rest + [records[|records| - 1]] else rest
  }

  lemma {:induction false} StartedAfterWindows(records: seq<TaskRecord>, since: int, t: int)
    requires since <= t
    ensures CountAfter(StartedAfter(records, since), t) == CountAfter(records, t)
    ensures DemandAfter(StartedAfter(records, since), t) == DemandAfter(records, t)
  {
    if |records| > 0 {
      var init, last := records[..|records| - 1], records[|records| - 1];
      StartedAfterWindows(init, since, t);
      var rest := StartedAfter(init, since);
      if last.startedAt > since {
        assert (rest + [last])[..|rest|] == rest;
      }
    }
  }

  /** Records started at or before `now - 60000` have no effect at all: the
      capacity is the same with only the records of the last minute. */
  lemma OldRecordsIgnored(tokensPerMinute: real, records: seq<TaskRecord>, now: int)
    ensures TokenCapacity(tokensPerMinute, records, now)
      == TokenCapacity(tokensPerMinute, StartedAfter(records, now - 60_000), now)
  {
    var recent := StartedAfter(records, now - 60_000);
    TalliedIsWindows(records, now);
    TalliedIsWindows(recent, now);
    StartedAfterWindows(records, now - 60_000, now - 60_000);
    StartedAfterWindows(records, now - 60_000, now - 10_000);
    StartedAfterWindows(records, now - 60_000, now - 1_000);
  }

  // ----- properties of the capacity -----

  /** With records in the last 10 s but none in the last second, the 1 s
      residual falls back to the 60 s one. */
  lemma NoRecordInLastSecond(tokensPerMinute: real, records: seq<TaskRecord>, now: int)
    requires Tallied(records, now).count10s > 0 && Tallied(records, now).count1s == 0
    ensures var w := Tallied(records, now);
      TokenCapacity(tokensPerMinute, records, now)
        == Min3(tokensPerMinute - w.usage60s, tokensPerMinute / 6.0 - w.usage10s, tokensPerMinute - w.usage60s)
  {
  }

  /** Without records the whole limit is available. */
  lemma NoRecords(tokensPerMinute: real, now: int)
    ensures TokenCapacity(tokensPerMinute, [], now) == tokensPerMinute
  {
  }

  /** The capacity is not clamped at zero: with a limit of 60 and one
      record of 55 tokens started 500 ms ago it is `60 / 60 - 55 = -54`. */
  lemma NotClamped(now: int)
    ensures TokenCapacity(60.0, [TaskRecord(now - 500, 55.0)], now) == -54.0
  {
    var records := [TaskRecord(now - 500, 55.0)];
    assert records[..0] == [];
    assert Tallied(records, now) == Usage(1, 55.0, 1, 55.0, 1, 55.0);
  }

  lemma {:induction false} TallyAppend(records: seq<TaskRecord>, r: TaskRecord, now: int)
    ensures Tallied(records + [r], now) == Tally(Tallied(records, now), r, now)
  {
    assert (records + [r])[..|records|] == records;
  }

  /** Admission only gets harder: starting one more task (with a demand that
      is not negative) never raises the capacity. */
  lemma MoreRecordsLessCapacity(tokensPerMinute: real, records: seq<TaskRecord>, r: TaskRecord, now: int)
    requires r.tokensDemanded >= 0.0
    ensures TokenCapacity(tokensPerMinute, records + [r], now) <= TokenCapacity(tokensPerMinute, records, now)
  {
    TallyAppend(records, r, now);
  }
}
