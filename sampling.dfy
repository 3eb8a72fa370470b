/**
 * The two monitoring loops of the driver as specification functions. The
 * stopwatch is a clock oracle: reading j of the elapsed milliseconds returns
 * clock(j), and readings strictly increase. Exchange k of a loop sees the
 * serial-line script script(k).
 */
module Sampling {
  import opened Wrappers
  import opened Bytes
  import opened Codec
  import opened Polling

  type Clock = nat -> int

  type Script = nat -> Arrivals

  /** Every stopwatch reading is later than the one before it. */
  ghost predicate Increasing(clock: Clock)
  {
    forall i: nat, j: nat :: i < j ==> clock(i) < clock(j)
  }

  /** How many sleeps every monitoring exchange may take (a 1000 ms wait). */
  const ReplyBudget: nat := PollBudget(DefaultWaitMs)

  /** One measurement: the stopwatch reading it was stored under, and degrees Celsius. */
  datatype Sample = Sample(elapsedMs: int, celsius: real)

  /** The outcome of a loop, how many exchanges it made, and the reply buffer it left. */
  datatype Session<T> = Session(result: T, exchanges: nat, buffer: seq<byte>)

  /** The failures of line-mode monitoring. */
  datatype MonitorError =
    | NullAddressList      // the instance was built from one address and holds no list
    | DuplicateAddressKey  // more than 256 two-byte chunks: the byte key wrapped around

  /** Timestamps of a series strictly increase, so no key of the time/value dictionary repeats. */
  predicate Chronological(s: seq<Sample>)
  {
    forall i, j :: 0 <= i < j < |s| ==> s[i].elapsedMs < s[j].elapsedMs
  }

  /** Every sample of a series was taken before `t`. */
  predicate Before(s: seq<Sample>, t: int)
  {
    forall i :: 0 <= i < |s| ==> s[i].elapsedMs < t
  }

  /** Every sample holds a temperature a two-byte reply can encode. */
  predicate InRange(s: seq<Sample>)
  {
    forall i :: 0 <= i < |s| ==> -100.0 <= s[i].celsius <= 6453.5
  }

  /** The timestamps of a series, in order. */
  function Times(s: seq<Sample>): (r: seq<int>)
    ensures |r| == |s|
    ensures forall i :: 0 <= i < |s| ==> r[i] == s[i].elapsedMs
  {
    if s == [] then [] else Times(s[..|s| - 1]) + [s[|s| - 1].elapsedMs]
  }

  /** `n` copies of the same frame: what a loop writes to the line. */
  function Repeat(frame: seq<byte>, n: nat): (r: seq<seq<byte>>)
    ensures |r| == n
    ensures forall i :: 0 <= i < n ==> r[i] == frame
  {
    if n == 0 then [] else Repeat(frame, n - 1) + [frame]
  }

  // ---------------------------------------------------------------------------
  // Single-address monitoring
  // ---------------------------------------------------------------------------

  /**
   * The loop of MonitorTemperature from stopwatch reading j and exchange k on,
   * with the measurements `acc` stored so far and the reply buffer `buffer`.
   * While the reading is below the duration, one two-byte temperature read is
   * made; on success the next reading is the sample's key.
   */
  function MonitorRun(durationMs: int, clock: Clock, script: Script, j: nat, k: nat,
                      acc: seq<Sample>, buffer: seq<byte>): Session<seq<Sample>>
    requires Increasing(clock)
    decreases durationMs - clock(j)
  {
    if clock(j) >= durationMs then Session(acc, k, buffer)
    else
      var reply := Reply(script(k), 2, ReplyBudget);
      if |reply| == 2 then
        MonitorRun(durationMs, clock, script, j + 2, k + 1,
                   acc + [Sample(clock(j + 1), ConvertToCelsius(reply))], reply)
      else
        MonitorRun(durationMs, clock, script, j + 1, k + 1, acc, reply)
  }

  /** Monitoring only appends, in time order, temperatures in range, each after reading j. */
  lemma {:induction false} MonitorSeries(durationMs: int, clock: Clock, script: Script, j: nat, k: nat,
                                         acc: seq<Sample>, buffer: seq<byte>)
    requires Increasing(clock)
    requires Chronological(acc) && Before(acc, clock(j)) && InRange(acc)
    ensures var r := MonitorRun(durationMs, clock, script, j, k, acc, buffer).result;
      && acc <= r && Chronological(r) && InRange(r)
      && forall i :: |acc| <= i < |r| ==> clock(j) < r[i].elapsedMs
    decreases durationMs - clock(j)
  {
    if clock(j) < durationMs {
      var reply := Reply(script(k), 2, ReplyBudget);
      if |reply| == 2 {
        var acc' := acc + [Sample(clock(j + 1), ConvertToCelsius(reply))];
        assert clock(j) < clock(j + 1) < clock(j + 2);
        assert Chronological(acc') && Before(acc', clock(j + 2)) && InRange(acc');
        MonitorSeries(durationMs, clock, script, j + 2, k + 1, acc', reply);
      } else {
        assert clock(j) < clock(j + 1);
        MonitorSeries(durationMs, clock, script, j + 1, k + 1, acc, reply);
      }
    }
  }

  /** How many of exchanges k..n-1 get a complete two-byte reply. */
  function Completed(script: Script, k: nat, n: nat): nat
    decreases if n <= k then 0 else n - k
  {
    if n <= k then 0
    else (if Succeeds(script(k), 2, ReplyBudget) then 1 else 0) + Completed(script, k + 1, n)
  }

  /**
   * Monitoring only appends: each exchange with a complete reply adds exactly
   * one sample and every other exchange adds none, so at most one per exchange.
   */
  lemma {:induction false} MonitorSamples(durationMs: int, clock: Clock, script: Script, j: nat, k: nat,
                                          acc: seq<Sample>, buffer: seq<byte>)
    requires Increasing(clock)
    ensures var r := MonitorRun(durationMs, clock, script, j, k, acc, buffer);
      && k <= r.exchanges && acc <= r.result
      && |r.result| == |acc| + Completed(script, k, r.exchanges)
      && |r.result| <= |acc| + (r.exchanges - k)
    decreases durationMs - clock(j)
  {
    if clock(j) < durationMs {
      var reply := Reply(script(k), 2, ReplyBudget);
      if |reply| == 2 {
        assert clock(j) < clock(j + 2);
        MonitorSamples(durationMs, clock, script, j + 2, k + 1,
                       acc + [Sample(clock(j + 1), ConvertToCelsius(reply))], reply);
      } else {
        assert clock(j) < clock(j + 1);
        MonitorSamples(durationMs, clock, script, j + 1, k + 1, acc, reply);
      }
    }
  }

  /**
   * An exchange made while the stopwatch is below the duration that gets a
   * complete reply stores its temperature, under the next reading, as the
   * next sample.
   */
  lemma MonitorNextSample(durationMs: int, clock: Clock, script: Script, j: nat, k: nat,
                          acc: seq<Sample>, buffer: seq<byte>)
    requires Increasing(clock) && clock(j) < durationMs && Succeeds(script(k), 2, ReplyBudget)
    ensures var r := MonitorRun(durationMs, clock, script, j, k, acc, buffer).result;
      |acc| < |r| && r[|acc|] == Sample(clock(j + 1), ConvertToCelsius(Reply(script(k), 2, ReplyBudget)))
  {
    var reply := Reply(script(k), 2, ReplyBudget);
    var acc' := acc + [Sample(clock(j + 1), ConvertToCelsius(reply))];
    assert clock(j) < clock(j + 2);
    MonitorSamples(durationMs, clock, script, j + 2, k + 1, acc', reply);
    assert acc'[|acc|] == Sample(clock(j + 1), ConvertToCelsius(reply));
  }

  /** When no exchange gets a complete reply, nothing is measured. */
  lemma {:induction false} MonitorSilent(durationMs: int, clock: Clock, script: Script, j: nat, k: nat,
                                         acc: seq<Sample>, buffer: seq<byte>)
    requires Increasing(clock)
    requires forall e: nat :: k <= e ==> !Succeeds(script(e), 2, ReplyBudget)
    ensures MonitorRun(durationMs, clock, script, j, k, acc, buffer).result == acc
    decreases durationMs - clock(j)
  {
    if clock(j) < durationMs {
      assert !Succeeds(script(k), 2, ReplyBudget);
      assert clock(j) < clock(j + 1);
      MonitorSilent(durationMs, clock, script, j + 1, k + 1, acc, Reply(script(k), 2, ReplyBudget));
    }
  }

  /**
   * Every exchange takes at least a millisecond of stopwatch time, so the loop
   * makes at most as many exchanges as there are milliseconds left.
   */
  lemma {:induction false} MonitorExchanges(durationMs: int, clock: Clock, script: Script, j: nat, k: nat,
                                            acc: seq<Sample>, buffer: seq<byte>)
    requires Increasing(clock)
    ensures var n := MonitorRun(durationMs, clock, script, j, k, acc, buffer).exchanges;
      k <= n && n - k <= (if clock(j) < durationMs then durationMs - clock(j) else 0)
    decreases durationMs - clock(j)
  {
    if clock(j) < durationMs {
      var reply := Reply(script(k), 2, ReplyBudget);
      if |reply| == 2 {
        assert clock(j) < clock(j + 2);
        MonitorExchanges(durationMs, clock, script, j + 2, k + 1,
                         acc + [Sample(clock(j + 1), ConvertToCelsius(reply))], reply);
      } else {
        assert clock(j) < clock(j + 1);
        MonitorExchanges(durationMs, clock, script, j + 1, k + 1, acc, reply);
      }
    }
  }

  // ---------------------------------------------------------------------------
  // Line mode
  // ---------------------------------------------------------------------------

  /** The chunk a key belongs to among the first 256 chunks (key 0 is chunk 255). */
  function ChunkIndex(a: int): int
  {
    if a == 0 then 255 else a - 1
  }

  /** The keys the first n chunks are stored under. */
  function ChunkKeys(n: nat): set<int>
  {
    set i | 0 <= i < n :: ByteCounter(i)
  }

  /** Among the first 256 chunks a key tells its chunk back. */
  lemma ChunkIndexOfKey(i: nat)
    requires i < 256
    ensures ChunkIndex(ByteCounter(i)) == i
  {
  }

  /** The counter moves to the next chunk's key by a wrapping byte increment. */
  lemma ChunkKeyNext(i: nat)
    ensures ByteCounter(i + 1) == (ByteCounter(i) + 1) % 256
  {
    var q := (i + 1) / 256;
    assert i + 1 == 256 * q + ByteCounter(i);
    assert i + 2 == 256 * q + (ByteCounter(i) + 1);
  }

  /** The keys of fewer chunks are among the keys of more. */
  lemma ChunkKeysGrow(i: nat, n: nat)
    requires i <= n
    ensures ChunkKeys(i) <= ChunkKeys(n)
  {
    forall a | a in ChunkKeys(i)
      ensures a in ChunkKeys(n)
    {
      var h :| 0 <= h < i && ByteCounter(h) == a;
      assert 0 <= h < n;
    }
  }

  /**
   * The counter's next key is new exactly until 256 keys are stored; the
   * 257th chunk gets key 1 again.
   */
  lemma ChunkKeyStep(i: nat)
    requires i <= 256
    ensures ByteCounter(i) in ChunkKeys(i) <==> i == 256
    ensures ChunkKeys(i + 1) == ChunkKeys(i) + {ByteCounter(i)}
  {
    if i == 256 {
      assert ByteCounter(0) == ByteCounter(256);
    } else if ByteCounter(i) in ChunkKeys(i) {
      var h :| 0 <= h < i && ByteCounter(h) == ByteCounter(i);
      ChunkIndexOfKey(h);
      ChunkIndexOfKey(i);
    }
    forall a | a in ChunkKeys(i + 1)
      ensures a in ChunkKeys(i) + {ByteCounter(i)}
    {
      var h :| 0 <= h < i + 1 && ByteCounter(h) == a;
      if h < i {
        assert a in ChunkKeys(i);
      }
    }
    forall a | a in ChunkKeys(i)
      ensures a in ChunkKeys(i + 1)
    {
      var h :| 0 <= h < i && ByteCounter(h) == a;
      assert 0 <= h < i + 1;
    }
    assert ByteCounter(i) in ChunkKeys(i + 1);
  }

  /**
   * The temperatures of a line-mode reply by key: chunk i (bytes 2i and 2i+1)
   * under ByteCounter(i); a trailing odd byte is ignored. A 257th chunk reuses
   * key 1 and the dictionary rejects it.
   */
  function ChunkTemperatures(bytes: seq<byte>): Option<map<int, real>>
  {
    if |bytes| / 2 > 256 then None
    else
      KeysOfChunks(|bytes| / 2);
      Some(map a | a in ChunkKeys(|bytes| / 2) :: ConvertToCelsius(bytes[2 * ChunkIndex(a)..2 * ChunkIndex(a) + 2]))
  }

  /** Each of the first n <= 256 keys belongs to one of the first n chunks. */
  lemma KeysOfChunks(n: nat)
    requires n <= 256
    ensures forall a :: a in ChunkKeys(n) ==> ChunkIndex(a) < n
  {
    forall a | a in ChunkKeys(n)
      ensures ChunkIndex(a) < n
    {
    }
  }

  /**
   * A reply of at most 256 chunks is accepted: chunk i is stored under
   * ByteCounter(i), and no other key is stored.
   */
  lemma ChunkValues(bytes: seq<byte>)
    requires |bytes| / 2 <= 256
    ensures ChunkTemperatures(bytes).Some?
    ensures ChunkTemperatures(bytes).value.Keys == ChunkKeys(|bytes| / 2)
    ensures forall i :: 0 <= i < |bytes| / 2 ==>
      ChunkTemperatures(bytes).value[ByteCounter(i)] == ConvertToCelsius(bytes[2 * i..2 * i + 2])
    ensures forall a :: a in ChunkTemperatures(bytes).value ==>
      -100.0 <= ChunkTemperatures(bytes).value[a] <= 6453.5
  {
    var n := |bytes| / 2;
    KeysOfChunks(n);
    var m := ChunkTemperatures(bytes).value;
    assert m == map a | a in ChunkKeys(n) :: ConvertToCelsius(bytes[2 * ChunkIndex(a)..2 * ChunkIndex(a) + 2]);
    assert m.Keys == ChunkKeys(n);
    forall i | 0 <= i < n
      ensures m[ByteCounter(i)] == ConvertToCelsius(bytes[2 * i..2 * i + 2])
    {
      assert ByteCounter(i) in ChunkKeys(n);
      ChunkIndexOfKey(i);
    }
    forall a | a in m
      ensures -100.0 <= m[a] <= 6453.5
    {
      var c := bytes[2 * ChunkIndex(a)..2 * ChunkIndex(a) + 2];
      assert m[a] == ConvertToCelsius(c);
    }
  }

  /** `m` holds the first n chunks of the reply, each under its key. */
  predicate SplitSoFar(bytes: seq<byte>, m: map<int, real>, n: nat)
  {
    && 2 * n <= |bytes|
    && m.Keys == ChunkKeys(n)
    && forall i :: 0 <= i < n ==> m[ByteCounter(i)] == ConvertToCelsius(bytes[2 * i..2 * i + 2])
  }

  /** Storing chunk n under its key, while that key is still free, extends the split by one chunk. */
  lemma SplitStep(bytes: seq<byte>, m: map<int, real>, n: nat)
    requires SplitSoFar(bytes, m, n) && n < 256 && 2 * n + 2 <= |bytes|
    ensures ByteCounter(n) !in m
    ensures SplitSoFar(bytes, m[ByteCounter(n) := ConvertToCelsius(bytes[2 * n..2 * n + 2])], n + 1)
  {
    ChunkKeyStep(n);
    var m' := m[ByteCounter(n) := ConvertToCelsius(bytes[2 * n..2 * n + 2])];
    forall i | 0 <= i < n
      ensures m'[ByteCounter(i)] == ConvertToCelsius(bytes[2 * i..2 * i + 2])
    {
      ChunkIndexOfKey(i);
      ChunkIndexOfKey(n);
    }
  }

  /** A map with the keys and values ChunkValues describes is the split of the reply. */
  lemma ChunkTemperaturesUnique(bytes: seq<byte>, m: map<int, real>)
    requires |bytes| / 2 <= 256
    requires SplitSoFar(bytes, m, |bytes| / 2)
    ensures ChunkTemperatures(bytes) == Some(m)
  {
    ChunkValues(bytes);
    var c := ChunkTemperatures(bytes).value;
    forall a | a in m
      ensures m[a] == c[a]
    {
      var i :| 0 <= i < |bytes| / 2 && ByteCounter(i) == a;
    }
    assert m == c;
  }

  /** Below 256 chunks, the keys are exactly the addresses 1..n. */
  lemma ChunkKeysAreAddresses(n: nat)
    requires n < 256
    ensures forall i :: 0 <= i < n ==> ByteCounter(i) == i + 1
    ensures forall a :: a in ChunkKeys(n) <==> 1 <= a <= n
  {
    forall a | 1 <= a <= n
      ensures a in ChunkKeys(n)
    {
      assert ByteCounter(a - 1) == a;
    }
  }

  /** Exactly 256 chunks: the last one is stored under key 0. */
  lemma FullReplyWrapsToZero(bytes: seq<byte>)
    requires |bytes| == 512
    ensures ChunkTemperatures(bytes).Some?
    ensures 0 in ChunkTemperatures(bytes).value
    ensures ChunkTemperatures(bytes).value[0] == ConvertToCelsius(bytes[510..])
  {
    ChunkValues(bytes);
    assert ByteCounter(255) == 0;
  }

  /** Too many chunks: the source throws on the repeated key. */
  lemma OverlongReplyRejected(bytes: seq<byte>)
    requires |bytes| >= 514
    ensures ChunkTemperatures(bytes).None?
  {
  }

  /** A byte that does not complete a chunk changes nothing. */
  lemma OddByteIgnored(bytes: seq<byte>, b: byte)
    requires |bytes| % 2 == 0
    ensures ChunkTemperatures(bytes + [b]) == ChunkTemperatures(bytes)
  {
    var longer := bytes + [b];
    assert |longer| / 2 == |bytes| / 2;
    if |bytes| / 2 <= 256 {
      ChunkValues(bytes);
      ChunkValues(longer);
      forall i | 0 <= i < |bytes| / 2
        ensures longer[2 * i..2 * i + 2] == bytes[2 * i..2 * i + 2]
      {
      }
      assert ChunkTemperatures(longer).value == ChunkTemperatures(bytes).value;
    }
  }

  /**
   * Appends one sample at `ts` to the series of every key in `keys`, taking
   * the value from `temps` and creating new series as needed.
   */
  function RecordKeys(acc: map<int, seq<Sample>>, temps: map<int, real>, ts: int, keys: set<int>): (r: map<int, seq<Sample>>)
    requires keys <= temps.Keys
    ensures r.Keys == acc.Keys + keys
  {
    map a | a in acc.Keys + keys ::
      (if a in acc then acc[a] else []) + (if a in keys then [Sample(ts, temps[a])] else [])
  }

  /** One reading added to the result: every key of `temps` gains a sample. */
  function Record(acc: map<int, seq<Sample>>, temps: map<int, real>, ts: int): (r: map<int, seq<Sample>>)
    ensures r.Keys == acc.Keys + temps.Keys
  {
    RecordKeys(acc, temps, ts, temps.Keys)
  }

  /** Recording no key changes nothing. */
  lemma RecordKeysNone(acc: map<int, seq<Sample>>, temps: map<int, real>, ts: int)
    ensures RecordKeys(acc, temps, ts, {}) == acc
  {
    var r := RecordKeys(acc, temps, ts, {});
    forall a | a in acc
      ensures r[a] == acc[a]
    {
      assert r[a] == acc[a] + [];
    }
  }

  /** Adding one more key: its series (new or existing) gains the sample, the others stay. */
  lemma RecordKeysStep(acc: map<int, seq<Sample>>, temps: map<int, real>, ts: int, keys: set<int>, a: int)
    requires keys <= temps.Keys && a in temps && a !in keys
    ensures var r := RecordKeys(acc, temps, ts, keys);
      RecordKeys(acc, temps, ts, keys + {a}) == r[a := (if a in r then r[a] else []) + [Sample(ts, temps[a])]]
  {
    var r := RecordKeys(acc, temps, ts, keys);
    var r' := RecordKeys(acc, temps, ts, keys + {a});
    var expected := r[a := (if a in r then r[a] else []) + [Sample(ts, temps[a])]];
    assert r'.Keys == expected.Keys;
    forall b | b in r'
      ensures r'[b] == expected[b]
    {
    }
  }

  /** The broadcast frame line mode sends for a list of addresses. */
  function LineModeRequest(addresses: seq<byte>): seq<byte>
    requires |addresses| > 0
  {
    ReadFrame(0, ReadTemperatureLineMode, LineModeSuffix(addresses))
  }

  /**
   * The loop of MonitorTemperatureLineMode from stopwatch reading j and
   * exchange k on. Each exchange reads two bytes per listed address with one
   * broadcast frame; a complete reply is split by key and each temperature is
   * appended to its address's series under the next reading.
   */
  function LineModeRun(list: Option<seq<byte>>, durationMs: int, clock: Clock, script: Script, j: nat, k: nat,
                       acc: map<int, seq<Sample>>, buffer: seq<byte>): Session<Result<map<int, seq<Sample>>, MonitorError>>
    requires Increasing(clock)
    decreases durationMs - clock(j)
  {
    if clock(j) >= durationMs then Session(Success(acc), k, buffer)
    else if list.None? then Session(Failure(NullAddressList), k, buffer)
    else
      var reply := Reply(script(k), ToShort(2 * |list.value|), ReplyBudget);
      if |reply| == ToShort(2 * |list.value|) then
        match ChunkTemperatures(reply)
        case None => Session(Failure(DuplicateAddressKey), k + 1, reply)
        case Some(temps) =>
          LineModeRun(list, durationMs, clock, script, j + 2, k + 1, Record(acc, temps, clock(j + 1)), reply)
      else
        LineModeRun(list, durationMs, clock, script, j + 1, k + 1, acc, reply)
  }

  /** All series of a line-mode result carry the same timestamps. */
  predicate SameTimes(m: map<int, seq<Sample>>)
  {
    forall a, b :: a in m && b in m ==> Times(m[a]) == Times(m[b])
  }

  /** Every series is chronological, in range, and sampled before `t`. */
  predicate SeriesBefore(m: map<int, seq<Sample>>, t: int)
  {
    forall a :: a in m ==> Chronological(m[a]) && InRange(m[a]) && Before(m[a], t)
  }

  /** Appending a sample taken after a series keeps it chronological and in range. */
  lemma AppendSample(s: seq<Sample>, ts: int, v: real)
    requires Chronological(s) && InRange(s) && Before(s, ts)
    requires -100.0 <= v <= 6453.5
    ensures var s' := s + [Sample(ts, v)];
      Chronological(s') && InRange(s') && Before(s', ts + 1) && Times(s') == Times(s) + [ts]
  {
    assert (s + [Sample(ts, v)])[..|s|] == s;
  }

  /** The series of a key the reading covers gains one sample at `ts`. */
  lemma RecordSeries(acc: map<int, seq<Sample>>, temps: map<int, real>, ts: int, a: int)
    requires a in temps && -100.0 <= temps[a] <= 6453.5
    requires SeriesBefore(acc, ts)
    ensures var s := Record(acc, temps, ts)[a];
      && Times(s) == (if a in acc then Times(acc[a]) else []) + [ts]
      && Chronological(s) && InRange(s) && Before(s, ts + 1)
  {
    var s := if a in acc then acc[a] else [];
    assert Record(acc, temps, ts)[a] == s + [Sample(ts, temps[a])];
    AppendSample(s, ts, temps[a]);
  }

  /** One complete reading of the addresses `keys` keeps the result aligned. */
  lemma RecordAligned(acc: map<int, seq<Sample>>, temps: map<int, real>, keys: set<int>, ts: int)
    requires acc == map[] || acc.Keys == keys
    requires temps.Keys == keys
    requires SameTimes(acc) && SeriesBefore(acc, ts)
    requires forall a :: a in temps ==> -100.0 <= temps[a] <= 6453.5
    ensures var r := Record(acc, temps, ts);
      r.Keys == keys && SameTimes(r) && SeriesBefore(r, ts + 1)
  {
    var r := Record(acc, temps, ts);
    forall a | a in r
      ensures Chronological(r[a]) && InRange(r[a]) && Before(r[a], ts + 1)
    {
      RecordSeries(acc, temps, ts, a);
    }
    assert acc.Keys <= keys;
    assert r.Keys == keys;
    forall a, b | a in r && b in r
      ensures Times(r[a]) == Times(r[b])
    {
      RecordSeries(acc, temps, ts, a);
      RecordSeries(acc, temps, ts, b);
      if acc == map[] {
        assert a !in acc && b !in acc;
      } else {
        assert Times(acc[a]) == Times(acc[b]);
      }
    }
  }

  /**
   * With a list of at most 255 addresses, line mode never fails, and each
   * successful reading adds one sample to every address 1..|list|, all under
   * the same timestamp: the series stay aligned and chronological.
   */
  lemma {:induction false} LineModeAligned(list: seq<byte>, durationMs: int, clock: Clock, script: Script, j: nat, k: nat,
                                           acc: map<int, seq<Sample>>, buffer: seq<byte>)
    requires Increasing(clock)
    requires 0 < |list| <= 255
    requires acc == map[] || acc.Keys == ChunkKeys(|list|)
    requires SameTimes(acc) && SeriesBefore(acc, clock(j))
    ensures var r := LineModeRun(Some(list), durationMs, clock, script, j, k, acc, buffer).result;
      && r.Success?
      && (r.value == map[] || r.value.Keys == ChunkKeys(|list|))
      && SameTimes(r.value)
      && forall a :: a in r.value ==> Chronological(r.value[a]) && InRange(r.value[a])
    decreases durationMs - clock(j)
  {
    if clock(j) < durationMs {
      var n := ToShort(2 * |list|);
      assert n == 2 * |list|;
      var reply := Reply(script(k), n, ReplyBudget);
      if |reply| == n {
        ChunkValues(reply);
        var temps := ChunkTemperatures(reply).value;
        assert clock(j) < clock(j + 1) < clock(j + 2);
        RecordAligned(acc, temps, ChunkKeys(|list|), clock(j + 1));
        var acc' := Record(acc, temps, clock(j + 1));
        assert SeriesBefore(acc', clock(j + 2));
        LineModeAligned(list, durationMs, clock, script, j + 2, k + 1, acc', reply);
      } else {
        assert clock(j) < clock(j + 1);
        LineModeAligned(list, durationMs, clock, script, j + 1, k + 1, acc, reply);
      }
    } else {
      assert SeriesBefore(acc, clock(j));
    }
  }

  /**
   * Line mode counts its exchanges, never drops an address's series, and
   * fails with the missing-list error exactly when there is no list.
   */
  lemma {:induction false} LineModeOutcome(list: Option<seq<byte>>, durationMs: int, clock: Clock, script: Script,
                                           j: nat, k: nat, acc: map<int, seq<Sample>>, buffer: seq<byte>)
    requires Increasing(clock)
    ensures var r := LineModeRun(list, durationMs, clock, script, j, k, acc, buffer);
      && k <= r.exchanges
      && (r.result.Success? ==> acc.Keys <= r.result.value.Keys)
      && (r.result.Failure? ==> (r.result.error == NullAddressList <==> list.None?))
    decreases durationMs - clock(j)
  {
    if clock(j) < durationMs && list.Some? {
      var n := ToShort(2 * |list.value|);
      var reply := Reply(script(k), n, ReplyBudget);
      if |reply| == n {
        if ChunkTemperatures(reply).Some? {
          var temps := ChunkTemperatures(reply).value;
          assert clock(j) < clock(j + 2);
          LineModeOutcome(list, durationMs, clock, script, j + 2, k + 1, Record(acc, temps, clock(j + 1)), reply);
        }
      } else {
        assert clock(j) < clock(j + 1);
        LineModeOutcome(list, durationMs, clock, script, j + 1, k + 1, acc, reply);
      }
    }
  }

  /** With an address list, when no exchange gets a complete reply, nothing is measured. */
  lemma {:induction false} LineModeSilent(list: seq<byte>, durationMs: int, clock: Clock, script: Script, j: nat, k: nat,
                                          acc: map<int, seq<Sample>>, buffer: seq<byte>)
    requires Increasing(clock)
    requires forall e: nat :: k <= e ==> !Succeeds(script(e), ToShort(2 * |list|), ReplyBudget)
    ensures LineModeRun(Some(list), durationMs, clock, script, j, k, acc, buffer).result == Success(acc)
    decreases durationMs - clock(j)
  {
    if clock(j) < durationMs {
      var n := ToShort(2 * |list|);
      assert !Succeeds(script(k), n, ReplyBudget);
      assert clock(j) < clock(j + 1);
      LineModeSilent(list, durationMs, clock, script, j + 1, k + 1, acc, Reply(script(k), n, ReplyBudget));
    }
  }

  /**
   * From 16384 to 32767 listed addresses the `(short)` byte count wraps to a
   * negative number, no buffer has that length, and line mode measures nothing.
   */
  lemma WrappedCountSilent(list: seq<byte>, durationMs: int, clock: Clock, script: Script, j: nat, k: nat,
                           acc: map<int, seq<Sample>>, buffer: seq<byte>)
    requires Increasing(clock)
    requires 0x4000 <= |list| < 0x8000
    ensures ToShort(2 * |list|) < 0
    ensures LineModeRun(Some(list), durationMs, clock, script, j, k, acc, buffer).result == Success(acc)
  {
    assert ToShort(2 * |list|) == 2 * |list| - 0x1_0000;
    LineModeSilent(list, durationMs, clock, script, j, k, acc, buffer);
  }

  /** On an instance without a list, line mode fails exactly when the loop body runs. */
  lemma NullListFails(durationMs: int, clock: Clock, script: Script, j: nat, k: nat,
                      acc: map<int, seq<Sample>>, buffer: seq<byte>)
    requires Increasing(clock)
    ensures var s := LineModeRun(None, durationMs, clock, script, j, k, acc, buffer);
      && (s.result == Failure(NullAddressList) <==> clock(j) < durationMs)
      && s.exchanges == k
  {
  }

  /**
   * More than 256 listed addresses: the first complete reply overflows the
   * byte key and the loop ends with the duplicate-key failure.
   */
  lemma OverlongListFails(list: seq<byte>, durationMs: int, clock: Clock, script: Script, j: nat, k: nat,
                          acc: map<int, seq<Sample>>, buffer: seq<byte>)
    requires Increasing(clock)
    requires 256 < |list| < 0x4000
    requires clock(j) < durationMs
    requires Succeeds(script(k), 2 * |list|, ReplyBudget)
    ensures LineModeRun(Some(list), durationMs, clock, script, j, k, acc, buffer).result == Failure(DuplicateAddressKey)
  {
    assert ToShort(2 * |list|) == 2 * |list|;
  }
}
