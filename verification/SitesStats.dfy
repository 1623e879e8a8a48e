/** Size histograms of all traffic and of each application (exporters/sites_stats.go). */
module SitesStats {
  import opened Basics

  datatype Reply = Reply(bodySize: nat, headersSize: nat)
  datatype Exchange = Exchange(bodySize: nat, headersSize: nat, response: Option<Reply>) {
    function RequestSize(): nat {
      bodySize + headersSize
    }

    function ResponseSize(): nat
      requires response.Some?
    {
      response.value.bodySize + response.value.headersSize
    }

    function TransactionSize(): nat {
      RequestSize() + if response.Some? then ResponseSize() else 0
    }
  }

  /** A bucket, named by its upper bound. */
  datatype Bucket = UpTo(bound: nat)

  const BUCKETS: seq<Bucket> := [
    UpTo(1024), UpTo(5 * 1024), UpTo(50 * 1024), UpTo(100 * 1024), UpTo(256 * 1024),
    UpTo(1024 * 1024), UpTo(5 * 1024 * 1024), UpTo(10 * 1024 * 1024), UpTo(10024 * 1024 * 1024)]

  datatype SizesStats = SizesStats(counts: map<Bucket, nat>, min: Option<int>, max: Option<int>) {
    function Count(b: Bucket): nat {
      if b in counts then counts[b] else 0
    }
  }

  datatype SingleSiteStats = SingleSiteStats(
    totalSize: nat, totalTransactions: nat,
    requests: SizesStats, responses: SizesStats, transactions: SizesStats,
    requestsWithoutResponse: nat)

  const NO_SIZES := SizesStats(map[], None, None)
  const NO_STATS := SingleSiteStats(0, 0, NO_SIZES, NO_SIZES, NO_SIZES, 0)

  /** The first bucket from index `i` on whose bound the size does not exceed. */
  function BucketFrom(size: nat, i: nat): (b: Option<Bucket>)
    requires i <= |BUCKETS|
    ensures b.Some? ==> size <= b.value.bound
    decreases |BUCKETS| - i
  {
    if i == |BUCKETS| then None
    else if size <= BUCKETS[i].bound then Some(BUCKETS[i])
    else BucketFrom(size, i + 1)
  }

  function Least(a: Option<int>, b: Option<int>): Option<int> {
    if a.None? then b else if b.None? || a.value <= b.value then a else b
  }

  function Greatest(a: Option<int>, b: Option<int>): Option<int> {
    if a.None? then b else if b.None? || a.value >= b.value then a else b
  }

  function Note(s: SizesStats, size: nat): SizesStats {
    var noted := s.(min := Least(s.min, Some(size)), max := Greatest(s.max, Some(size)));
    match BucketFrom(size, 0)
    case None => noted
    case Some(b) => noted.(counts := s.counts[b := s.Count(b) + 1])
  }

  function NoteExchange(s: SingleSiteStats, e: Exchange): SingleSiteStats {
    var s := s.(requests := Note(s.requests, e.RequestSize()),
                transactions := Note(s.transactions, e.TransactionSize()));
    if e.response.Some? then s.(responses := Note(s.responses, e.ResponseSize()))
    else s.(requestsWithoutResponse := s.requestsWithoutResponse + 1)
  }

  function NoteAll(s: SingleSiteStats, entries: seq<Exchange>): SingleSiteStats {
    if entries == [] then s
    else NoteExchange(NoteAll(s, entries[..|entries| - 1]), entries[|entries| - 1])
  }

  /** A file of `dataLen` marshalled bytes. */
  function Record(s: SingleSiteStats, dataLen: nat, entries: seq<Exchange>): SingleSiteStats {
    NoteAll(s.(totalSize := s.totalSize + dataLen, totalTransactions := s.totalTransactions + |entries|), entries)
  }

  datatype Stats = Stats(total: SingleSiteStats, hosts: map<string, SingleSiteStats>)

  datatype File = File(app: string, dataLen: nat, entries: seq<Exchange>)

  function Get(hosts: map<string, SingleSiteStats>, app: string): SingleSiteStats {
    if app in hosts then hosts[app] else NO_STATS
  }

  /** Both levels, with splitting by application on. */
  function Step(s: Stats, f: File): Stats {
    Stats(Record(s.total, f.dataLen, f.entries),
          s.hosts[f.app := Record(Get(s.hosts, f.app), f.dataLen, f.entries)])
  }

  function Run(s: Stats, files: seq<File>): Stats
    decreases |files|
  {
    if files == [] then s else Run(Step(s, files[0]), files[1..])
  }

  // ---- The processor

  class SitesStats {
    var totalStats: SingleSiteStats
    var hostsStats: map<string, SingleSiteStats>
    const splitByAppId: bool

    constructor (splitByAppId: bool)
      ensures totalStats == NO_STATS && hostsStats == map[] && this.splitByAppId == splitByAppId
    {
      this.splitByAppId := splitByAppId;
      totalStats, hostsStats := NO_STATS, map[];
    }

    /** `dataLen` is the length of the marshalled file, or none if marshalling fails; `appId` is
        read off the first entry. */
    method Process(appId: string, entries: seq<Exchange>, dataLen: Option<nat>) returns (ok: bool)
      requires splitByAppId ==> entries != []
      modifies this
      ensures ok == dataLen.Some?
      ensures !ok ==> totalStats == old(totalStats) && hostsStats == old(hostsStats)
      ensures ok && splitByAppId ==>
                Stats(totalStats, hostsStats) ==
                Step(old(Stats(totalStats, hostsStats)), File(appId, dataLen.value, entries))
      ensures ok && !splitByAppId ==>
                hostsStats == old(hostsStats) && totalStats == Record(old(totalStats), dataLen.value, entries)
    {
      if dataLen.None? {
        return false;
      }
      totalStats := totalStats.(totalSize := totalStats.totalSize + dataLen.value,
                                totalTransactions := totalStats.totalTransactions + |entries|);
      totalStats := UpdateSizesStats(totalStats, entries);
      if splitByAppId {
        var appIdStats := if appId in hostsStats then hostsStats[appId] else NO_STATS;
        appIdStats := appIdStats.(totalSize := appIdStats.totalSize + dataLen.value,
                                  totalTransactions := appIdStats.totalTransactions + |entries|);
        appIdStats := UpdateSizesStats(appIdStats, entries);
        hostsStats := hostsStats[appId := appIdStats];
      }
      return true;
    }
  }

  method UpdateSizesStats(stats: SingleSiteStats, entries: seq<Exchange>) returns (s: SingleSiteStats)
    ensures s == NoteAll(stats, entries)
  {
    hide Note;
    s := stats;
    var i := 0;
    while i < |entries|
      invariant 0 <= i <= |entries| && s == NoteAll(stats, entries[..i])
    {
      assert entries[..i + 1][..i] == entries[..i];
      assert NoteAll(stats, entries[..i + 1]) == NoteExchange(s, entries[i]);
      var entry := entries[i];
      var requestSize := entry.bodySize + entry.headersSize;
      var requests := UpdateSizesStatsSingle(s.requests, requestSize);
      s := s.(requests := requests);
      if entry.response.Some? {
        var responseSize := entry.response.value.bodySize + entry.response.value.headersSize;
        var responses := UpdateSizesStatsSingle(s.responses, responseSize);
        var transactions := UpdateSizesStatsSingle(s.transactions, requestSize + responseSize);
        s := s.(responses := responses, transactions := transactions);
      } else {
        var transactions := UpdateSizesStatsSingle(s.transactions, requestSize);
        s := s.(transactions := transactions, requestsWithoutResponse := s.requestsWithoutResponse + 1);
      }
      i := i + 1;
    }
    assert entries[..i] == entries;
  }

  method UpdateSizesStatsSingle(stats: SizesStats, size: nat) returns (s: SizesStats)
    ensures s == Note(stats, size)
  {
    s := stats;
    if s.min.None? || size < s.min.value {
      s := s.(min := Some(size));
    }
    if s.max.None? || size > s.max.value {
      s := s.(max := Some(size));
    }
    var i := 0;
    while i < |BUCKETS|
      invariant 0 <= i <= |BUCKETS| && BucketFrom(size, 0) == BucketFrom(size, i)
    {
      var bucket := BUCKETS[i];
      if size <= bucket.bound {
        s := s.(counts := s.counts[bucket := s.Count(bucket) + 1]);
        return;
      }
      i := i + 1;
    }
  }

  // ---- What a bucket holds

  lemma {:induction false} BucketsIncrease()
    ensures forall i, j :: 0 <= i < j < |BUCKETS| ==> BUCKETS[i].bound < BUCKETS[j].bound
  {
  }

  /** From index `i` on, a size falls into the bucket at `j` exactly when it lies above the
      previous bound and not above its own. */
  lemma {:induction false} BucketHolds(size: nat, i: nat, j: nat)
    requires i <= j < |BUCKETS| && (i == 0 || BUCKETS[i - 1].bound < size)
    ensures BucketFrom(size, i) == Some(BUCKETS[j]) <==>
            (j == 0 || BUCKETS[j - 1].bound < size) && size <= BUCKETS[j].bound
    decreases j - i
  {
    BucketsIncrease();
    if i < j {
      assert BUCKETS[i].bound < BUCKETS[j].bound && BUCKETS[i].bound <= BUCKETS[j - 1].bound;
    }
    if BUCKETS[i].bound < size && i < j {
      BucketHolds(size, i + 1, j);
    }
  }

  lemma {:induction false} NoBucketBeyond(size: nat, i: nat)
    requires i <= |BUCKETS|
    ensures BucketFrom(size, i).None? <==> forall j :: i <= j < |BUCKETS| ==> BUCKETS[j].bound < size
    decreases |BUCKETS| - i
  {
    if i < |BUCKETS| && BUCKETS[i].bound < size {
      NoBucketBeyond(size, i + 1);
    }
  }

  // ---- The two levels agree

  /** Every quantity that adds up over files. */
  datatype Metric =
    | TotalSize
    | Transactions
    | NoResponse
    | RequestsIn(b: Bucket)
    | ResponsesIn(b: Bucket)
    | TransactionsIn(b: Bucket)

  function Value(s: SingleSiteStats, m: Metric): nat {
    match m
    case TotalSize => s.totalSize
    case Transactions => s.totalTransactions
    case NoResponse => s.requestsWithoutResponse
    case RequestsIn(b) => s.requests.Count(b)
    case ResponsesIn(b) => s.responses.Count(b)
    case TransactionsIn(b) => s.transactions.Count(b)
  }

  function InBucket(size: nat, b: Bucket): nat {
    if BucketFrom(size, 0) == Some(b) then 1 else 0
  }

  /** What one exchange contributes. */
  function Weight(e: Exchange, m: Metric): nat {
    match m
    case TotalSize => 0
    case Transactions => 0
    case NoResponse => if e.response.None? then 1 else 0
    case RequestsIn(b) => InBucket(e.RequestSize(), b)
    case ResponsesIn(b) => if e.response.Some? then InBucket(e.ResponseSize(), b) else 0
    case TransactionsIn(b) => InBucket(e.TransactionSize(), b)
  }

  function Gain(entries: seq<Exchange>, m: Metric): nat {
    if entries == [] then 0 else Gain(entries[..|entries| - 1], m) + Weight(entries[|entries| - 1], m)
  }

  function FileGain(f: File, m: Metric): nat {
    match m
    case TotalSize => f.dataLen
    case Transactions => |f.entries|
    case _ => Gain(f.entries, m)
  }

  lemma {:induction false} NoteAllGains(s: SingleSiteStats, entries: seq<Exchange>, m: Metric)
    ensures Value(NoteAll(s, entries), m) == Value(s, m) + Gain(entries, m)
  {
    if entries != [] {
      NoteAllGains(s, entries[..|entries| - 1], m);
      NoteExchangeGains(NoteAll(s, entries[..|entries| - 1]), entries[|entries| - 1], m);
    }
  }

  lemma {:induction false} NoteExchangeGains(s: SingleSiteStats, e: Exchange, m: Metric)
    ensures Value(NoteExchange(s, e), m) == Value(s, m) + Weight(e, m)
  {
    NoteGains(s.requests, e.RequestSize());
    NoteGains(s.transactions, e.TransactionSize());
    if e.response.Some? {
      NoteGains(s.responses, e.ResponseSize());
    }
  }

  lemma {:induction false} NoteGains(s: SizesStats, size: nat)
    ensures forall b :: Note(s, size).Count(b) == s.Count(b) + InBucket(size, b)
  {
  }

  lemma {:induction false} PlainGain(entries: seq<Exchange>, m: Metric)
    requires m.TotalSize? || m.Transactions?
    ensures Gain(entries, m) == 0
  {
    if entries != [] {
      PlainGain(entries[..|entries| - 1], m);
    }
  }

  /** A file adds the same to a record whatever the record already holds. */
  lemma {:induction false} RecordGains(s: SingleSiteStats, f: File, m: Metric)
    ensures Value(Record(s, f.dataLen, f.entries), m) == Value(s, m) + FileGain(f, m)
  {
    var started := s.(totalSize := s.totalSize + f.dataLen, totalTransactions := s.totalTransactions + |f.entries|);
    NoteAllGains(started, f.entries, m);
    if m.TotalSize? || m.Transactions? {
      PlainGain(f.entries, m);
    }
  }

  ghost function Sum(hosts: map<string, SingleSiteStats>, m: Metric): nat {
    if hosts == map[] then 0 else
      var app :| app in hosts;
      Value(hosts[app], m) + Sum(hosts - {app}, m)
  }

  lemma {:induction false} SumWithout(hosts: map<string, SingleSiteStats>, m: Metric, app: string)
    requires app in hosts
    ensures Sum(hosts, m) == Value(hosts[app], m) + Sum(hosts - {app}, m)
    decreases |hosts|
  {
    var first :| first in hosts && Sum(hosts, m) == Value(hosts[first], m) + Sum(hosts - {first}, m);
    if first != app {
      SumWithout(hosts - {first}, m, app);
      SumWithout(hosts - {app}, m, first);
      assert hosts - {first} - {app} == hosts - {app} - {first};
    }
  }

  lemma {:induction false} SumAfterUpdate(hosts: map<string, SingleSiteStats>, m: Metric, app: string,
                                          s: SingleSiteStats)
    ensures Sum(hosts[app := s], m) + Value(Get(hosts, app), m) == Sum(hosts, m) + Value(s, m)
  {
    var updated := hosts[app := s];
    SumWithout(updated, m, app);
    assert updated - {app} == hosts - {app};
    if app in hosts {
      SumWithout(hosts, m, app);
    } else {
      assert hosts - {app} == hosts;
    }
  }

  /** After any run, each total, each bucket count and the count of unanswered requests of the
      summary is the sum over the applications. */
  lemma {:induction false} LevelsAgree(s: Stats, files: seq<File>, m: Metric)
    requires Value(s.total, m) == Sum(s.hosts, m)
    ensures var t := Run(s, files); Value(t.total, m) == Sum(t.hosts, m)
    decreases |files|
  {
    if files != [] {
      var f := files[0];
      RecordGains(s.total, f, m);
      RecordGains(Get(s.hosts, f.app), f, m);
      SumAfterUpdate(s.hosts, m, f.app, Record(Get(s.hosts, f.app), f.dataLen, f.entries));
      LevelsAgree(Step(s, f), files[1..], m);
    }
  }

  // ---- Smallest and largest

  datatype Kind = Request | Response | Transaction

  function Sizes(s: SingleSiteStats, k: Kind): SizesStats {
    match k
    case Request => s.requests
    case Response => s.responses
    case Transaction => s.transactions
  }

  function Mins(hosts: map<string, SingleSiteStats>, k: Kind): map<string, Option<int>> {
    map app | app in hosts :: Sizes(hosts[app], k).min
  }

  function Maxs(hosts: map<string, SingleSiteStats>, k: Kind): map<string, Option<int>> {
    map app | app in hosts :: Sizes(hosts[app], k).max
  }

  /** `lo` bounds every value from below and is one of them, unless there is none. */
  ghost predicate IsLeast(lo: Option<int>, values: map<string, Option<int>>) {
    && (forall app :: app in values && values[app].Some? ==> lo.Some? && lo.value <= values[app].value)
    && (lo.Some? ==> exists app :: app in values && values[app] == lo)
  }

  ghost predicate IsGreatest(hi: Option<int>, values: map<string, Option<int>>) {
    && (forall app :: app in values && values[app].Some? ==> hi.Some? && values[app].value <= hi.value)
    && (hi.Some? ==> exists app :: app in values && values[app] == hi)
  }

  /** The summary's extremes are those over all applications. */
  ghost predicate ExtremesAgree(s: Stats, k: Kind) {
    IsLeast(Sizes(s.total, k).min, Mins(s.hosts, k)) && IsGreatest(Sizes(s.total, k).max, Maxs(s.hosts, k))
  }

  lemma {:induction false} LeastAfterUpdate(lo: Option<int>, values: map<string, Option<int>>, app: string,
                                            d: Option<int>)
    requires IsLeast(lo, values)
    ensures var own := if app in values then values[app] else None;
            IsLeast(Least(lo, d), values[app := Least(own, d)])
  {
    var own := if app in values then values[app] else None;
    var updated := values[app := Least(own, d)];
    if lo.Some? && Least(lo, d) == lo {
      var at :| at in values && values[at] == lo;
      assert at in updated && updated[at] == lo;
    } else {
      assert app in updated && updated[app] == Least(own, d);
    }
  }

  lemma {:induction false} GreatestAfterUpdate(hi: Option<int>, values: map<string, Option<int>>, app: string,
                                               d: Option<int>)
    requires IsGreatest(hi, values)
    ensures var own := if app in values then values[app] else None;
            IsGreatest(Greatest(hi, d), values[app := Greatest(own, d)])
  {
    var own := if app in values then values[app] else None;
    var updated := values[app := Greatest(own, d)];
    if hi.Some? && Greatest(hi, d) == hi {
      var at :| at in values && values[at] == hi;
      assert at in updated && updated[at] == hi;
    } else {
      assert app in updated && updated[app] == Greatest(own, d);
    }
  }

  /** The extremes of the entries alone. */
  function Extremes(entries: seq<Exchange>, k: Kind): SizesStats {
    Sizes(NoteAll(NO_STATS, entries), k)
  }

  lemma {:induction false} NoteAllExtremes(s: SingleSiteStats, entries: seq<Exchange>, k: Kind)
    ensures Joined(Sizes(NoteAll(s, entries), k), Sizes(s, k), Extremes(entries, k))
  {
    if entries != [] {
      var init, last := entries[..|entries| - 1], entries[|entries| - 1];
      NoteAllExtremes(s, init, k);
      hide Note, Joined, NoteExchange;
      NoteExchangeExtremes(NoteAll(s, init), NoteAll(NO_STATS, init), Sizes(s, k), last, k);
    }
  }

  predicate Joined(t: SizesStats, from: SizesStats, own: SizesStats) {
    t.min == Least(from.min, own.min) && t.max == Greatest(from.max, own.max)
  }

  lemma {:induction false} NoteJoins(t: SizesStats, from: SizesStats, own: SizesStats, size: nat)
    requires Joined(t, from, own)
    ensures Joined(Note(t, size), from, Note(own, size))
  {
  }

  lemma {:induction false} NoteExchangeExtremes(s: SingleSiteStats, t: SingleSiteStats, from: SizesStats,
                                                e: Exchange, k: Kind)
    requires Joined(Sizes(s, k), from, Sizes(t, k))
    ensures Joined(Sizes(NoteExchange(s, e), k), from, Sizes(NoteExchange(t, e), k))
  {
    hide Note, Joined;
    NoteJoins(Sizes(s, k), from, Sizes(t, k), e.RequestSize());
    NoteJoins(Sizes(s, k), from, Sizes(t, k), e.TransactionSize());
    if e.response.Some? {
      NoteJoins(Sizes(s, k), from, Sizes(t, k), e.ResponseSize());
    }
  }

  lemma {:induction false} StepKeepsExtremes(s: Stats, f: File, k: Kind)
    requires ExtremesAgree(s, k)
    ensures ExtremesAgree(Step(s, f), k)
  {
    var d := Extremes(f.entries, k);
    var own := Get(s.hosts, f.app);
    RecordExtremes(s.total, f, k);
    RecordExtremes(own, f, k);
    LeastAfterUpdate(Sizes(s.total, k).min, Mins(s.hosts, k), f.app, d.min);
    GreatestAfterUpdate(Sizes(s.total, k).max, Maxs(s.hosts, k), f.app, d.max);
    UpdateCommutes(s.hosts, f.app, Record(own, f.dataLen, f.entries), k);
    hide Record, IsLeast, IsGreatest, Least, Greatest, Extremes, Mins, Maxs;
  }

  lemma {:induction false} RecordExtremes(s: SingleSiteStats, f: File, k: Kind)
    ensures var r, d := Sizes(Record(s, f.dataLen, f.entries), k), Extremes(f.entries, k);
            r.min == Least(Sizes(s, k).min, d.min) && r.max == Greatest(Sizes(s, k).max, d.max)
  {
    NoteAllExtremes(s.(totalSize := s.totalSize + f.dataLen,
                       totalTransactions := s.totalTransactions + |f.entries|), f.entries, k);
  }

  lemma {:induction false} UpdateCommutes(hosts: map<string, SingleSiteStats>, app: string, s: SingleSiteStats, k: Kind)
    ensures Mins(hosts[app := s], k) == Mins(hosts, k)[app := Sizes(s, k).min]
    ensures Maxs(hosts[app := s], k) == Maxs(hosts, k)[app := Sizes(s, k).max]
    ensures (if app in Mins(hosts, k) then Mins(hosts, k)[app] else None) == Sizes(Get(hosts, app), k).min
    ensures (if app in Maxs(hosts, k) then Maxs(hosts, k)[app] else None) == Sizes(Get(hosts, app), k).max
  {
  }

  lemma {:induction false} ExtremesStayAgreed(s: Stats, files: seq<File>, k: Kind)
    requires ExtremesAgree(s, k)
    ensures ExtremesAgree(Run(s, files), k)
    decreases |files|
  {
    if files != [] {
      StepKeepsExtremes(s, files[0], k);
      ExtremesStayAgreed(Step(s, files[0]), files[1..], k);
    }
  }

  // ---- The buckets account for the requests

  function BucketSum(s: SingleSiteStats, n: nat): nat
    requires n <= |BUCKETS|
  {
    if n == 0 then 0 else BucketSum(s, n - 1) + Value(s, RequestsIn(BUCKETS[n - 1]))
  }

  /** Requests too large for every bucket. */
  function Oversized(files: seq<File>): nat {
    if files == [] then 0 else OversizedIn(files[0].entries) + Oversized(files[1..])
  }

  function OversizedIn(entries: seq<Exchange>): nat {
    if entries == [] then 0
    else OversizedIn(entries[..|entries| - 1])
         + if entries[|entries| - 1].RequestSize() > BUCKETS[|BUCKETS| - 1].bound then 1 else 0
  }

  function WeightSum(e: Exchange, n: nat): nat
    requires n <= |BUCKETS|
  {
    if n == 0 then 0 else WeightSum(e, n - 1) + Weight(e, RequestsIn(BUCKETS[n - 1]))
  }

  lemma {:induction false} WeightSumIs(e: Exchange, n: nat)
    requires n <= |BUCKETS|
    ensures WeightSum(e, n) == if n > 0 && e.RequestSize() <= BUCKETS[n - 1].bound then 1 else 0
  {
    if n > 0 {
      WeightSumIs(e, n - 1);
      BucketHolds(e.RequestSize(), 0, n - 1);
    }
  }

  lemma {:induction false} BucketSumAfterExchange(s: SingleSiteStats, e: Exchange, n: nat)
    requires n <= |BUCKETS|
    ensures BucketSum(NoteExchange(s, e), n) == BucketSum(s, n) + WeightSum(e, n)
  {
    if n > 0 {
      BucketSumAfterExchange(s, e, n - 1);
      NoteExchangeGains(s, e, RequestsIn(BUCKETS[n - 1]));
    }
  }

  lemma {:induction false} BucketSumAfterEntries(s: SingleSiteStats, entries: seq<Exchange>)
    ensures BucketSum(NoteAll(s, entries), |BUCKETS|) + OversizedIn(entries) == BucketSum(s, |BUCKETS|) + |entries|
  {
    if entries != [] {
      var last := entries[|entries| - 1];
      BucketSumAfterEntries(s, entries[..|entries| - 1]);
      BucketSumAfterExchange(NoteAll(s, entries[..|entries| - 1]), last, |BUCKETS|);
      WeightSumIs(last, |BUCKETS|);
    }
  }

  lemma {:induction false} BucketSumUnaffected(s: SingleSiteStats, t: SingleSiteStats, n: nat)
    requires n <= |BUCKETS| && s.requests == t.requests
    ensures BucketSum(s, n) == BucketSum(t, n)
  {
    if n > 0 {
      BucketSumUnaffected(s, t, n - 1);
    }
  }

  /** After any run, what the request buckets of the summary are short of the transactions has
      grown by the requests too large for every bucket; so, started even, the buckets sum up to
      the transactions exactly when no request of the run exceeds the last bucket. */
  lemma {:induction false} BucketsAccount(s: Stats, files: seq<File>)
    ensures var t := Run(s, files).total;
            && t.totalTransactions - BucketSum(t, |BUCKETS|) ==
               s.total.totalTransactions - BucketSum(s.total, |BUCKETS|) + Oversized(files)
            && (BucketSum(s.total, |BUCKETS|) == s.total.totalTransactions ==>
                  (BucketSum(t, |BUCKETS|) == t.totalTransactions <==> Oversized(files) == 0))
    decreases |files|
  {
    if files != [] {
      var f := files[0];
      var started := s.total.(totalSize := s.total.totalSize + f.dataLen,
                              totalTransactions := s.total.totalTransactions + |f.entries|);
      BucketSumUnaffected(s.total, started, |BUCKETS|);
      BucketSumAfterEntries(started, f.entries);
      RecordGains(s.total, f, Transactions);
      hide NoteAll, BucketSum, OversizedIn, Gain;
      BucketsAccount(Step(s, f), files[1..]);
    }
  }
}
