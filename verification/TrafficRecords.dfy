/** What the size statistics say about the files they were made from, in the exchanges' own body
    and header sizes (exporters/sites_stats.go). */
module TrafficRecords {
  import opened Basics
  import opened SitesStats

  /** The sizes of one kind an exchange has. */
  function SizesOf(e: Exchange, k: Kind): seq<nat> {
    match k
    case Request => [e.bodySize + e.headersSize]
    case Response =>
      (match e.response
       case Some(reply) => [reply.bodySize + reply.headersSize]
       case None => [])
    case Transaction =>
      match e.response
      case Some(reply) => [e.bodySize + e.headersSize + reply.bodySize + reply.headersSize]
      case None => [e.bodySize + e.headersSize]
  }

  function AllSizes(entries: seq<Exchange>, k: Kind): seq<nat> {
    if entries == [] then []
    else AllSizes(entries[..|entries| - 1], k) + SizesOf(entries[|entries| - 1], k)
  }

  /** How many of the sizes lie above one bound and not above another. */
  function HowMany(sizes: seq<nat>, above: int, upTo: int): nat {
    if sizes == [] then 0
    else HowMany(sizes[..|sizes| - 1], above, upTo) + if above < sizes[|sizes| - 1] <= upTo then 1 else 0
  }

  /** The record is about exactly these sizes: without any it has no minimum and no maximum,
      otherwise both are among the sizes and bound them all; and a bucket counts the sizes above
      the bound of the bucket before it and not above its own. */
  ghost predicate Describes(s: SizesStats, sizes: seq<nat>) {
    && (s.min.None? <==> sizes == []) && (s.max.None? <==> sizes == [])
    && (s.min.Some? ==>
          && (exists i :: 0 <= i < |sizes| && sizes[i] == s.min.value)
          && (forall i :: 0 <= i < |sizes| ==> s.min.value <= sizes[i]))
    && (s.max.Some? ==>
          && (exists i :: 0 <= i < |sizes| && sizes[i] == s.max.value)
          && (forall i :: 0 <= i < |sizes| ==> sizes[i] <= s.max.value))
    && forall j :: 0 <= j < |BUCKETS| ==> CountsBucket(s, sizes, j)
  }

  predicate CountsBucket(s: SizesStats, sizes: seq<nat>, j: nat)
    requires j < |BUCKETS|
  {
    s.Count(BUCKETS[j]) == HowMany(sizes, if j == 0 then -1 else BUCKETS[j - 1].bound, BUCKETS[j].bound)
  }

  function Unanswered(entries: seq<Exchange>): nat {
    if entries == [] then 0
    else Unanswered(entries[..|entries| - 1]) + if entries[|entries| - 1].response.None? then 1 else 0
  }

  ghost predicate Covers(r: SingleSiteStats, entries: seq<Exchange>) {
    && Describes(r.requests, AllSizes(entries, Request))
    && Describes(r.responses, AllSizes(entries, Response))
    && Describes(r.transactions, AllSizes(entries, Transaction))
    && r.requestsWithoutResponse == Unanswered(entries)
  }

  function Bytes(files: seq<File>): nat {
    if files == [] then 0 else Bytes(files[..|files| - 1]) + files[|files| - 1].dataLen
  }

  function Exchanges(files: seq<File>): seq<Exchange> {
    if files == [] then [] else Exchanges(files[..|files| - 1]) + files[|files| - 1].entries
  }

  function FilesOf(files: seq<File>, app: string): seq<File> {
    if files == [] then []
    else FilesOf(files[..|files| - 1], app) + if files[|files| - 1].app == app then [files[|files| - 1]] else []
  }

  /** A level of the statistics is about exactly these files. */
  ghost predicate IsRecordOf(r: SingleSiteStats, files: seq<File>) {
    && r.totalSize == Bytes(files) && r.totalTransactions == |Exchanges(files)|
    && Covers(r, Exchanges(files))
  }

  ghost predicate IsAccountOf(s: Stats, files: seq<File>) {
    && IsRecordOf(s.total, files)
    && (forall app :: app in s.hosts <==> FilesOf(files, app) != [])
    && (forall app :: app in s.hosts ==> IsRecordOf(s.hosts[app], FilesOf(files, app)))
  }

  // ---- One size more

  lemma {:induction false} HowManyLast(sizes: seq<nat>, size: nat, above: int, upTo: int)
    ensures HowMany(sizes + [size], above, upTo) ==
            HowMany(sizes, above, upTo) + if above < size <= upTo then 1 else 0
  {
    assert (sizes + [size])[..|sizes|] == sizes;
  }

  lemma {:induction false} NoteKeepsMin(s: SizesStats, sizes: seq<nat>, size: nat)
    requires Describes(s, sizes)
    ensures var (t, more) := (Note(s, size), sizes + [size]);
            && t.min.Some? && (exists i :: 0 <= i < |more| && more[i] == t.min.value)
            && (forall i :: 0 <= i < |more| ==> t.min.value <= more[i])
  {
    hide BucketFrom, CountsBucket;
    var t, more := Note(s, size), sizes + [size];
    if s.min.Some? && s.min.value <= size {
      var i :| 0 <= i < |sizes| && sizes[i] == s.min.value;
      assert more[i] == t.min.value;
    } else {
      assert more[|sizes|] == t.min.value;
    }
  }

  lemma {:induction false} NoteKeepsMax(s: SizesStats, sizes: seq<nat>, size: nat)
    requires Describes(s, sizes)
    ensures var (t, more) := (Note(s, size), sizes + [size]);
            && t.max.Some? && (exists i :: 0 <= i < |more| && more[i] == t.max.value)
            && (forall i :: 0 <= i < |more| ==> more[i] <= t.max.value)
  {
    hide BucketFrom, CountsBucket;
    var t, more := Note(s, size), sizes + [size];
    if s.max.Some? && s.max.value >= size {
      var i :| 0 <= i < |sizes| && sizes[i] == s.max.value;
      assert more[i] == t.max.value;
    } else {
      assert more[|sizes|] == t.max.value;
    }
  }

  lemma {:induction false} NoteKeepsBucket(s: SizesStats, sizes: seq<nat>, size: nat, j: nat)
    requires Describes(s, sizes) && j < |BUCKETS|
    ensures CountsBucket(Note(s, size), sizes + [size], j)
  {
    hide Note, HowMany, BucketFrom;
    assert CountsBucket(s, sizes, j);
    HowManyLast(sizes, size, if j == 0 then -1 else BUCKETS[j - 1].bound, BUCKETS[j].bound);
    NoteGains(s, size);
    BucketHolds(size, 0, j);
    assert Note(s, size).Count(BUCKETS[j]) == s.Count(BUCKETS[j]) + InBucket(size, BUCKETS[j]);
  }

  lemma {:induction false} NoteDescribes(s: SizesStats, sizes: seq<nat>, size: nat)
    requires Describes(s, sizes)
    ensures Describes(Note(s, size), sizes + [size])
  {
    NoteKeepsMin(s, sizes, size);
    NoteKeepsMax(s, sizes, size);
    hide Note, CountsBucket;
    forall j | 0 <= j < |BUCKETS| ensures CountsBucket(Note(s, size), sizes + [size], j) {
      NoteKeepsBucket(s, sizes, size, j);
    }
  }

  // ---- Exchanges and files more

  lemma {:induction false} AllSizesLast(entries: seq<Exchange>, e: Exchange, k: Kind)
    ensures AllSizes(entries + [e], k) == AllSizes(entries, k) + SizesOf(e, k)
  {
    assert (entries + [e])[..|entries|] == entries;
  }

  lemma {:induction false} NoteExchangeCovers(r: SingleSiteStats, entries: seq<Exchange>, e: Exchange)
    requires Covers(r, entries)
    ensures Covers(NoteExchange(r, e), entries + [e])
  {
    hide Describes, Note;
    NoteDescribes(r.requests, AllSizes(entries, Request), e.bodySize + e.headersSize);
    NoteDescribes(r.transactions, AllSizes(entries, Transaction), SizesOf(e, Transaction)[0]);
    if e.response.Some? {
      NoteDescribes(r.responses, AllSizes(entries, Response), SizesOf(e, Response)[0]);
    }
    CoversLast(entries, e);
    hide AllSizes, Unanswered;
  }

  lemma {:induction false} CoversLast(entries: seq<Exchange>, e: Exchange)
    ensures Unanswered(entries + [e]) == Unanswered(entries) + if e.response.None? then 1 else 0
    ensures AllSizes(entries + [e], Request) == AllSizes(entries, Request) + [e.bodySize + e.headersSize]
    ensures AllSizes(entries + [e], Transaction) == AllSizes(entries, Transaction) + SizesOf(e, Transaction)
    ensures e.response.None? ==> AllSizes(entries + [e], Response) == AllSizes(entries, Response)
    ensures e.response.Some? ==>
              AllSizes(entries + [e], Response) == AllSizes(entries, Response) + SizesOf(e, Response)
  {
    AllSizesLast(entries, e, Request);
    AllSizesLast(entries, e, Response);
    AllSizesLast(entries, e, Transaction);
    assert (entries + [e])[..|entries|] == entries;
  }

  lemma {:induction false} NoteAllCovers(r: SingleSiteStats, before: seq<Exchange>, entries: seq<Exchange>)
    requires Covers(r, before)
    ensures Covers(NoteAll(r, entries), before + entries)
  {
    if entries == [] {
      assert before + entries == before;
    } else {
      var init, last := entries[..|entries| - 1], entries[|entries| - 1];
      assert entries == init + [last];
      NoteAllCovers(r, before, init);
      NoteExchangeCovers(NoteAll(r, init), before + init, last);
      Regroup(before, init, [last]);
      hide Covers, NoteExchange;
    }
  }

  lemma {:induction false} NoteAllLeaves(r: SingleSiteStats, entries: seq<Exchange>)
    ensures NoteAll(r, entries).totalSize == r.totalSize
    ensures NoteAll(r, entries).totalTransactions == r.totalTransactions
  {
    if entries != [] {
      NoteAllLeaves(r, entries[..|entries| - 1]);
    }
  }

  lemma {:induction false} FileLast(files: seq<File>, f: File)
    ensures Bytes(files + [f]) == Bytes(files) + f.dataLen
    ensures Exchanges(files + [f]) == Exchanges(files) + f.entries
  {
    assert (files + [f])[..|files|] == files;
  }

  lemma {:induction false} CoversUnaffected(r: SingleSiteStats, t: SingleSiteStats, entries: seq<Exchange>)
    requires Covers(r, entries)
    requires r.(totalSize := t.totalSize, totalTransactions := t.totalTransactions) == t
    ensures Covers(t, entries)
  {
    hide Describes, AllSizes, Unanswered;
  }

  lemma {:induction false} RecordIsRecordOf(r: SingleSiteStats, files: seq<File>, f: File)
    requires IsRecordOf(r, files)
    ensures IsRecordOf(Record(r, f.dataLen, f.entries), files + [f])
  {
    hide NoteAll, Covers, Bytes, Exchanges;
    var started := r.(totalSize := r.totalSize + f.dataLen, totalTransactions := r.totalTransactions + |f.entries|);
    FileLast(files, f);
    CoversUnaffected(r, started, Exchanges(files));
    NoteAllCovers(started, Exchanges(files), f.entries);
    NoteAllLeaves(started, f.entries);
  }

  lemma {:induction false} FilesOfLast(files: seq<File>, f: File, app: string)
    ensures FilesOf(files + [f], app) == if f.app == app then FilesOf(files, app) + [f] else FilesOf(files, app)
  {
    assert (files + [f])[..|files|] == files;
  }

  lemma {:induction false} NothingIsRecorded()
    ensures IsRecordOf(NO_STATS, [])
  {
    assert forall k :: AllSizes([], k) == [];
  }

  lemma {:induction false} StepIsAccountOf(s: Stats, files: seq<File>, f: File)
    requires IsAccountOf(s, files)
    ensures IsAccountOf(Step(s, f), files + [f])
  {
    hide IsRecordOf, Record;
    var t := Step(s, f);
    NothingIsRecorded();
    assert IsRecordOf(Get(s.hosts, f.app), FilesOf(files, f.app));
    hide FilesOf;
    RecordIsRecordOf(s.total, files, f);
    RecordIsRecordOf(Get(s.hosts, f.app), FilesOf(files, f.app), f);
    forall app
      ensures app in t.hosts <==> FilesOf(files + [f], app) != []
      ensures app in t.hosts ==> IsRecordOf(t.hosts[app], FilesOf(files + [f], app))
    {
      FilesOfLast(files, f, app);
    }
  }

  lemma {:induction false} RunIsAccountOf(s: Stats, before: seq<File>, files: seq<File>)
    requires IsAccountOf(s, before)
    ensures IsAccountOf(Run(s, files), before + files)
    decreases |files|
  {
    hide IsAccountOf, Step;
    if files == [] {
      assert before + files == before;
    } else {
      StepIsAccountOf(s, before, files[0]);
      RunIsAccountOf(Step(s, files[0]), before + [files[0]], files[1..]);
      assert before + [files[0]] + files[1..] == before + files;
    }
  }

  /** After any files, from empty statistics: the summary is the record of them all, exactly the
      applications that occur have a record, and each is the record of its own files: bytes,
      transactions, unanswered requests, and the bounds and buckets of all sizes of each kind. */
  lemma {:induction false} StatisticsAreExact(files: seq<File>)
    ensures IsAccountOf(Run(Stats(NO_STATS, map[]), files), files)
  {
    NothingIsRecorded();
    RunIsAccountOf(Stats(NO_STATS, map[]), [], files);
    assert [] + files == files;
  }
}
