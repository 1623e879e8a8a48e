/** From transactions to per-application files and on to the S3 exporter
    (exporters/processor.go, exporters/s3.go, har/har.go). */
module HarExport {
  import opened Endpoints
  import opened Grouping

  /** Shared by reference: every holder of an entry sees it change. */
  class AppIdentifier {
    var dstIP: string
    var dstPort: nat

    constructor (dstIP: string, dstPort: nat)
      ensures this.dstIP == dstIP && this.dstPort == dstPort
    {
      this.dstIP, this.dstPort := dstIP, dstPort;
    }

    function Text(): string
      reads this
    {
      dstIP + "_" + Itoa(dstPort)
    }

    method Empty()
      modifies this
      ensures dstIP == "" && dstPort == 0
    {
      dstIP, dstPort := "", 0;
    }
  }

  datatype Pair = Pair(name: string, value: string)
  datatype Transaction = Transaction(dstIP: string, dstPort: nat, headers: seq<Pair>, content: string)
  datatype Entry = Entry(headers: seq<Pair>, content: string, appId: AppIdentifier)

  ghost function AppIds(entries: seq<Entry>): set<AppIdentifier> {
    set e | e in entries :: e.appId
  }

  /** The item is the entry under the application it is filed under at the moment. */
  ghost predicate IsItem(item: Filed<Entry>, entry: Entry)
    reads entry.appId
  {
    item == Filed(entry.appId.Text(), entry)
  }

  ghost function Named(files: seq<seq<Entry>>, apps: seq<string>): (named: seq<HarFile<Entry>>)
    requires |files| == |apps|
    ensures |named| == |files|
    ensures forall i :: 0 <= i < |files| ==> named[i] == HarFile(apps[i], files[i])
  {
    seq(|files|, i requires 0 <= i < |files| => HarFile(apps[i], files[i]))
  }

  ghost function AllAppIds(files: seq<seq<Entry>>): set<AppIdentifier> {
    set i, j | 0 <= i < |files| && 0 <= j < |files[i]| :: files[i][j].appId
  }

  /** Every file holds entries that name the file's application. */
  ghost predicate UnderOwnApp(files: seq<seq<Entry>>, apps: seq<string>)
    reads AllAppIds(files)
  {
    |apps| == |files| &&
    forall i, j :: 0 <= i < |files| && 0 <= j < |files[i]| ==> files[i][j].appId.Text() == apps[i]
  }

  /** Every file's first entry names the file's application, and files share no identifier. */
  ghost predicate Ready(files: seq<seq<Entry>>, apps: seq<string>)
    reads AllAppIds(files)
  {
    |apps| == |files| && Apart(files) && Pending(files, apps, 0)
  }

  ghost predicate Apart(files: seq<seq<Entry>>) {
    forall i, k, j :: 0 <= i < k < |files| && 0 <= j < |files[k]| ==> files[k][j].appId !in AppIds(files[i])
  }

  /** The files from `i` on still name their applications. */
  ghost predicate Pending(files: seq<seq<Entry>>, apps: seq<string>, i: nat)
    requires |apps| == |files|
    reads AllAppIds(files)
  {
    forall k :: i <= k < |files| && files[k] != [] ==> files[k][0].appId.Text() == apps[k]
  }

  /** Files of different applications share no identifier. */
  lemma {:induction false} SplitIsReady(files: seq<seq<Entry>>, apps: seq<string>)
    requires UnderOwnApp(files, apps)
    requires forall i, j :: 0 <= i < j < |apps| ==> apps[i] != apps[j]
    ensures Ready(files, apps)
  {
    hide AppIdentifier.Text;
  }

  lemma {:induction false} OfAppMembers(items: seq<Filed<Entry>>, app: string)
    ensures forall e :: e in OfApp(items, app) ==> Filed(app, e) in items
  {
    if items != [] {
      OfAppMembers(items[1..], app);
    }
  }

  lemma {:induction false} SplitIsUnderOwnApp(files: seq<seq<Entry>>, apps: seq<string>, entries: seq<Entry>,
                                              items: seq<Filed<Entry>>)
    requires |items| == |entries| && forall i :: 0 <= i < |entries| ==> IsItem(items[i], entries[i])
    requires |apps| == |files| && IsSplit(Named(files, apps), items)
    ensures UnderOwnApp(files, apps) && AllAppIds(files) <= AppIds(entries)
  {
    hide OfApp;
    forall i, j | 0 <= i < |files| && 0 <= j < |files[i]|
      ensures files[i][j].appId.Text() == apps[i] && files[i][j] in entries
    {
      var e := files[i][j];
      assert Named(files, apps)[i] == HarFile(apps[i], files[i]);
      OfAppMembers(items, apps[i]);
      assert e in OfApp(items, apps[i]);
      var k :| 0 <= k < |items| && items[k] == Filed(apps[i], e);
      assert IsItem(items[k], entries[k]);
    }
  }

  /** Files the entries: one file in all, or one per application, in map order. No file is
      empty exactly when they are split or there is something to file. */
  method GetHarFiles(entries: seq<Entry>, splitByHost: bool, ghost items: seq<Filed<Entry>>)
    returns (files: seq<seq<Entry>>, ghost apps: seq<string>)
    requires |items| == |entries| && forall i :: 0 <= i < |entries| ==> IsItem(items[i], entries[i])
    ensures Ready(files, apps)
    ensures if splitByHost then IsSplit(Named(files, apps), items)
            else files == [entries] && (entries != [] ==> apps == [items[0].app])
    ensures AllAppIds(files) <= AppIds(entries)
    ensures [] !in files <==> splitByHost || entries != []
  {
    if !splitByHost {
      files, apps := [entries], [if entries == [] then "" else items[0].app];
      return;
    }
    var groups := GroupByApp(entries, items);
    files, apps := EmitGroups(groups);
    GroupsSplit(groups, files, apps, items);
    SplitIsUnderOwnApp(files, apps, entries, items);
    assert forall i, j :: 0 <= i < j < |apps| ==> Named(files, apps)[i].app != Named(files, apps)[j].app;
    SplitIsReady(files, apps);
  }

  /** One file per group, in map order. */
  method EmitGroups(groups: map<string, seq<Entry>>) returns (files: seq<seq<Entry>>, ghost apps: seq<string>)
    ensures Emits(groups, files, apps)
  {
    files, apps := [], [];
    var keys := groups.Keys;
    while keys != {}
      invariant keys <= groups.Keys && |apps| == |files|
      invariant forall i :: 0 <= i < |apps| ==> apps[i] in groups && apps[i] !in keys && files[i] == groups[apps[i]]
      invariant forall i, j :: 0 <= i < j < |apps| ==> apps[i] != apps[j]
      invariant forall app :: app in groups && app !in keys ==> app in apps
    {
      var app :| app in keys;
      keys := keys - {app};
      files, apps := files + [groups[app]], apps + [app];
    }
  }

  ghost predicate Emits(groups: map<string, seq<Entry>>, files: seq<seq<Entry>>, apps: seq<string>) {
    && |apps| == |files|
    && (forall i :: 0 <= i < |apps| ==> apps[i] in groups && files[i] == groups[apps[i]])
    && (forall i, j :: 0 <= i < j < |apps| ==> apps[i] != apps[j])
    && (forall app :: app in groups ==> app in apps)
  }

  ghost predicate Groups(groups: map<string, seq<Entry>>, items: seq<Filed<Entry>>) {
    && (forall app :: app in groups ==> groups[app] != [] && groups[app] == OfApp(items, app))
    && (forall app :: app !in groups ==> OfApp(items, app) == [])
    && (forall k :: 0 <= k < |items| ==> items[k].app in groups)
  }

  lemma {:induction false} GroupsSplit(groups: map<string, seq<Entry>>, files: seq<seq<Entry>>,
                                       apps: seq<string>, items: seq<Filed<Entry>>)
    requires Emits(groups, files, apps) && Groups(groups, items)
    ensures IsSplit(Named(files, apps), items) && [] !in files
  {
    var named := Named(files, apps);
    forall k | 0 <= k < |items|
      ensures exists i :: 0 <= i < |named| && named[i].app == items[k].app
    {
      var i :| 0 <= i < |apps| && apps[i] == items[k].app;
      assert named[i].app == items[k].app;
    }
    assert IsSplit(named, items);
  }

  method GroupByApp(entries: seq<Entry>, ghost items: seq<Filed<Entry>>) returns (groups: map<string, seq<Entry>>)
    requires |items| == |entries| && forall i :: 0 <= i < |entries| ==> IsItem(items[i], entries[i])
    ensures Groups(groups, items)
  {
    groups := map[];
    assert items[..0] == [];
    var i := 0;
    while i < |entries|
      invariant 0 <= i <= |entries|
      invariant Groups(groups, items[..i])
    {
      var entry := entries[i];
      var appId := entry.appId.Text();
      var appEntries := if appId in groups then groups[appId] else [];
      GroupsStep(groups, items, i);
      groups := groups[appId := appEntries + [entry]];
      i := i + 1;
    }
    assert items[..i] == items;
  }

  lemma {:induction false} GroupsStep(groups: map<string, seq<Entry>>, items: seq<Filed<Entry>>, i: nat)
    requires i < |items| && Groups(groups, items[..i])
    ensures Groups(groups[items[i].app := Get(groups, items[i].app) + [items[i].entry]], items[..i + 1])
  {
    hide OfApp;
    OfAppStep(items, i);
  }

  lemma {:induction false} OfAppStep(items: seq<Filed<Entry>>, i: nat)
    requires i < |items|
    ensures forall app :: OfApp(items[..i + 1], app) ==
              if items[i].app == app then OfApp(items[..i], app) + [items[i].entry] else OfApp(items[..i], app)
  {
    var last := [items[i]];
    assert items[..i + 1] == items[..i] + last;
    forall app
      ensures OfApp(items[..i + 1], app) ==
                if items[i].app == app then OfApp(items[..i], app) + [items[i].entry] else OfApp(items[..i], app)
    {
      OfAppConcat(items[..i], last, app);
      assert last[1..] == [] && OfApp(last, app) == if items[i].app == app then [items[i].entry] else [];
    }
  }

  class S3Client {
    var dataHolder: Holder<Entry>
    const maxNumOfEntries: nat
    /** What each successful push carried. */
    ghost var exports: seq<Holder<Entry>>

    ghost function View(): Exporter<Entry>
      reads this
    {
      Exporter(dataHolder, exports)
    }

    constructor (maxNumOfEntries: nat)
      ensures View() == Exporter(map[], []) && this.maxNumOfEntries == maxNumOfEntries
    {
      this.maxNumOfEntries := maxNumOfEntries;
      dataHolder, exports := map[], [];
    }

    /** Files the data under its first entry's application and exports when too much is held.
        Blanking the identifiers is seen by every later processor of the same data. */
    method Process(harData: seq<Entry>, pushed: bool) returns (ok: bool)
      requires harData != []
      modifies this, AppIds(harData)
      ensures (View(), ok) ==
              ExporterStep(old(View()),
                           ExportEvent.Process(HarFile(old(harData[0].appId.Text()), harData), pushed),
                           maxNumOfEntries)
      ensures forall e :: e in harData ==> e.appId.Text() == "_0"
    {
      hide Total, Grouping.Export;
      var appId := harData[0].appId.Text();
      var i := 0;
      while i < |harData|
        modifies AppIds(harData)
        invariant 0 <= i <= |harData|
        invariant forall k :: 0 <= k < i ==> harData[k].appId.dstIP == "" && harData[k].appId.dstPort == 0
      {
        harData[i].appId.Empty();
        i := i + 1;
      }
      var currentEntries := if appId in dataHolder then dataHolder[appId] else [];
      ghost var before := currentEntries;
      i := 0;
      while i < |harData|
        modifies {}
        invariant 0 <= i <= |harData| && currentEntries == before + harData[..i]
      {
        currentEntries := currentEntries + [harData[i]];
        i := i + 1;
      }
      assert harData[..i] == harData;
      assert forall e :: e in harData ==> e.appId.Text() == "_0";
      dataHolder := dataHolder[appId := currentEntries];
      var numOfEntries := GetNumOfEntries();
      ok := true;
      if numOfEntries > maxNumOfEntries {
        ok := DoExport(numOfEntries, pushed);
      }
    }

    method DoExport(numOfEntries: nat, pushed: bool) returns (ok: bool)
      requires numOfEntries == Total(dataHolder)
      modifies this
      ensures (View(), ok) == Export(old(View()), pushed)
    {
      if numOfEntries > 0 {
        if !pushed {
          return false;
        }
        exports := exports + [dataHolder];
        dataHolder := map[];
      }
      return true;
    }

    method GetNumOfEntries() returns (n: nat)
      ensures n == Total(dataHolder)
    {
      n := 0;
      var rest := dataHolder;
      while rest != map[]
        invariant n + Total(rest) == Total(dataHolder)
        decreases |rest|
      {
        var app :| app in rest;
        TotalWithout(rest, app);
        n := n + |rest[app]|;
        rest := rest - {app};
      }
    }

    method OnTimer(pushed: bool) returns (ok: bool)
      modifies this
      ensures (View(), ok) == ExporterStep(old(View()), Timer(pushed), maxNumOfEntries)
    {
      var n := GetNumOfEntries();
      ok := DoExport(n, pushed);
    }
  }

  // ---- Several exporters

  /** The application the `k`-th exporter sees a file under: the first one its own, every later
      one the blank identifier the first one left. */
  function Seen(app: string, k: nat): string {
    if k == 0 then app else "_0"
  }

  /** The files as the `k`-th exporter receives them. */
  ghost function Filings(files: seq<seq<Entry>>, apps: seq<string>, k: nat): (filings: seq<HarFile<Entry>>)
    requires |files| == |apps|
    ensures |filings| == |files|
    ensures forall i :: 0 <= i < |files| ==> filings[i] == HarFile(Seen(apps[i], k), files[i])
  {
    seq(|files|, i requires 0 <= i < |files| => HarFile(Seen(apps[i], k), files[i]))
  }

  ghost function Events(files: seq<seq<Entry>>, apps: seq<string>, k: nat, pushed: (nat, nat) -> bool)
    : (events: seq<ExportEvent<Entry>>)
    requires |files| == |apps|
    ensures Feeds(events, Filings(files, apps, k))
    ensures forall i :: 0 <= i < |files| ==> events[i] == FilingEvent(files[i], apps[i], i, k, pushed)
  {
    seq(|files|, i requires 0 <= i < |files| => FilingEvent(files[i], apps[i], i, k, pushed))
  }

  /** The `i`-th file of a dump, as the `k`-th exporter receives it. */
  ghost function FilingEvent(file: seq<Entry>, app: string, i: nat, k: nat, pushed: (nat, nat) -> bool)
    : ExportEvent<Entry>
  {
    ExportEvent.Process(HarFile(Seen(app, k), file), pushed(i, k))
  }

  lemma {:induction false} RunTail(x: Exporter<Entry>, events: seq<ExportEvent<Entry>>, i: nat, max: nat)
    requires i < |events|
    ensures ExporterRun(x, events[i..], max) == ExporterRun(ExporterStep(x, events[i], max).0, events[i + 1..], max)
  {
    assert events[i..][1..] == events[i + 1..];
  }

  predicate Distinct(exporters: seq<S3Client>) {
    forall i, j :: 0 <= i < j < |exporters| ==> exporters[i] != exporters[j]
  }

  /** One file, exporter after exporter. */
  method ProcessFile(file: seq<Entry>, exporters: seq<S3Client>, i: nat, pushed: (nat, nat) -> bool)
    requires file != [] && Distinct(exporters)
    modifies set x | x in exporters
    modifies AppIds(file)
    ensures forall k :: 0 <= k < |exporters| ==>
              exporters[k].View() ==
              ExporterStep(old(exporters[k].View()), FilingEvent(file, old(file[0].appId.Text()), i, k, pushed),
                           exporters[k].maxNumOfEntries).0
  {
    hide AppIdentifier.Text, ExporterStep;
    var k := 0;
    while k < |exporters|
      invariant 0 <= k <= |exporters|
      invariant file[0].appId.Text() == Seen(old(file[0].appId.Text()), k)
      invariant forall j :: k <= j < |exporters| ==> exporters[j].View() == old(exporters[j].View())
      invariant forall j :: 0 <= j < k ==>
                  exporters[j].View() ==
                  ExporterStep(old(exporters[j].View()), FilingEvent(file, old(file[0].appId.Text()), i, j, pushed),
                               exporters[j].maxNumOfEntries).0
    {
      var _ := exporters[k].Process(file, pushed(i, k));
      k := k + 1;
    }
  }

  /** With the files from `i` on still to come, the exporters are on their way to `goals`. */
  ghost predicate Underway(files: seq<seq<Entry>>, apps: seq<string>, exporters: seq<S3Client>,
                           pushed: (nat, nat) -> bool, i: nat, goals: seq<Exporter<Entry>>)
    requires i <= |files| == |apps| && |goals| == |exporters|
    reads set x | x in exporters
  {
    forall k :: 0 <= k < |exporters| ==>
      ExporterRun(exporters[k].View(), Events(files, apps, k, pushed)[i..], exporters[k].maxNumOfEntries) == goals[k]
  }

  method ProcessNext(files: seq<seq<Entry>>, ghost apps: seq<string>, exporters: seq<S3Client>,
                     pushed: (nat, nat) -> bool, i: nat, ghost goals: seq<Exporter<Entry>>)
    requires i < |files| == |apps| && |goals| == |exporters| && Distinct(exporters)
    requires files[i] != [] && Apart(files) && Pending(files, apps, i)
    requires Underway(files, apps, exporters, pushed, i, goals)
    modifies set x | x in exporters
    modifies AppIds(files[i])
    ensures Pending(files, apps, i + 1) && Underway(files, apps, exporters, pushed, i + 1, goals)
  {
    hide AppIdentifier.Text, ExporterStep, Events;
    forall k | 0 <= k < |exporters|
      ensures goals[k] ==
              ExporterRun(ExporterStep(exporters[k].View(), FilingEvent(files[i], apps[i], i, k, pushed),
                                       exporters[k].maxNumOfEntries).0,
                          Events(files, apps, k, pushed)[i + 1..], exporters[k].maxNumOfEntries)
    {
      RunTail(exporters[k].View(), Events(files, apps, k, pushed), i, exporters[k].maxNumOfEntries);
    }
    ProcessFile(files[i], exporters, i, pushed);
  }

  /** Hands every file of a dump to every exporter. Files share no identifier, so blanking one
      leaves the others to be filed correctly by the first exporter. */
  method ProcessAll(files: seq<seq<Entry>>, ghost apps: seq<string>, exporters: seq<S3Client>,
                    pushed: (nat, nat) -> bool)
    requires Ready(files, apps) && [] !in files && Distinct(exporters)
    modifies set x | x in exporters
    modifies AllAppIds(files)
    ensures forall k :: 0 <= k < |exporters| ==>
              exporters[k].View() == old(Goal(exporters[k], files, apps, k, pushed))
  {
    hide AppIdentifier.Text, ExporterStep, Events;
    ghost var goals := Goals(files, apps, exporters, pushed);
    SetOut(files, apps, exporters, pushed, goals);
    hide Underway, Goal, Goals, Pending, Apart;
    var i := 0;
    while i < |files|
      invariant 0 <= i <= |files|
      invariant Pending(files, apps, i) && Underway(files, apps, exporters, pushed, i, goals)
    {
      assert AppIds(files[i]) <= AllAppIds(files);
      ProcessNext(files, apps, exporters, pushed, i, goals);
      i := i + 1;
    }
    Arrived(files, apps, exporters, pushed, goals);
  }

  lemma {:induction false} Arrived(files: seq<seq<Entry>>, apps: seq<string>, exporters: seq<S3Client>,
                                   pushed: (nat, nat) -> bool, goals: seq<Exporter<Entry>>)
    requires |files| == |apps| && |goals| == |exporters|
    requires Underway(files, apps, exporters, pushed, |files|, goals)
    ensures forall k :: 0 <= k < |exporters| ==> exporters[k].View() == goals[k]
  {
    assert forall k :: 0 <= k < |exporters| ==> Events(files, apps, k, pushed)[|files|..] == [];
  }

  lemma {:induction false} SetOut(files: seq<seq<Entry>>, apps: seq<string>, exporters: seq<S3Client>,
                                  pushed: (nat, nat) -> bool, goals: seq<Exporter<Entry>>)
    requires |files| == |apps| && goals == Goals(files, apps, exporters, pushed)
    ensures Underway(files, apps, exporters, pushed, 0, goals)
  {
    assert forall k :: 0 <= k < |exporters| ==> Events(files, apps, k, pushed)[0..] == Events(files, apps, k, pushed);
  }

  /** Where the dump takes the `k`-th exporter. */
  ghost function Goal(x: S3Client, files: seq<seq<Entry>>, apps: seq<string>, k: nat, pushed: (nat, nat) -> bool)
    : Exporter<Entry>
    requires |files| == |apps|
    reads x
  {
    ExporterRun(x.View(), Events(files, apps, k, pushed), x.maxNumOfEntries)
  }

  ghost function Goals(files: seq<seq<Entry>>, apps: seq<string>, exporters: seq<S3Client>,
                       pushed: (nat, nat) -> bool): (goals: seq<Exporter<Entry>>)
    requires |files| == |apps|
    reads set x | x in exporters
    ensures |goals| == |exporters|
    ensures forall k :: 0 <= k < |exporters| ==> goals[k] == Goal(exporters[k], files, apps, k, pushed)
  {
    seq(|exporters|, k requires 0 <= k < |exporters| reads set x | x in exporters =>
      Goal(exporters[k], files, apps, k, pushed))
  }

  // ---- The exporting processor

  predicate IsHealthCheck(headers: seq<Pair>) {
    exists i :: 0 <= i < |headers| &&
      (headers[i] == Pair("Host", "HOST_FOR_HC") || headers[i] == Pair("X-RDWR-HC", "health check"))
  }

  predicate ShouldDump(t: Transaction, ignoreHealthCheck: bool) {
    !(ignoreHealthCheck && IsHealthCheck(t.headers))
  }

  function KeptOf(transactions: seq<Transaction>, ignoreHealthCheck: bool): seq<Transaction> {
    if transactions == [] then []
    else KeptOf(transactions[..|transactions| - 1], ignoreHealthCheck)
         + (var last := transactions[|transactions| - 1]; if ShouldDump(last, ignoreHealthCheck) then [last] else [])
  }

  function AppOf(t: Transaction): string {
    t.dstIP + "_" + Itoa(t.dstPort)
  }

  /** Transactions are filed together exactly when they went to one address and port, whatever
      characters the address has. */
  lemma {:induction false} AppIsDestination(a: Transaction, b: Transaction)
    ensures AppOf(a) == AppOf(b) <==> a.dstIP == b.dstIP && a.dstPort == b.dstPort
  {
    if AppOf(a) == AppOf(b) {
      SplitAtLast(a.dstIP, b.dstIP, Itoa(a.dstPort), Itoa(b.dstPort), '_');
      ItoaIsInjective(a.dstPort, b.dstPort);
    }
  }

  /** The items are the transactions, converted, in order. */
  predicate Converted(items: seq<Filed<Entry>>, transactions: seq<Transaction>) {
    |items| == |transactions| && forall i :: 0 <= i < |items| ==> ConvertedOne(items[i], transactions[i])
  }

  predicate ConvertedOne(item: Filed<Entry>, t: Transaction) {
    item.app == AppOf(t) && item.entry.headers == t.headers && item.entry.content == t.content
  }

  lemma {:induction false} KeptStep(transactions: seq<Transaction>, i: nat, ignoreHealthCheck: bool)
    requires i < |transactions|
    ensures KeptOf(transactions[..i + 1], ignoreHealthCheck) ==
            if ignoreHealthCheck && IsHealthCheck(transactions[i].headers)
            then KeptOf(transactions[..i], ignoreHealthCheck)
            else KeptOf(transactions[..i], ignoreHealthCheck) + [transactions[i]]
  {
    assert transactions[..i + 1][..i] == transactions[..i];
  }

  /** What a dump of the items adds to the `k`-th exporter, whatever becomes of the pushes: to
      the first one, each application's entries in order, or all of them under the first
      item's application if they were not split; to every later one, all of them, file by
      file, under the blank application. */
  ghost predicate Reaches(before: Exporter<Entry>, after: Exporter<Entry>, items: seq<Filed<Entry>>,
                          splitByHost: bool, k: nat, all: seq<Entry>) {
    && multiset(all) == multiset(Entries(items))
    && (!splitByHost ==> all == Entries(items))
    && forall app :: Kept(after, app) == Kept(before, app) + Share(items, splitByHost, k, all, app)
  }

  ghost function Share(items: seq<Filed<Entry>>, splitByHost: bool, k: nat, all: seq<Entry>, app: string): seq<Entry> {
    if k > 0 then if app == "_0" then all else []
    else if splitByHost then OfApp(items, app)
    else if items != [] && app == items[0].app then all else []
  }

  lemma {:induction false} DumpReaches(x: Exporter<Entry>, items: seq<Filed<Entry>>, files: seq<seq<Entry>>,
                                       apps: seq<string>, splitByHost: bool, k: nat, pushed: (nat, nat) -> bool,
                                       max: nat)
    requires |files| == |apps|
    requires if splitByHost then IsSplit(Named(files, apps), items)
             else if items == [] then files == [] else files == [Entries(items)] && apps == [items[0].app]
    ensures Reaches(x, ExporterRun(x, Events(files, apps, k, pushed), max), items, splitByHost, k,
                    AllEntries(Named(files, apps)))
  {
    var named, filings := Named(files, apps), Filings(files, apps, k);
    var all := AllEntries(named);
    AllEntriesSame(named, filings);
    if splitByHost {
      SplitConserves(named, items);
    } else if items != [] {
      assert all == files[0] + AllEntries(named[1..]) && named[1..] == [];
    }
    hide AllEntries, Named, Filings, ExporterRun, Kept, IsSplit;
    forall app
      ensures Kept(ExporterRun(x, Events(files, apps, k, pushed), max), app) ==
              Kept(x, app) + Share(items, splitByHost, k, all, app)
    {
      ShareReaches(x, items, files, apps, splitByHost, k, pushed, max, app);
    }
  }

  lemma {:induction false} ShareReaches(x: Exporter<Entry>, items: seq<Filed<Entry>>, files: seq<seq<Entry>>,
                                        apps: seq<string>, splitByHost: bool, k: nat, pushed: (nat, nat) -> bool,
                                        max: nat, app: string)
    requires |files| == |apps|
    requires if splitByHost then IsSplit(Named(files, apps), items)
             else if items == [] then files == [] else files == [Entries(items)] && apps == [items[0].app]
    ensures Kept(ExporterRun(x, Events(files, apps, k, pushed), max), app) ==
            Kept(x, app) + Share(items, splitByHost, k, AllEntries(Filings(files, apps, k)), app)
  {
    var named, filings, events := Named(files, apps), Filings(files, apps, k), Events(files, apps, k, pushed);
    hide Kept, ExporterRun, Received;
    if k == 0 && splitByHost {
      assert named == filings;
      DumpReachesExporter(x, items, named, events, max, app);
    } else {
      ExporterConserves(x, events, max, app);
      ReceivedAlike(events, filings, if k > 0 then "_0" else if items == [] then "" else items[0].app, app);
    }
  }

  lemma {:induction false} AllEntriesSame(a: seq<HarFile<Entry>>, b: seq<HarFile<Entry>>)
    requires |a| == |b| && forall i :: 0 <= i < |a| ==> a[i].entries == b[i].entries
    ensures AllEntries(a) == AllEntries(b)
  {
    if a != [] {
      AllEntriesSame(a[1..], b[1..]);
    }
  }

  class Processor {
    var transactions: seq<Transaction>
    var count: nat
    const splitByHost: bool
    const ignoreHealthCheck: bool
    /** Every transaction ever aggregated, and every one handed over for dumping. */
    ghost var aggregated: seq<Transaction>
    ghost var handedOver: seq<Transaction>

    /** The hand-over neither loses nor repeats a transaction, and keeps their order. */
    ghost predicate Valid()
      reads this
    {
      handedOver + transactions == aggregated && count == |KeptOf(handedOver, ignoreHealthCheck)|
    }

    constructor (splitByHost: bool, ignoreHealthCheck: bool)
      ensures Valid() && aggregated == []
    {
      this.splitByHost, this.ignoreHealthCheck := splitByHost, ignoreHealthCheck;
      transactions, count, aggregated, handedOver := [], 0, [], [];
    }

    method Aggregate(t: Transaction)
      requires Valid()
      modifies this`transactions, this`aggregated
      ensures Valid() && aggregated == old(aggregated) + [t]
    {
      transactions, aggregated := transactions + [t], aggregated + [t];
    }

    /** An export tick: what has gathered is taken over, converted, filtered and filed. */
    method Export() returns (files: seq<seq<Entry>>, ghost items: seq<Filed<Entry>>, ghost apps: seq<string>)
      requires Valid()
      modifies this
      ensures Valid() && transactions == [] && aggregated == old(aggregated)
      ensures Converted(items, KeptOf(old(transactions), ignoreHealthCheck)) && fresh(AllAppIds(files))
      ensures if old(transactions) == [] then files == [] && apps == [] else FiledAs(files, apps, items)
    {
      var toExport := transactions;
      KeptConcat(handedOver, toExport, ignoreHealthCheck);
      handedOver, transactions := handedOver + toExport, [];
      files, items, apps := DumpTransactions(toExport);
    }

    /** One file for everything, or one per application. */
    ghost predicate FiledAs(files: seq<seq<Entry>>, apps: seq<string>, items: seq<Filed<Entry>>)
      reads AllAppIds(files)
    {
      && Ready(files, apps)
      && if splitByHost then IsSplit(Named(files, apps), items)
         else files == [Entries(items)] && (items != [] ==> apps == [items[0].app])
    }

    /** An export tick all the way into the exporters. Without splitting, there has to be
        something left to file. */
    method ExportTo(exporters: seq<S3Client>, pushed: (nat, nat) -> bool)
      returns (ghost items: seq<Filed<Entry>>, ghost all: seq<Entry>)
      requires Valid() && Distinct(exporters)
      requires splitByHost || transactions == [] || KeptOf(transactions, ignoreHealthCheck) != []
      modifies this, set x | x in exporters
      ensures Valid() && transactions == [] && aggregated == old(aggregated)
      ensures Converted(items, KeptOf(old(transactions), ignoreHealthCheck))
      ensures forall k :: 0 <= k < |exporters| ==>
                Reaches(old(exporters[k].View()), exporters[k].View(), items, splitByHost, k, all)
    {
      var files;
      ghost var apps;
      files, items, apps := Export();
      all := AllEntries(Named(files, apps));
      assert files == [] ==> IsSplit(Named(files, apps), []);
      hide IsSplit, Reaches, KeptOf, Converted, AppIdentifier.Text, AllEntries, Entries;
      ProcessAll(files, apps, exporters, pushed);
      forall k | 0 <= k < |exporters|
        ensures Reaches(old(exporters[k].View()), exporters[k].View(), items, splitByHost, k, all)
      {
        DumpReaches(old(exporters[k].View()), items, files, apps, splitByHost, k, pushed, exporters[k].maxNumOfEntries);
      }
    }

    method DumpTransactions(transactions: seq<Transaction>)
      returns (files: seq<seq<Entry>>, ghost items: seq<Filed<Entry>>, ghost apps: seq<string>)
      modifies this`count
      ensures count == old(count) + |KeptOf(transactions, ignoreHealthCheck)|
      ensures Converted(items, KeptOf(transactions, ignoreHealthCheck)) && fresh(AllAppIds(files))
      ensures if transactions == [] then files == [] && apps == [] else FiledAs(files, apps, items)
    {
      if |transactions| == 0 {
        return [], [], [];
      }
      var kept, ignored;
      kept, ignored, items := ConvertAll(transactions);
      files, apps := GetHarFiles(kept, splitByHost, items);
      count := count + (|transactions| - ignored);
    }

    method ConvertAll(transactions: seq<Transaction>)
      returns (kept: seq<Entry>, ignored: nat, ghost items: seq<Filed<Entry>>)
      ensures ignored + |kept| == |transactions|
      ensures |items| == |kept| && (forall i :: 0 <= i < |kept| ==> IsItem(items[i], kept[i])) && kept == Entries(items)
      ensures Converted(items, KeptOf(transactions, ignoreHealthCheck))
      ensures fresh(AppIds(kept))
    {
      ghost var sources;
      kept, ignored, sources := ConvertKept(transactions);
      assert transactions[..|transactions|] == transactions;
      items := ItemsOf(kept, sources);
      MatchesAreItems(kept, sources);
    }

    /** The first `idx` transactions have been converted, kept or ignored. */
    ghost predicate Progress(transactions: seq<Transaction>, idx: nat, kept: seq<Entry>, ignored: nat,
                             sources: seq<Transaction>)
      reads AppIds(kept)
    {
      && idx <= |transactions| && ignored + |kept| == idx
      && sources == KeptOf(transactions[..idx], ignoreHealthCheck) && AllMatch(kept, sources)
    }

    method ConvertKept(transactions: seq<Transaction>)
      returns (kept: seq<Entry>, ignored: nat, ghost sources: seq<Transaction>)
      ensures fresh(AppIds(kept)) && Progress(transactions, |transactions|, kept, ignored, sources)
    {
      kept, ignored, sources := [], 0, [];
      var idx := 0;
      assert AllMatch(kept, sources) && AppIds(kept) == {};
      hide Progress, AppIds;
      while idx < |transactions|
        invariant 0 <= idx <= |transactions| && fresh(AppIds(kept))
        invariant Progress(transactions, idx, kept, ignored, sources)
      {
        kept, ignored, sources := ConvertNext(transactions, idx, kept, ignored, sources);
        idx := idx + 1;
      }
    }

    /** Converts one more transaction and keeps or ignores its entry. */
    method ConvertNext(transactions: seq<Transaction>, idx: nat, before: seq<Entry>, ignoredBefore: nat,
                       ghost sourcesBefore: seq<Transaction>)
      returns (kept: seq<Entry>, ignored: nat, ghost sources: seq<Transaction>)
      requires idx < |transactions| && Progress(transactions, idx, before, ignoredBefore, sourcesBefore)
      ensures fresh(AppIds(kept) - AppIds(before)) && Progress(transactions, idx + 1, kept, ignored, sources)
    {
      kept, ignored, sources := before, ignoredBefore, sourcesBefore;
      KeptStep(transactions, idx, ignoreHealthCheck);
      var entry := Convert(transactions[idx]);
      var dump := ShouldDumpEntry(entry.headers);
      hide KeptOf, IsHealthCheck, AppOf, AllMatch;
      if dump {
        MatchesGrow(kept, sources, entry, transactions[idx]);
        sources := sources + [transactions[idx]];
        kept := kept + [entry];
      } else {
        ignored := ignored + 1;
      }
    }

    static ghost function ItemsOf(kept: seq<Entry>, sources: seq<Transaction>): (items: seq<Filed<Entry>>)
      requires |kept| == |sources|
      ensures |items| == |kept| && forall i :: 0 <= i < |kept| ==> items[i] == Filed(AppOf(sources[i]), kept[i])
    {
      seq(|kept|, i requires 0 <= i < |kept| => Filed(AppOf(sources[i]), kept[i]))
    }

    lemma {:induction false} MatchesAreItems(kept: seq<Entry>, sources: seq<Transaction>)
      requires AllMatch(kept, sources)
      ensures var items := ItemsOf(kept, sources);
              && Converted(items, sources) && kept == Entries(items)
              && forall i :: 0 <= i < |kept| ==> IsItem(items[i], kept[i])
    {
      EntriesPointwise(ItemsOf(kept, sources), kept);
    }

    ghost predicate AllMatch(kept: seq<Entry>, sources: seq<Transaction>)
      reads AppIds(kept)
      ensures AllMatch(kept, sources) ==> |kept| == |sources|
    {
      |kept| == |sources| && forall i :: 0 <= i < |kept| ==> Matches(kept[i], sources[i])
    }

    lemma {:induction false} MatchesGrow(kept: seq<Entry>, sources: seq<Transaction>, e: Entry, t: Transaction)
      requires AllMatch(kept, sources) && Matches(e, t)
      ensures AllMatch(kept + [e], sources + [t]) && AppIds(kept + [e]) == AppIds(kept) + {e.appId}
    {
    }

    /** The entry is the transaction, converted. */
    ghost predicate Matches(e: Entry, t: Transaction)
      reads e.appId
    {
      e.appId.Text() == AppOf(t) && e.headers == t.headers && e.content == t.content
    }

    method Convert(t: Transaction) returns (e: Entry)
      ensures fresh(e.appId) && Matches(e, t)
    {
      var appId := new AppIdentifier(t.dstIP, t.dstPort);
      e := Entry(t.headers, t.content, appId);
    }

    method ShouldDumpEntry(headers: seq<Pair>) returns (dump: bool)
      ensures dump <==> !(ignoreHealthCheck && IsHealthCheck(headers))
      ensures dump <==> !ignoreHealthCheck ||
                        forall i :: 0 <= i < |headers| ==>
                          && (headers[i].name != "Host" || headers[i].value != "HOST_FOR_HC")
                          && (headers[i].name != "X-RDWR-HC" || headers[i].value != "health check")
    {
      if ignoreHealthCheck {
        var i := 0;
        while i < |headers|
          invariant 0 <= i <= |headers| && !IsHealthCheck(headers[..i])
        {
          if (headers[i].name == "Host" && headers[i].value == "HOST_FOR_HC") ||
             (headers[i].name == "X-RDWR-HC" && headers[i].value == "health check") {
            return false;
          }
          i := i + 1;
        }
        assert headers[..i] == headers;
      }
      return true;
    }
  }

  /** Exactly the health checks are left out when they are to be ignored, and nothing ever is
      otherwise. */
  lemma {:induction false} KeptExactly(transactions: seq<Transaction>, ignoreHealthCheck: bool, t: Transaction)
    ensures multiset(KeptOf(transactions, ignoreHealthCheck))[t] ==
            if ignoreHealthCheck && (Pair("Host", "HOST_FOR_HC") in t.headers ||
                                     Pair("X-RDWR-HC", "health check") in t.headers)
            then 0 else multiset(transactions)[t]
  {
    assert IsHealthCheck(t.headers) <==>
           Pair("Host", "HOST_FOR_HC") in t.headers || Pair("X-RDWR-HC", "health check") in t.headers;
    if transactions != [] {
      hide IsHealthCheck;
      var init, last := transactions[..|transactions| - 1], transactions[|transactions| - 1];
      assert transactions == init + [last];
      KeptExactly(init, ignoreHealthCheck, t);
    }
  }

  lemma {:induction false} KeptConcat(a: seq<Transaction>, b: seq<Transaction>, ignoreHealthCheck: bool)
    ensures KeptOf(a + b, ignoreHealthCheck) == KeptOf(a, ignoreHealthCheck) + KeptOf(b, ignoreHealthCheck)
    decreases |b|
  {
    if b == [] {
      assert a + b == a;
    } else {
      assert (a + b)[..|a + b| - 1] == a + b[..|b| - 1];
      KeptConcat(a, b[..|b| - 1], ignoreHealthCheck);
    }
  }
}
