/** Partitioning entries by application and accumulating them towards an export, on values
    (exporters/processor.go, exporters/s3.go). */
module Grouping {
  import opened Basics

  /** An entry and the application it belongs to. */
  datatype Filed<T> = Filed(app: string, entry: T)

  /** A file of entries of one application. */
  datatype HarFile<T> = HarFile(app: string, entries: seq<T>)

  function OfApp<T>(items: seq<Filed<T>>, app: string): seq<T> {
    if items == [] then []
    else (if items[0].app == app then [items[0].entry] else []) + OfApp(items[1..], app)
  }

  lemma {:induction false} OfAppConcat<T>(a: seq<Filed<T>>, b: seq<Filed<T>>, app: string)
    ensures OfApp(a + b, app) == OfApp(a, app) + OfApp(b, app)
  {
    if a == [] {
      assert a + b == b;
    } else {
      assert (a + b)[1..] == a[1..] + b;
      OfAppConcat(a[1..], b, app);
      Regroup(if a[0].app == app then [a[0].entry] else [], OfApp(a[1..], app), OfApp(b, app));
    }
  }

  // ---- Splitting into files

  /** One non-empty file per application that occurs, holding that application's entries in
      their original order. */
  ghost predicate IsSplit<T>(files: seq<HarFile<T>>, items: seq<Filed<T>>) {
    && (forall i :: 0 <= i < |files| ==> files[i].entries != [] && files[i].entries == OfApp(items, files[i].app))
    && (forall i, j :: 0 <= i < j < |files| ==> files[i].app != files[j].app)
    && (forall k :: 0 <= k < |items| ==> exists i :: 0 <= i < |files| && files[i].app == items[k].app)
  }

  function AllEntries<T>(files: seq<HarFile<T>>): seq<T> {
    if files == [] then [] else files[0].entries + AllEntries(files[1..])
  }

  function Entries<T>(items: seq<Filed<T>>): (entries: seq<T>)
    ensures |entries| == |items|
  {
    if items == [] then [] else [items[0].entry] + Entries(items[1..])
  }

  lemma {:induction false} EntriesPointwise<T>(items: seq<Filed<T>>, entries: seq<T>)
    requires |items| == |entries| && forall i :: 0 <= i < |items| ==> items[i].entry == entries[i]
    ensures Entries(items) == entries
  {
    if items != [] {
      EntriesPointwise(items[1..], entries[1..]);
      assert entries == [entries[0]] + entries[1..];
    }
  }

  /** The items of every other application. */
  function Others<T>(items: seq<Filed<T>>, app: string): (others: seq<Filed<T>>)
    ensures forall k :: 0 <= k < |others| ==> others[k].app != app
    ensures forall k :: 0 <= k < |others| ==> others[k] in items
  {
    if items == [] then []
    else (if items[0].app == app then [] else [items[0]]) + Others(items[1..], app)
  }

  lemma {:induction false} OthersComplement<T>(items: seq<Filed<T>>, app: string)
    ensures multiset(Entries(items)) == multiset(OfApp(items, app)) + multiset(Entries(Others(items, app)))
  {
    if items != [] {
      OthersComplement(items[1..], app);
      var rest := Others(items[1..], app);
      if items[0].app != app {
        assert ([items[0]] + rest)[1..] == rest;
        assert OfApp(items, app) == OfApp(items[1..], app);
      } else {
        assert Others(items, app) == rest;
      }
    }
  }

  lemma {:induction false} OthersKeepApp<T>(items: seq<Filed<T>>, gone: string, app: string)
    requires app != gone
    ensures OfApp(Others(items, gone), app) == OfApp(items, app)
  {
    if items != [] {
      OthersKeepApp(items[1..], gone, app);
      var rest := Others(items[1..], gone);
      if items[0].app != gone {
        assert ([items[0]] + rest)[1..] == rest;
      } else {
        assert Others(items, gone) == rest;
      }
    }
  }

  /** Splitting loses nothing and repeats nothing: every entry is in exactly one file. */
  lemma {:induction false} SplitConserves<T>(files: seq<HarFile<T>>, items: seq<Filed<T>>)
    requires IsSplit(files, items)
    ensures multiset(AllEntries(files)) == multiset(Entries(items))
    decreases |files|
  {
    if files == [] {
      assert items == [];
    } else {
      OthersComplement(items, files[0].app);
      TailIsSplit(files, items);
      SplitConserves(files[1..], Others(items, files[0].app));
    }
  }

  lemma {:induction false} TailIsSplit<T>(files: seq<HarFile<T>>, items: seq<Filed<T>>)
    requires IsSplit(files, items) && files != []
    ensures IsSplit(files[1..], Others(items, files[0].app))
  {
    hide OfApp;
    var app := files[0].app;
    var tail := files[1..];
    var others := Others(items, app);
    forall i | 0 <= i < |tail|
      ensures tail[i].entries != [] && tail[i].entries == OfApp(others, tail[i].app)
    {
      assert tail[i] == files[i + 1];
      OthersKeepApp(items, app, files[i + 1].app);
    }
    forall k | 0 <= k < |others|
      ensures exists i :: 0 <= i < |tail| && tail[i].app == others[k].app
    {
      assert others[k] in items;
      var i :| 0 <= i < |files| && files[i].app == others[k].app;
      assert tail[i - 1].app == others[k].app;
    }
  }

  // ---- Accumulating towards an export

  type Holder<T> = map<string, seq<T>>

  function Get<T>(m: Holder<T>, app: string): seq<T> {
    if app in m then m[app] else []
  }

  ghost function Total<T>(m: Holder<T>): nat
  {
    if m == map[] then 0 else
      var app :| app in m;
      |m[app]| + Total(m - {app})
  }

  /** The total does not depend on the order in which the map is iterated. */
  lemma {:induction false} TotalWithout<T>(m: Holder<T>, app: string)
    requires app in m
    ensures Total(m) == |m[app]| + Total(m - {app})
    decreases |m|
  {
    var first :| first in m && Total(m) == |m[first]| + Total(m - {first});
    if first != app {
      TotalWithout(m - {first}, app);
      TotalWithout(m - {app}, first);
      assert m - {first} - {app} == m - {app} - {first};
    }
  }

  /** The exporter: what is held, and the contents of every successful export. */
  datatype Exporter<T> = Exporter(held: Holder<T>, exports: seq<Holder<T>>)

  /** A file to process or a timer tick; `pushed`: whether an export made now would succeed. */
  datatype ExportEvent<T> = Process(file: HarFile<T>, pushed: bool) | Timer(pushed: bool)

  /** An export succeeds, fails, or is not needed because nothing is held. */
  ghost function Export<T>(x: Exporter<T>, pushed: bool): (Exporter<T>, bool) {
    if Total(x.held) == 0 then (x, true)
    else if pushed then (Exporter(map[], x.exports + [x.held]), true)
    else (x, false)
  }

  ghost function ExporterStep<T>(x: Exporter<T>, e: ExportEvent<T>, max: int): (Exporter<T>, bool) {
    match e
    case Process(file, pushed) =>
      var x := x.(held := x.held[file.app := Get(x.held, file.app) + file.entries]);
      if Total(x.held) > max then Export(x, pushed) else (x, true)
    case Timer(pushed) => Export(x, pushed)
  }

  ghost function ExporterRun<T>(x: Exporter<T>, events: seq<ExportEvent<T>>, max: int): Exporter<T>
    decreases |events|
  {
    if events == [] then x else ExporterRun(ExporterStep(x, events[0], max).0, events[1..], max)
  }

  function Exported<T>(exports: seq<Holder<T>>, app: string): seq<T> {
    if exports == [] then [] else Exported(exports[..|exports| - 1], app) + Get(exports[|exports| - 1], app)
  }

  function Received<T>(events: seq<ExportEvent<T>>, app: string): seq<T> {
    if events == [] then []
    else (if events[0].Process? && events[0].file.app == app then events[0].file.entries else [])
         + Received(events[1..], app)
  }

  /** Everything of an application: exported, then held. */
  function Kept<T>(x: Exporter<T>, app: string): seq<T> {
    Exported(x.exports, app) + Get(x.held, app)
  }

  lemma {:induction false} ExportKeeps<T>(x: Exporter<T>, pushed: bool, app: string)
    ensures Kept(Export(x, pushed).0, app) == Kept(x, app)
  {
    if Total(x.held) != 0 && pushed {
      assert (x.exports + [x.held])[..|x.exports|] == x.exports;
      assert Get<T>(map[], app) == [];
    }
  }

  lemma {:induction false} StepKeeps<T>(x: Exporter<T>, e: ExportEvent<T>, max: int, app: string)
    ensures Kept(ExporterStep(x, e, max).0, app) == Kept(x, app) + Received([e], app)
  {
    ReceivedOne(e, app);
    match e
    case Process(file, pushed) =>
      var y := x.(held := x.held[file.app := Get(x.held, file.app) + file.entries]);
      ExportKeeps(y, pushed, app);
      Regroup(Exported(x.exports, app), Get(x.held, app), file.entries);
      assert file.app != app ==> Get(y.held, app) == Get(x.held, app);
      assert Kept(x, app) + [] == Kept(x, app);
    case Timer(pushed) =>
      ExportKeeps(x, pushed, app);
      assert Kept(x, app) + [] == Kept(x, app);
  }

  lemma {:induction false} ReceivedOne<T>(e: ExportEvent<T>, app: string)
    ensures Received([e], app) == if e.Process? && e.file.app == app then e.file.entries else []
  {
    assert [e][1..] == [];
    assert Received<T>([], app) == [];
    if e.Process? {
      assert e.file.entries + [] == e.file.entries;
    }
  }

  /** Conservation: over any run of files, timer exports and failed pushes, an application's
      successful exports followed by what is still held are all its entries, in order. */
  lemma {:induction false} ExporterConserves<T>(x: Exporter<T>, events: seq<ExportEvent<T>>, max: int, app: string)
    ensures Kept(ExporterRun(x, events, max), app) == Kept(x, app) + Received(events, app)
    decreases |events|
  {
    if events != [] {
      var y := ExporterStep(x, events[0], max).0;
      StepKeeps(x, events[0], max, app);
      ExporterConserves(y, events[1..], max, app);
      ReceivedOne(events[0], app);
      Regroup(Kept(x, app), Received([events[0]], app), Received(events[1..], app));
    }
  }

  /** A file that is processed without an error leaves at most the maximum held. */
  lemma {:induction false} HeldIsBounded<T>(x: Exporter<T>, file: HarFile<T>, pushed: bool, max: nat)
    ensures var (y, ok) := ExporterStep(x, Process(file, pushed), max);
            ok <==> Total(y.held) <= max
  {
    var y := x.(held := x.held[file.app := Get(x.held, file.app) + file.entries]);
    assert Total<T>(map[]) == 0;
  }

  // ---- When an export is made

  lemma {:induction false} TotalAfterUpdate<T>(m: Holder<T>, app: string, entries: seq<T>)
    ensures Total(m[app := Get(m, app) + entries]) == Total(m) + |entries|
  {
    var updated := m[app := Get(m, app) + entries];
    TotalWithout(updated, app);
    assert updated - {app} == m - {app};
    if app in m {
      TotalWithout(m, app);
    } else {
      assert m - {app} == m;
    }
  }

  /** An export is due when something is held, with the file just processed, and either the timer
      calls for it or it is more than the maximum. If it is due and the push succeeds, all that is
      held becomes one export and nothing stays; otherwise nothing is exported and everything
      stays, and that is an error exactly when it was due. */
  lemma {:induction false} ExportsExactly<T>(x: Exporter<T>, e: ExportEvent<T>, max: int, app: string)
    ensures var (y, ok) := ExporterStep(x, e, max);
            var gathered := Total(x.held) + if e.Process? then |e.file.entries| else 0;
            var share := Get(x.held, app) + Received([e], app);
            var due := gathered > 0 && (e.Process? ==> gathered > max);
            && (ok <==> !due || e.pushed)
            && (due && e.pushed ==>
                  && Total(y.held) == 0 && y.held == map[]
                  && |y.exports| == |x.exports| + 1 && y.exports[..|x.exports|] == x.exports
                  && Total(y.exports[|x.exports|]) == gathered && Get(y.exports[|x.exports|], app) == share)
            && (!due || !e.pushed ==>
                  y.exports == x.exports && Total(y.held) == gathered && Get(y.held, app) == share)
  {
    ReceivedOne(e, app);
    match e
    case Process(file, pushed) =>
      TotalAfterUpdate(x.held, file.app, file.entries);
      assert Get(x.held, app) + [] == Get(x.held, app);
    case Timer(_) =>
      assert Get(x.held, app) + [] == Get(x.held, app);
  }

  /** The entries received since the last successful export, `held` of them to start with. */
  function Since<T>(held: nat, events: seq<ExportEvent<T>>, max: int): nat
    decreases |events|
  {
    if events == [] then held else
      match events[0]
      case Process(file, pushed) =>
        Since(if pushed && held + |file.entries| > max then 0 else held + |file.entries|, events[1..], max)
      case Timer(pushed) => Since(if pushed then 0 else held, events[1..], max)
  }

  /** What is held over any run is counted by the events alone. */
  lemma {:induction false} HeldIsCounted<T>(x: Exporter<T>, events: seq<ExportEvent<T>>, max: int)
    ensures Total(ExporterRun(x, events, max).held) == Since(Total(x.held), events, max)
    decreases |events|
  {
    if events != [] {
      ExportsExactly(x, events[0], max, "");
      HeldIsCounted(ExporterStep(x, events[0], max).0, events[1..], max);
    }
  }

  // ---- From a dump to the exporter

  ghost predicate Feeds<T>(events: seq<ExportEvent<T>>, files: seq<HarFile<T>>) {
    |events| == |files| && forall i :: 0 <= i < |files| ==> events[i].Process? && events[i].file == files[i]
  }

  lemma {:induction false} ReceivedAbsent<T>(events: seq<ExportEvent<T>>, files: seq<HarFile<T>>, app: string)
    requires Feeds(events, files) && forall i :: 0 <= i < |files| ==> files[i].app != app
    ensures Received(events, app) == []
  {
    if events != [] {
      ReceivedAbsent(events[1..], files[1..], app);
    }
  }

  lemma {:induction false} ReceivedOnce<T>(events: seq<ExportEvent<T>>, files: seq<HarFile<T>>, i: nat)
    requires Feeds(events, files) && i < |files|
    requires forall j, k :: 0 <= j < k < |files| ==> files[j].app != files[k].app
    ensures Received(events, files[i].app) == files[i].entries
  {
    if i == 0 {
      ReceivedAbsent(events[1..], files[1..], files[0].app);
    } else {
      ReceivedOnce(events[1..], files[1..], i - 1);
    }
  }

  /** Files all filed under one application are received under it, and under no other. */
  lemma {:induction false} ReceivedAlike<T>(events: seq<ExportEvent<T>>, files: seq<HarFile<T>>, one: string,
                                            app: string)
    requires Feeds(events, files) && forall i :: 0 <= i < |files| ==> files[i].app == one
    ensures Received(events, app) == if app == one then AllEntries(files) else []
  {
    if events != [] {
      ReceivedAlike(events[1..], files[1..], one, app);
    }
  }

  lemma {:induction false} NoItemsOfApp<T>(items: seq<Filed<T>>, app: string)
    requires forall k :: 0 <= k < |items| ==> items[k].app != app
    ensures OfApp(items, app) == []
  {
    if items != [] {
      NoItemsOfApp(items[1..], app);
    }
  }

  /** A dump reaches the exporter whole: whatever the order of its files and the fate of the
      pushes, each application's share grows by exactly its entries of the dump, in order. */
  lemma {:induction false} DumpReachesExporter<T>(x: Exporter<T>, items: seq<Filed<T>>, files: seq<HarFile<T>>,
                                                  events: seq<ExportEvent<T>>, max: int, app: string)
    requires IsSplit(files, items) && Feeds(events, files)
    ensures Kept(ExporterRun(x, events, max), app) == Kept(x, app) + OfApp(items, app)
  {
    ExporterConserves(x, events, max, app);
    if i :| 0 <= i < |files| && files[i].app == app {
      ReceivedOnce(events, files, i);
    } else {
      ReceivedAbsent(events, files, app);
      NoItemsOfApp(items, app);
    }
  }
}
