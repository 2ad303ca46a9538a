/**
 * OnlineSystemUpdater::GetSystemTitles and OnlineSystemUpdater::DoOnlineUpdate
 * as functions of the store state: the catalog request, then every listed
 * title in catalog order, each announced to the progress callback before
 * and after its install.
 */
module Update {
  import opened Types
  import opened Es
  import opened Trace
  import opened Catalog
  import opened Nus

  /** The progress callback: whether to go on after `processed` of `total`
      titles, `titleId` being the current one. */
  type Callback = (nat, nat, u64) -> bool

  /** Every catalog answer the server can give is one whose title ids
      std::stoull accepts, whenever ParseTitlesResponse gets as far as
      reading them. */
  predicate ParsableCatalog(env: Env) {
    forall key :: key in env.soap ==>
      var node := env.soap[key];
      node.errorCode == 0 && DowngradeScheme(node.contentPrefixUrl) != [] ==> ParsableTitles(node.titles)
  }

  /** The request GetSystemTitles posts: the device id, and the requested
      region or, when none was requested, the installed System Menu's. */
  function CatalogRequest(env: Env, requestedRegion: string, s: State): (string, string) {
    (GetDeviceId(env.deviceId), RequestRegion(requestedRegion, FindInstalledTmd(s, SYSTEM_MENU)))
  }

  /** OnlineSystemUpdater::GetSystemTitles: post the request, then parse the
      answer; a failed request gives the empty response. */
  function GetSystemTitles(env: Env, requestedRegion: string, s: State): (r: (Response, State))
    requires ParsableCatalog(env)
    ensures r.1 == Note(s, Post(CatalogRequest(env, requestedRegion, s).0, CatalogRequest(env, requestedRegion, s).1))
  {
    var request := CatalogRequest(env, requestedRegion, s);
    var node := if request in env.soap then Some(env.soap[request]) else None;
    (ParseTitlesResponse(node), Note(s, Post(request.0, request.1)))
  }

  /** What the loop does with one title, given the titles updated so far
      and the state: OnlineSystemUpdater::InstallTitleFromNUS with the
      catalog's content prefix. */
  type Installer = (TitleInfo, set<u64>, State) -> Outcome

  /** What the loop relies on from one install: it leaves no import open,
      ends with Succeeded, ImportFailed or DownloadFailed, keeps the
      signature-check flag, keeps every installed and updated title, only
      adds store calls and requests to the trace, and changes nothing for a
      title it skips. */
  predicate InstallOk(title: TitleInfo, updated: set<u64>, s: State, o: Outcome) {
    && !o.state.Open()
    && o.result in {Succeeded, ImportFailed, DownloadFailed}
    && Grows(s, updated, o.state, o.updated)
    && InstallRun(s.log, o.state.log)
    && (Skipped(s, title, updated) ==> o == Outcome(Succeeded, updated, s))
  }

  ghost predicate Installs(install: Installer) {
    forall title: TitleInfo, updated: set<u64>, s: State :: !s.Open() ==> InstallOk(title, updated, s, install(title, updated, s))
  }

  /** InstallTitleFromNUS under the content prefix `prefix`. The loop never
      hands it a state with an import open; that case is given a failure
      only so that the installer is total. */
  function FromNus(env: Env, prefix: string, fuel: nat): (install: Installer)
    ensures Installs(install)
  {
    (title: TitleInfo, updated: set<u64>, s: State) =>
      if s.Open() then Outcome(ImportFailed, updated, s) else InstallTitle(env, prefix, title, updated, s, fuel)
  }

  /** The loop of OnlineSystemUpdater::DoOnlineUpdate from the `i`-th title
      on: report (i, N, id) and stop with Cancelled if the callback says no,
      install the title and stop at the first result other than Succeeded,
      report (i + 1, N, id); at the end, AlreadyUpToDate when no title was
      updated and Succeeded otherwise. So it ends with Succeeded or
      AlreadyUpToDate only after the last title, the first when some title
      was updated and the second when none was; any other result is a failed
      install or a cancel. It keeps the signature-check flag, only extends
      the trace and never removes an installed or updated title. */
  function UpdateLoop(install: Installer, titles: seq<TitleInfo>, i: nat, callback: Callback,
                      updated: set<u64>, s: State): (r: Outcome)
    requires Installs(install) && i <= |titles| && !s.Open()
    ensures !r.state.Open() && Grows(s, updated, r.state, r.updated)
    ensures r.result in {Succeeded, AlreadyUpToDate, ImportFailed, DownloadFailed, Cancelled}
    ensures r.result == Succeeded ==> r.updated != {}
    ensures r.result == AlreadyUpToDate ==> r.updated == {}
    decreases |titles| - i
  {
    if i == |titles| then
      GrowsRefl(s, updated);
      Outcome(if updated == {} then AlreadyUpToDate else Succeeded, updated, s)
    else
      var id := titles[i].id;
      var s1 := Note(s, Progress(i, |titles|, id));
      GrowsNote(s, updated, Progress(i, |titles|, id));
      if !callback(i, |titles|, id) then Outcome(Cancelled, updated, s1)
      else
        var o := install(titles[i], updated, s1);
        GrowsTrans(s, updated, s1, updated, o.state, o.updated);
        if o.result != Succeeded then o
        else
          var s2 := Note(o.state, Progress(i + 1, |titles|, id));
          GrowsNote(o.state, o.updated, Progress(i + 1, |titles|, id));
          GrowsTrans(s, updated, o.state, o.updated, s2, o.updated);
          var r := UpdateLoop(install, titles, i + 1, callback, o.updated, s2);
          GrowsTrans(s, updated, s2, o.updated, r.state, r.updated);
          r
  }

  /** OnlineSystemUpdater::DoOnlineUpdate: an empty catalog is ServerFailed;
      otherwise the loop runs from the first title with nothing updated yet,
      installing from the catalog's content prefix. */
  function DoOnlineUpdateSpec(env: Env, requestedRegion: string, callback: Callback, s: State, fuel: nat): (r: Outcome)
    requires ParsableCatalog(env) && !s.Open()
    ensures !r.state.Open()
  {
    var (info, s1) := GetSystemTitles(env, requestedRegion, s);
    if info.titles == [] then Outcome(ServerFailed, {}, s1)
    else UpdateLoop(FromNus(env, info.contentPrefixUrl, fuel), info.titles, 0, callback, {}, s1)
  }

  /** WiiUtils::DoOnlineUpdate: the update, then a flush of the content
      cache whatever the update's result. */
  function OnlineUpdate(env: Env, requestedRegion: string, callback: Callback, s: State, fuel: nat): (r: (UpdateResult, State))
    requires ParsableCatalog(env) && !s.Open()
    ensures !r.1.Open()
  {
    var o := DoOnlineUpdateSpec(env, requestedRegion, callback, s, fuel);
    (o.result, Note(o.state, CacheCleared))
  }

  // ---- the catalog request -------------------------------------------

  /** GetSystemTitles posts one request and nothing else. It carries an empty
      device id exactly when the store has none, and the requested region,
      or when none was requested the installed System Menu's region (empty
      exactly when no System Menu is installed). A request the server does
      not answer gives the empty response, and a non-empty title list comes
      from an answer with error code 0 and a non-empty prefix, one title per
      listed node. */
  lemma GetSystemTitlesMeaning(env: Env, requestedRegion: string, s: State)
    requires ParsableCatalog(env)
    ensures var r := GetSystemTitles(env, requestedRegion, s);
      var request := CatalogRequest(env, requestedRegion, s);
      && Added(s.log, r.1.log) == [Post(request.0, request.1)]
      && (request.0 == "" <==> env.deviceId.None?)
      && (requestedRegion != [] ==> request.1 == requestedRegion)
      && (requestedRegion == [] ==> (request.1 == "" <==> SYSTEM_MENU !in s.installed))
      && (request !in env.soap ==> r.0 == EmptyResponse)
      && (r.0.titles != [] ==>
            && request in env.soap && env.soap[request].errorCode == 0
            && r.0.contentPrefixUrl != [] && |r.0.titles| == |env.soap[request].titles|)
  {
    var request := CatalogRequest(env, requestedRegion, s);
    var node := if request in env.soap then Some(env.soap[request]) else None;
    ParseTitlesResponseMeaning(node);
  }

  // ---- progress reports ----------------------------------------------

  /** The progress reports of titles `i` to `j - 1` when each was installed:
      (k, N, id) before title k and (k + 1, N, id) after it. */
  function Reports(titles: seq<TitleInfo>, i: nat, j: nat): seq<Event>
    requires i <= j <= |titles|
    decreases j - i
  {
    if i == j then []
    else [Progress(i, |titles|, titles[i].id), Progress(i + 1, |titles|, titles[i].id)] + Reports(titles, i + 1, j)
  }

  /** The reports around an install that reports nothing itself. */
  lemma ProgressesAround(p: Event, mid: seq<Event>, q: Event, rest: seq<Event>)
    requires p.Progress? && q.Progress? && Progresses(mid) == []
    ensures Progresses([p] + mid + [q] + rest) == [p, q] + Progresses(rest)
  {
    FilterSingle(p, IsProgress);
    FilterSingle(q, IsProgress);
    FilterAppend([p], mid, IsProgress);
    FilterAppend([p] + mid, [q], IsProgress);
    FilterAppend([p] + mid + [q], rest, IsProgress);
  }

  /** What one title adds: its first report, its install, its second report,
      then the rest of the loop. */
  lemma AddedAround(l0: seq<Event>, l1: seq<Event>, l2: seq<Event>, l3: seq<Event>, l4: seq<Event>, p: Event, q: Event)
    requires l1 == l0 + [p] && Extends(l1, l2) && l3 == l2 + [q] && Extends(l3, l4)
    ensures Extends(l0, l4)
    ensures Added(l0, l4) == [p] + Added(l1, l2) + [q] + Added(l3, l4)
  {
    assert Added(l0, l1) == [p];
    assert Added(l2, l3) == [q];
    AddedAppend(l0, l1, l2);
    AddedAppend(l0, l2, l3);
    AddedAppend(l0, l3, l4);
  }

  // ---- the update loop -----------------------------------------------

  /** A loop that reaches its end reported every title from `i` on, with
      (k, N, id) before title k and (k + 1, N, id) after it. */
  lemma {:induction false} UpdateLoopReports(install: Installer, titles: seq<TitleInfo>, i: nat, callback: Callback,
                                             updated: set<u64>, s: State)
    requires Installs(install) && i <= |titles| && !s.Open()
    ensures var r := UpdateLoop(install, titles, i, callback, updated, s);
      r.result in {Succeeded, AlreadyUpToDate} ==> Progresses(Added(s.log, r.state.log)) == Reports(titles, i, |titles|)
    decreases |titles| - i
  {
    if i == |titles| {
      assert Added(s.log, s.log) == [];
    } else {
      var id := titles[i].id;
      var p := Progress(i, |titles|, id);
      var s1 := Note(s, p);
      if callback(i, |titles|, id) {
        var o := install(titles[i], updated, s1);
        if o.result == Succeeded {
          var q := Progress(i + 1, |titles|, id);
          var s2 := Note(o.state, q);
          UpdateLoopReports(install, titles, i + 1, callback, o.updated, s2);
          var r := UpdateLoop(install, titles, i + 1, callback, o.updated, s2);
          InstallEventsNoProgress(Added(s1.log, o.state.log));
          ReportsThen(s.log, s1.log, o.state.log, s2.log, r.state.log, p, q);
        }
      }
    }
  }

  /** The reports of a title that installed, followed by the rest of the loop. */
  lemma ReportsThen(l0: seq<Event>, l1: seq<Event>, l2: seq<Event>, l3: seq<Event>, l4: seq<Event>, p: Event, q: Event)
    requires l1 == l0 + [p] && Extends(l1, l2) && Progresses(Added(l1, l2)) == []
    requires l3 == l2 + [q] && Extends(l3, l4) && p.Progress? && q.Progress?
    ensures Extends(l0, l4) && Progresses(Added(l0, l4)) == [p, q] + Progresses(Added(l3, l4))
  {
    AddedAround(l0, l1, l2, l3, l4, p, q);
    ProgressesAround(p, Added(l1, l2), q, Added(l3, l4));
  }

  /** The reports of a title that stops the loop: its first report, then an
      install (if any) that reports nothing. */
  lemma ReportsStop(l0: seq<Event>, l1: seq<Event>, l2: seq<Event>, p: Event)
    requires l1 == l0 + [p] && p.Progress? && Extends(l1, l2) && Progresses(Added(l1, l2)) == []
    ensures Extends(l0, l2) && Progresses(Added(l0, l2)) == [p]
  {
    AddedAppend(l0, l1, l2);
    assert Added(l0, l1) == [p];
    FilterSingle(p, IsProgress);
    FilterAppend([p], Added(l1, l2), IsProgress);
  }

  /** `reports` are those of a loop from title `i` that stopped at title `k`:
      full reports for the titles before it, then the first report for `k`;
      the result is Cancelled exactly when the callback said no to it. */
  predicate StoppedAt(reports: seq<Event>, titles: seq<TitleInfo>, i: nat, k: nat, result: UpdateResult, callback: Callback) {
    && i <= k < |titles|
    && reports == Reports(titles, i, k) + [Progress(k, |titles|, titles[k].id)]
    && (result == Cancelled <==> !callback(k, |titles|, titles[k].id))
  }

  /** Full reports for title `i` in front of a loop from `i + 1` that stopped. */
  lemma StoppedAtCons(reports: seq<Event>, titles: seq<TitleInfo>, i: nat, k: nat, result: UpdateResult, callback: Callback)
    requires i < |titles| && StoppedAt(reports, titles, i + 1, k, result, callback)
    ensures StoppedAt([Progress(i, |titles|, titles[i].id), Progress(i + 1, |titles|, titles[i].id)] + reports,
                      titles, i, k, result, callback)
  {
  }

  /** A loop that stops does so at some title k, after full reports for the
      titles before it and the first report for k; it was cancelled exactly
      when the callback said no to that report, and otherwise the install of
      title k failed. */
  lemma {:induction false} UpdateLoopStops(install: Installer, titles: seq<TitleInfo>, i: nat, callback: Callback,
                                           updated: set<u64>, s: State)
    requires Installs(install) && i <= |titles| && !s.Open()
    ensures var r := UpdateLoop(install, titles, i, callback, updated, s);
      r.result !in {Succeeded, AlreadyUpToDate} ==>
        exists k :: StoppedAt(Progresses(Added(s.log, r.state.log)), titles, i, k, r.result, callback)
    decreases |titles| - i
  {
    if i < |titles| {
      var id := titles[i].id;
      var p := Progress(i, |titles|, id);
      var s1 := Note(s, p);
      if !callback(i, |titles|, id) {
        ReportsStop(s.log, s1.log, s1.log, p);
        assert StoppedAt([p], titles, i, i, Cancelled, callback);
      } else {
        var o := install(titles[i], updated, s1);
        InstallEventsNoProgress(Added(s1.log, o.state.log));
        if o.result != Succeeded {
          ReportsStop(s.log, s1.log, o.state.log, p);
          assert StoppedAt([p], titles, i, i, o.result, callback);
        } else {
          var q := Progress(i + 1, |titles|, id);
          var s2 := Note(o.state, q);
          UpdateLoopStops(install, titles, i + 1, callback, o.updated, s2);
          var r := UpdateLoop(install, titles, i + 1, callback, o.updated, s2);
          if r.result !in {Succeeded, AlreadyUpToDate} {
            ReportsThen(s.log, s1.log, o.state.log, s2.log, r.state.log, p, q);
            var k :| StoppedAt(Progresses(Added(s2.log, r.state.log)), titles, i + 1, k, r.result, callback);
            StoppedAtCons(Progresses(Added(s2.log, r.state.log)), titles, i, k, r.result, callback);
          }
        }
      }
    }
  }

  /** The loop from title `i`, started in `s` with `updated`, stopped at
      title `k`. `sk` is the state just after the first report for `k`,
      reached with every earlier title fully reported, and `u` the titles
      updated by then. When the callback refused `k`, the loop ends right
      there as Cancelled. Otherwise it ends with the install of title `k`,
      which failed, and returns that install's outcome unchanged. */
  predicate StopsAfter(install: Installer, titles: seq<TitleInfo>, i: nat, k: nat, callback: Callback,
                       s: State, updated: set<u64>, sk: State, u: set<u64>, r: Outcome) {
    && i <= k < |titles|
    && Extends(s.log, sk.log) && |s.log| < |sk.log| && !sk.Open() && updated <= u
    && sk.log[|sk.log| - 1] == Progress(k, |titles|, titles[k].id)
    && Progresses(Added(s.log, sk.log)) == Reports(titles, i, k) + [Progress(k, |titles|, titles[k].id)]
    && (!callback(k, |titles|, titles[k].id) ==> r == Outcome(Cancelled, u, sk))
    && (callback(k, |titles|, titles[k].id) ==> r == install(titles[k], u, sk) && r.result != Succeeded)
  }

  /** A loop that does not complete stopped at some title `k`, either
      cancelled right after its first report or with the failed outcome of
      its install. */
  lemma {:induction false} UpdateLoopStopsAt(install: Installer, titles: seq<TitleInfo>, i: nat, callback: Callback,
                                             updated: set<u64>, s: State)
    requires Installs(install) && i <= |titles| && !s.Open()
    ensures var r := UpdateLoop(install, titles, i, callback, updated, s);
      r.result !in {Succeeded, AlreadyUpToDate} ==>
        exists k, sk, u :: StopsAfter(install, titles, i, k, callback, s, updated, sk, u, r)
    decreases |titles| - i, 1
  {
    if i < |titles| {
      var id := titles[i].id;
      var s1 := Note(s, Progress(i, |titles|, id));
      if !callback(i, |titles|, id) || install(titles[i], updated, s1).result != Succeeded {
        StopsAtFirst(install, titles, i, callback, updated, s);
      } else {
        StopsLater(install, titles, i, callback, updated, s);
      }
    }
  }

  /** The loop stops at title `i` itself. */
  lemma StopsAtFirst(install: Installer, titles: seq<TitleInfo>, i: nat, callback: Callback,
                     updated: set<u64>, s: State)
    requires Installs(install) && i < |titles| && !s.Open()
    requires var s1 := Note(s, Progress(i, |titles|, titles[i].id));
      !callback(i, |titles|, titles[i].id) || install(titles[i], updated, s1).result != Succeeded
    ensures StopsAfter(install, titles, i, i, callback, s, updated, Note(s, Progress(i, |titles|, titles[i].id)), updated,
                       UpdateLoop(install, titles, i, callback, updated, s))
  {
    FirstReport(s, Progress(i, |titles|, titles[i].id));
  }

  /** Title `i` installs, so a stop comes later. */
  lemma {:induction false} StopsLater(install: Installer, titles: seq<TitleInfo>, i: nat, callback: Callback,
                                      updated: set<u64>, s: State)
    requires Installs(install) && i < |titles| && !s.Open()
    requires var s1 := Note(s, Progress(i, |titles|, titles[i].id));
      callback(i, |titles|, titles[i].id) && install(titles[i], updated, s1).result == Succeeded
    ensures var r := UpdateLoop(install, titles, i, callback, updated, s);
      r.result !in {Succeeded, AlreadyUpToDate} ==>
        exists k, sk, u :: StopsAfter(install, titles, i, k, callback, s, updated, sk, u, r)
    decreases |titles| - i, 0
  {
    var id := titles[i].id;
    var p := Progress(i, |titles|, id);
    var s1 := Note(s, p);
    var o := install(titles[i], updated, s1);
    var q := Progress(i + 1, |titles|, id);
    var s2 := Note(o.state, q);
    var r := UpdateLoop(install, titles, i + 1, callback, o.updated, s2);
    assert UpdateLoop(install, titles, i, callback, updated, s) == r;
    UpdateLoopStopsAt(install, titles, i + 1, callback, o.updated, s2);
    if r.result !in {Succeeded, AlreadyUpToDate} {
      var k, sk, u :| StopsAfter(install, titles, i + 1, k, callback, s2, o.updated, sk, u, r);
      StopsAfterCons(install, titles, i, k, callback, s, updated, o, sk, u, r);
    }
  }

  /** A stop after title `i + 1` on, behind a title `i` that installed, is a
      stop of the loop from `i`. */
  lemma StopsAfterCons(install: Installer, titles: seq<TitleInfo>, i: nat, k: nat, callback: Callback,
                       s: State, updated: set<u64>, o: Outcome, sk: State, u: set<u64>, r: Outcome)
    requires i < |titles|
    requires var s1 := Note(s, Progress(i, |titles|, titles[i].id));
      InstallOk(titles[i], updated, s1, o) && o.result == Succeeded
    requires StopsAfter(install, titles, i + 1, k, callback, Note(o.state, Progress(i + 1, |titles|, titles[i].id)),
                        o.updated, sk, u, r)
    ensures StopsAfter(install, titles, i, k, callback, s, updated, sk, u, r)
  {
    var p := Progress(i, |titles|, titles[i].id);
    var q := Progress(i + 1, |titles|, titles[i].id);
    var s1 := Note(s, p);
    var s2 := Note(o.state, q);
    InstallEventsNoProgress(Added(s1.log, o.state.log));
    ReportsThen(s.log, s1.log, o.state.log, s2.log, sk.log, p, q);
  }

  /** The trace after the first report of a title holds just that report. */
  lemma FirstReport(s: State, p: Event)
    requires p.Progress?
    ensures Extends(s.log, Note(s, p).log) && Added(s.log, Note(s, p).log) == [p]
    ensures Progresses(Added(s.log, Note(s, p).log)) == [p]
  {
    FilterSingle(p, IsProgress);
  }

  /** When the callback agrees to every title from `i` on and each of them is
      skipped in the store `base` that `s` shows, the loop installs nothing:
      the state is the same but for the two reports per title, nothing more
      is updated, and the result is AlreadyUpToDate exactly when nothing was
      updated before. */
  lemma {:induction false} UpdateLoopNothingToDo(install: Installer, titles: seq<TitleInfo>, i: nat, callback: Callback,
                                                 updated: set<u64>, s: State, base: State)
    requires Installs(install) && i <= |titles| && !s.Open() && s == base.(log := s.log)
    requires forall k :: i <= k < |titles| ==> callback(k, |titles|, titles[k].id) && Skipped(base, titles[k], updated)
    ensures var r := UpdateLoop(install, titles, i, callback, updated, s);
      && r.state == s.(log := s.log + Reports(titles, i, |titles|))
      && r.updated == updated
      && (r.result == AlreadyUpToDate <==> updated == {})
      && (r.result == Succeeded <==> updated != {})
    decreases |titles| - i
  {
    if i == |titles| {
      assert s.log + [] == s.log;
    } else {
      var id := titles[i].id;
      var p := Progress(i, |titles|, id);
      var q := Progress(i + 1, |titles|, id);
      var s1 := Note(s, p);
      SkippedLogOnly(base, s1, titles[i], updated);
      var s2 := Note(s1, q);
      assert UpdateLoop(install, titles, i, callback, updated, s)
          == UpdateLoop(install, titles, i + 1, callback, updated, s2);
      UpdateLoopNothingToDo(install, titles, i + 1, callback, updated, s2, base);
      ReportsCons(s.log, titles, i);
    }
  }

  /** Two reports for title `i`, then those of the rest. */
  lemma ReportsCons(l: seq<Event>, titles: seq<TitleInfo>, i: nat)
    requires i < |titles|
    ensures l + [Progress(i, |titles|, titles[i].id)] + [Progress(i + 1, |titles|, titles[i].id)] + Reports(titles, i + 1, |titles|)
         == l + Reports(titles, i, |titles|)
  {
  }

  /** Whether a title is skipped does not depend on the trace. */
  lemma SkippedLogOnly(s: State, s': State, title: TitleInfo, updated: set<u64>)
    requires s' == s.(log := s'.log)
    ensures Skipped(s', title, updated) == Skipped(s, title, updated)
  {
    assert FindInstalledTmd(s', title.id) == FindInstalledTmd(s, title.id);
  }

  // ---- the whole update ----------------------------------------------

  /** DoOnlineUpdate first posts the catalog request. An empty catalog gives
      ServerFailed and nothing else happens; ServerFailed means an empty
      catalog. Otherwise the result is that of the loop over the catalog's
      titles, so every reachable result is one the loop describes, and
      Succeeded means some title was updated and AlreadyUpToDate that none
      was. */
  lemma DoOnlineUpdateOutcome(env: Env, requestedRegion: string, callback: Callback, s: State, fuel: nat)
    requires ParsableCatalog(env) && !s.Open()
    ensures var r := DoOnlineUpdateSpec(env, requestedRegion, callback, s, fuel);
      var request := CatalogRequest(env, requestedRegion, s);
      var (info, s1) := GetSystemTitles(env, requestedRegion, s);
      && Extends(s1.log, r.state.log)
      && s1.log == s.log + [Post(request.0, request.1)]
      && (r.result == ServerFailed <==> info.titles == [])
      && (r.result == ServerFailed ==> r.state == s1 && r.updated == {})
      && (r.result == Succeeded ==> r.updated != {})
      && (r.result == AlreadyUpToDate ==> r.updated == {})
      && r.state.sigChecks == s.sigChecks && s.installed.Keys <= r.state.installed.Keys
  {
  }

  /** A non-empty catalog whose every title is already up to date (or boot2),
      with a callback that agrees to each, gives AlreadyUpToDate: the store
      is left as it was and the trace holds the request and the reports. */
  lemma DoOnlineUpdateUpToDate(env: Env, requestedRegion: string, callback: Callback, s: State, fuel: nat)
    requires ParsableCatalog(env) && !s.Open()
    requires var titles := GetSystemTitles(env, requestedRegion, s).0.titles;
      titles != [] && forall k :: 0 <= k < |titles| ==> callback(k, |titles|, titles[k].id) && Skipped(s, titles[k], {})
    ensures var r := DoOnlineUpdateSpec(env, requestedRegion, callback, s, fuel);
      var (info, s1) := GetSystemTitles(env, requestedRegion, s);
      r.result == AlreadyUpToDate && r.state == s1.(log := s1.log + Reports(info.titles, 0, |info.titles|))
  {
    var (info, s1) := GetSystemTitles(env, requestedRegion, s);
    UpdateLoopNothingToDo(FromNus(env, info.contentPrefixUrl, fuel), info.titles, 0, callback, {}, s1, s);
  }

  /** The full run returns the updater's result and leaves its store as the
      updater left it. The content cache is flushed exactly once, as the
      very last event, whatever the result: nothing before it in the run
      is a flush. */
  lemma OnlineUpdateClears(env: Env, requestedRegion: string, callback: Callback, s: State, fuel: nat)
    requires ParsableCatalog(env) && !s.Open()
    ensures var r := OnlineUpdate(env, requestedRegion, callback, s, fuel);
      var o := DoOnlineUpdateSpec(env, requestedRegion, callback, s, fuel);
      && r.0 == o.result
      && r.1.installed == o.state.installed && r.1.stored == o.state.stored && r.1.sigChecks == s.sigChecks
      && |s.log| < |r.1.log| && r.1.log[..|s.log|] == s.log
      && r.1.log[|r.1.log| - 1] == CacheCleared
      && forall k :: |s.log| <= k < |r.1.log| - 1 ==> r.1.log[k] != CacheCleared
  {
    var o := DoOnlineUpdateSpec(env, requestedRegion, callback, s, fuel);
    var request := CatalogRequest(env, requestedRegion, s);
    DoOnlineUpdateOutcome(env, requestedRegion, callback, s, fuel);
    DoOnlineUpdateRun(env, requestedRegion, callback, s, fuel);
    FlushedOnce(s.log, Post(request.0, request.1), o.state.log);
  }

  /** After the catalog request, DoOnlineUpdate adds only loop events. */
  lemma DoOnlineUpdateRun(env: Env, requestedRegion: string, callback: Callback, s: State, fuel: nat)
    requires ParsableCatalog(env) && !s.Open()
    ensures LoopRun(GetSystemTitles(env, requestedRegion, s).1.log,
                    DoOnlineUpdateSpec(env, requestedRegion, callback, s, fuel).state.log)
  {
    var (info, s1) := GetSystemTitles(env, requestedRegion, s);
    if info.titles != [] {
      UpdateLoopRun(FromNus(env, info.contentPrefixUrl, fuel), info.titles, 0, callback, {}, s1);
    }
  }

  /** A run of loop events after one other event, closed by a flush, holds
      that flush once. */
  lemma FlushedOnce(l0: seq<Event>, post: Event, l1: seq<Event>)
    requires post != CacheCleared && LoopRun(l0 + [post], l1)
    ensures var l := l1 + [CacheCleared];
      && |l0| < |l| && l[..|l0|] == l0 && l[|l| - 1] == CacheCleared
      && forall k :: |l0| <= k < |l| - 1 ==> l[k] != CacheCleared
  {
    var l := l1 + [CacheCleared];
    forall k | |l0| <= k < |l| - 1 ensures l[k] != CacheCleared {
      if k == |l0| {
        assert l[k] == (l0 + [post])[k];
      } else {
        assert LoopEvent(l1[k]);
      }
    }
    assert l[..|l0|] == l1[..|l0| + 1][..|l0|];
  }

  // ---- what the loop adds to the trace --------------------------------

  /** An event the update loop adds itself or through an install: a store
      call, a request or a progress report. */
  predicate LoopEvent(e: Event) {
    IsStoreCall(e) || IsGet(e) || IsProgress(e)
  }

  /** From `before` to `after` the trace only grew, by loop events. */
  predicate LoopRun(before: seq<Event>, after: seq<Event>) {
    Extends(before, after) && forall k :: |before| <= k < |after| ==> LoopEvent(after[k])
  }

  lemma LoopRunOfInstall(l0: seq<Event>, l1: seq<Event>)
    requires InstallRun(l0, l1)
    ensures LoopRun(l0, l1)
  {
    forall k | |l0| <= k < |l1| ensures LoopEvent(l1[k]) {
      assert l1[k] == Added(l0, l1)[k - |l0|];
    }
  }

  lemma LoopRunThen(l0: seq<Event>, l1: seq<Event>, l2: seq<Event>)
    requires LoopRun(l0, l1) && LoopRun(l1, l2)
    ensures LoopRun(l0, l2)
  {
    assert l2[..|l0|] == l2[..|l1|][..|l0|];
  }

  lemma LoopRunStep(l0: seq<Event>, e: Event)
    requires LoopEvent(e)
    ensures LoopRun(l0, l0 + [e])
  {
  }

  /** The update loop adds only store calls, requests and progress reports. */
  lemma {:induction false} UpdateLoopRun(install: Installer, titles: seq<TitleInfo>, i: nat, callback: Callback,
                                         updated: set<u64>, s: State)
    requires Installs(install) && i <= |titles| && !s.Open()
    ensures LoopRun(s.log, UpdateLoop(install, titles, i, callback, updated, s).state.log)
    decreases |titles| - i, 1
  {
    if i == |titles| {
    } else {
      var p := Progress(i, |titles|, titles[i].id);
      var s1 := Note(s, p);
      LoopRunStep(s.log, p);
      if callback(i, |titles|, titles[i].id) {
        var o := install(titles[i], updated, s1);
        LoopRunOfInstall(s1.log, o.state.log);
        LoopRunThen(s.log, s1.log, o.state.log);
        if o.result == Succeeded {
          LoopRunLater(install, titles, i, callback, updated, s);
        }
      }
    }
  }

  /** Title `i` installed: its reports and install, then the rest of the loop. */
  lemma {:induction false} LoopRunLater(install: Installer, titles: seq<TitleInfo>, i: nat, callback: Callback,
                                        updated: set<u64>, s: State)
    requires Installs(install) && i < |titles| && !s.Open()
    requires var s1 := Note(s, Progress(i, |titles|, titles[i].id));
      callback(i, |titles|, titles[i].id) && install(titles[i], updated, s1).result == Succeeded
    ensures LoopRun(s.log, UpdateLoop(install, titles, i, callback, updated, s).state.log)
    decreases |titles| - i, 0
  {
    var p := Progress(i, |titles|, titles[i].id);
    var s1 := Note(s, p);
    var o := install(titles[i], updated, s1);
    var q := Progress(i + 1, |titles|, titles[i].id);
    var s2 := Note(o.state, q);
    var r := UpdateLoop(install, titles, i + 1, callback, o.updated, s2);
    assert UpdateLoop(install, titles, i, callback, updated, s).state == r.state;
    UpdateLoopRun(install, titles, i + 1, callback, o.updated, s2);
    LoopRunCons(s.log, p, o.state.log, q, r.state.log);
  }

  /** A report, an install, a report and a loop run make a loop run. */
  lemma LoopRunCons(l0: seq<Event>, p: Event, l1: seq<Event>, q: Event, l2: seq<Event>)
    requires IsProgress(p) && IsProgress(q)
    requires InstallRun(l0 + [p], l1) && LoopRun(l1 + [q], l2)
    ensures LoopRun(l0, l2)
  {
    LoopRunStep(l0, p);
    LoopRunOfInstall(l0 + [p], l1);
    LoopRunThen(l0, l0 + [p], l1);
    LoopRunStep(l1, q);
    LoopRunThen(l0, l1, l1 + [q]);
    LoopRunThen(l0, l1 + [q], l2);
  }
}
