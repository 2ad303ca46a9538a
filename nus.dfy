/**
 * OnlineSystemUpdater::InstallTitleFromNUS and its download helpers as
 * functions of the store state: what one title install downloads, what it
 * asks the store to do, in which order, and what it reports.
 */
module Nus {
  import opened Types
  import opened Es
  import opened Trace
  import opened Download
  import opened Catalog

  /** What the engine takes from outside the store: the answers of the
      content server (URL to body; a missing URL is a failed request), the
      parsed answers of the update catalog (keyed by device id and region; a
      missing key is a failed or unparsable request), the TMD reader, and the
      console's device id (`None` when the store cannot report one). */
  datatype Env = Env(
    http: map<string, bytes>,
    soap: map<(string, string), ResponseNode>,
    readTmd: bytes -> Tmd,
    deviceId: Option<u32>)

  /** The result of an install, the set of titles updated so far and the state. */
  datatype Outcome = Outcome(result: UpdateResult, updated: set<u64>, state: State)

  // ---- downloads -----------------------------------------------------

  /** DownloadTicket: the ticket and the certificate chain after it, or two
      empty vectors. */
  function DownloadTicketSpec(env: Env, prefix: string, title: TitleInfo, s: State): (r: ((bytes, bytes), State))
    ensures r.1 == Note(s, Get(TicketUrl(prefix, title.id)))
    ensures var url := TicketUrl(prefix, title.id);
      && (r.0.0 != [] <==> url in env.http && |env.http[url]| > TICKET_SIZE)
      && (r.0.0 != [] <==> r.0.1 != [])
      && (r.0.0 != [] ==> |r.0.0| == TICKET_SIZE && r.0.0 + r.0.1 == env.http[url])
  {
    var (response, s1) := HttpGet(s, env.http, TicketUrl(prefix, title.id));
    (SplitTicket(response), s1)
  }

  /** DownloadTMD: the TMD bytes and the certificate chain after them, or
      `None` for an invalid reader. */
  function DownloadTmdSpec(env: Env, prefix: string, title: TitleInfo, s: State): (r: (Option<(bytes, bytes)>, State))
    ensures r.1 == Note(s, Get(TmdUrl(prefix, title)))
    ensures var url := TmdUrl(prefix, title);
      && (r.0.Some? <==> url in env.http && |env.http[url]| > TMD_HEADER_SIZE
                         && |env.http[url]| > ClaimedTmdSize(env.http[url]))
      && (r.0.Some? ==> && |r.0.value.0| == ClaimedTmdSize(env.http[url])
                        && r.0.value.0 + r.0.value.1 == env.http[url])
  {
    var (response, s1) := HttpGet(s, env.http, TmdUrl(prefix, title));
    (SplitTmd(response), s1)
  }

  /** DownloadContent: the body of the content's URL, if the request succeeded. */
  function DownloadContentSpec(env: Env, prefix: string, title: TitleInfo, cid: u32, s: State): (r: (Option<bytes>, State))
    ensures r.1 == Note(s, Get(ContentUrl(prefix, title.id, cid)))
    ensures r.0.Some? <==> ContentUrl(prefix, title.id, cid) in env.http
    ensures r.0.Some? ==> r.0.value == env.http[ContentUrl(prefix, title.id, cid)]
  {
    HttpGet(s, env.http, ContentUrl(prefix, title.id, cid))
  }

  // ---- the content loop ----------------------------------------------

  /** Whether a content with this id is among `stored` (the find_if on the
      stored contents). */
  predicate HasId(stored: seq<Content>, id: u32) {
    id in Ids(stored)
  }

  /** The contents of `cs` that the loop fetches: those whose id is not
      among the stored ones, in order. */
  function Missing(cs: seq<Content>, stored: seq<Content>): (r: seq<Content>)
    ensures |r| <= |cs|
    ensures forall c :: c in r <==> c in cs && !HasId(stored, c.id)
  {
    if cs == [] then []
    else (if HasId(stored, cs[0].id) then [] else [cs[0]]) + Missing(cs[1..], stored)
  }

  /** One missing content: ImportContentBegin, then the download, then
      ImportContentData and ImportContentEnd; the first failure ends it. */
  function FetchOne(env: Env, prefix: string, title: TitleInfo, c: Content, s: State): (r: (UpdateResult, State))
    requires s.Idle()
    ensures r.0 in {Succeeded, ImportFailed, DownloadFailed}
    ensures r.1.Open() && (r.0 == Succeeded ==> r.1.Idle())
    ensures r.1.installed == s.installed && r.1.stored == s.stored && r.1.sigChecks == s.sigChecks
    ensures r.1.context.value.tmd == s.context.value.tmd
    ensures r.0 == Succeeded ==> r.1.context.value.imported == s.context.value.imported + [c.id]
    ensures Extends(s.log, r.1.log) && |s.log| < |r.1.log|
  {
    var (rc, s1) := EsImportContentBegin(s, title.id, c.id);
    if rc < 0 then (ImportFailed, s1)
    else
      var (data, s2) := DownloadContentSpec(env, prefix, title, c.id, s1);
      if data.None? then (DownloadFailed, s2)
      else
        var (rc2, s3) := EsImportContentData(s2, data.value);
        if rc2 < 0 then (ImportFailed, s3)
        else
          var (rc3, s4) := EsImportContentEnd(s3);
          (if rc3 < 0 then ImportFailed else Succeeded, s4)
  }

  /** The content loop of InstallTitleFromNUS: contents already stored are
      skipped, the others fetched in TMD order until the first failure. */
  function ContentLoop(env: Env, prefix: string, title: TitleInfo, cs: seq<Content>, stored: seq<Content>, s: State)
    : (r: (UpdateResult, State))
    requires s.Idle()
    ensures r.0 in {Succeeded, ImportFailed, DownloadFailed}
    ensures r.1.Open() && (r.0 == Succeeded ==> r.1.Idle())
    ensures r.1.installed == s.installed && r.1.stored == s.stored && r.1.sigChecks == s.sigChecks
    ensures r.1.context.value.tmd == s.context.value.tmd
    ensures Extends(s.log, r.1.log)
    decreases |cs|
  {
    if cs == [] then (Succeeded, s)
    else if HasId(stored, cs[0].id) then ContentLoop(env, prefix, title, cs[1..], stored, s)
    else
      var (res, s1) := FetchOne(env, prefix, title, cs[0], s);
      if res != Succeeded then (res, s1)
      else ContentLoop(env, prefix, title, cs[1..], stored, s1)
  }

  // ---- one title -----------------------------------------------------

  /** From ImportTitleInit on: open the import, run the content loop,
      finalise, and on full success record the title as updated. */
  function ImportFromTmd(env: Env, prefix: string, title: TitleInfo, tmd: Tmd, updated: set<u64>, s: State): (r: Outcome)
    requires !s.Open()
    ensures !r.state.Open() && Grows(s, updated, r.state, r.updated) && InstallRun(s.log, r.state.log)
    ensures r.result in {Succeeded, ImportFailed, DownloadFailed}
    ensures r.updated == (if r.result == Succeeded then updated + {title.id} else updated)
  {
    var (rc, s1) := EsImportTitleInit(s, tmd);
    InstallRunRefl(s.log);
    InstallRunStep(s.log, s.log, TitleInit(tmd.titleId, s.sigChecks, rc));
    if rc < 0 then Outcome(ImportFailed, updated, s1)
    else
      var (res, s2) := ContentLoop(env, prefix, title, tmd.contents, GetStoredContents(s1, tmd), s1);
      ContentLoopCalls(env, prefix, title, tmd.contents, GetStoredContents(s1, tmd), s1);
      FetchCallsInstallEvents(Added(s1.log, s2.log), prefix, title.id);
      InstallRunThen(s.log, s1.log, s2.log);
      var (rc2, s3) := FinalizeImport(s2, res == Succeeded);
      InstallRunStep(s.log, s2.log, if res == Succeeded then TitleDone(rc2) else TitleCancel(rc2));
      if rc2 < 0 then Outcome(ImportFailed, updated, s3)
      else if res != Succeeded then Outcome(res, updated, s3)
      else Outcome(Succeeded, updated + {title.id}, s3)
  }

  /** The no-op cases of InstallTitleFromNUS: boot2, a title already handled
      in this run, and a title installed at the target version or later with
      all its contents stored. */
  predicate Skipped(s: State, title: TitleInfo, updated: set<u64>) {
    title.id == BOOT2 || !ShouldInstallTitle(s, title) || title.id in updated
  }

  /** Whether a TMD's IOS must be installed first: a non-zero system title
      that is not installed. */
  predicate NeedsIos(s: State, iosId: u64) {
    iosId != 0 && IsSystemTitle(iosId) && iosId !in s.installed
  }

  /** The ticket step of InstallTitleFromNUS: download the ticket and its
      certificate chain, then import the ticket. */
  function TicketStep(env: Env, prefix: string, title: TitleInfo, s: State): (r: (UpdateResult, State))
    requires !s.Open()
    ensures r.0 in {Succeeded, ImportFailed, DownloadFailed}
    ensures !r.1.Open() && r.1.installed == s.installed && r.1.stored == s.stored && r.1.sigChecks == s.sigChecks
    ensures Extends(s.log, r.1.log) && InstallRun(s.log, r.1.log)
  {
    var (ticket, s1) := DownloadTicketSpec(env, prefix, title, s);
    InstallRunRefl(s.log);
    InstallRunStep(s.log, s.log, Get(TicketUrl(prefix, title.id)));
    if ticket.0 == [] || ticket.1 == [] then (DownloadFailed, s1)
    else
      var (rc, s2) := EsImportTicket(s1, ticket.0);
      InstallRunStep(s.log, s1.log, TicketImport(ticket.0, s.sigChecks, rc));
      (if rc < 0 then ImportFailed else Succeeded, s2)
  }

  /** OnlineSystemUpdater::InstallTitleFromNUS. A dependency is installed
      with one unit of `fuel` less; at zero fuel a needed dependency fails
      the install with ImportFailed. It reports only success, a failed
      download or a failed import; it keeps the signature-check flag, only
      extends the trace, never removes an installed title and never forgets
      an updated one. */
  function InstallTitle(env: Env, prefix: string, title: TitleInfo, updated: set<u64>, s: State, fuel: nat): (r: Outcome)
    requires !s.Open()
    ensures !r.state.Open()
    ensures r.result in {Succeeded, ImportFailed, DownloadFailed} && Grows(s, updated, r.state, r.updated)
    ensures InstallRun(s.log, r.state.log)
    ensures Skipped(s, title, updated) ==> r == Outcome(Succeeded, updated, s)
    decreases fuel, 2
  {
    InstallRunRefl(s.log);
    if Skipped(s, title, updated) then
      GrowsRefl(s, updated);
      Outcome(Succeeded, updated, s)
    else
      var (t, s2) := TicketStep(env, prefix, title, s);
      if t != Succeeded then Outcome(t, updated, s2)
      else
        var (split, s3) := DownloadTmdSpec(env, prefix, title, s2);
        AddedAppend(s.log, s2.log, s3.log);
        InstallRunStep(s.log, s2.log, Get(TmdUrl(prefix, title)));
        if split.None? then Outcome(DownloadFailed, updated, s3)
        else
          var r := InstallWithTmd(env, prefix, title, env.readTmd(split.value.0), updated, s3, fuel);
          GrowsTrans(s, updated, s3, updated, r.state, r.updated);
          InstallRunThen(s.log, s3.log, r.state.log);
          r
  }

  /** InstallTitleFromNUS after the TMD download: the IOS dependency, then the import. */
  function InstallWithTmd(env: Env, prefix: string, title: TitleInfo, tmd: Tmd, updated: set<u64>, s: State, fuel: nat)
    : (r: Outcome)
    requires !s.Open()
    ensures !r.state.Open()
    ensures r.result in {Succeeded, ImportFailed, DownloadFailed} && Grows(s, updated, r.state, r.updated)
    ensures InstallRun(s.log, r.state.log)
    decreases fuel, 1
  {
    var dep := RequireIos(env, prefix, tmd.iosId, updated, s, fuel);
    if dep.result != Succeeded then dep
    else
      var r := ImportFromTmd(env, prefix, title, tmd, dep.updated, dep.state);
      GrowsTrans(s, updated, dep.state, dep.updated, r.state, r.updated);
      InstallRunThen(s.log, dep.state.log, r.state.log);
      r
  }

  /** The dependency step: install the TMD's IOS (at version 0) when it is
      needed; otherwise nothing happens. */
  function RequireIos(env: Env, prefix: string, iosId: u64, updated: set<u64>, s: State, fuel: nat): (r: Outcome)
    requires !s.Open()
    ensures !r.state.Open()
    ensures r.result in {Succeeded, ImportFailed, DownloadFailed} && Grows(s, updated, r.state, r.updated)
    ensures InstallRun(s.log, r.state.log)
    ensures !NeedsIos(s, iosId) ==> r == Outcome(Succeeded, updated, s)
    ensures NeedsIos(s, iosId) && fuel == 0 ==> r == Outcome(ImportFailed, updated, s)
    decreases fuel, 0
  {
    if !NeedsIos(s, iosId) || fuel == 0 then
      GrowsRefl(s, updated);
      InstallRunRefl(s.log);
      Outcome(if NeedsIos(s, iosId) then ImportFailed else Succeeded, updated, s)
    else InstallTitle(env, prefix, TitleInfo(iosId, 0), updated, s, fuel - 1)
  }

  /** The three cases of the dependency step: nothing to do, no fuel left,
      or an install of the system title like any other. */
  lemma RequireIosCases(env: Env, prefix: string, iosId: u64, updated: set<u64>, s: State, fuel: nat, o: Outcome)
    requires !s.Open()
    requires !NeedsIos(s, iosId) ==> o == Outcome(Succeeded, updated, s)
    requires NeedsIos(s, iosId) && fuel == 0 ==> o == Outcome(ImportFailed, updated, s)
    requires NeedsIos(s, iosId) && fuel > 0 ==> o == InstallTitle(env, prefix, TitleInfo(iosId, 0), updated, s, fuel - 1)
    ensures o == RequireIos(env, prefix, iosId, updated, s, fuel)
  {
  }

  // ---- what every install keeps --------------------------------------

  /** From `s` to `s'` the signature-check flag is kept, the trace only
      grows, no installed title disappears and the updated set only grows. */
  predicate Grows(s: State, updated: set<u64>, s': State, updated': set<u64>) {
    && s'.sigChecks == s.sigChecks
    && Extends(s.log, s'.log)
    && s.installed.Keys <= s'.installed.Keys
    && updated <= updated'
  }

  lemma GrowsTrans(s1: State, u1: set<u64>, s2: State, u2: set<u64>, s3: State, u3: set<u64>)
    requires Grows(s1, u1, s2, u2) && Grows(s2, u2, s3, u3)
    ensures Grows(s1, u1, s3, u3)
  {
    assert s3.log[..|s1.log|] == s3.log[..|s2.log|][..|s1.log|];
  }

  lemma GrowsRefl(s: State, updated: set<u64>)
    ensures Grows(s, updated, s, updated)
  {
    assert s.log[..|s.log|] == s.log;
  }

  lemma GrowsNote(s: State, updated: set<u64>, e: Event)
    ensures Grows(s, updated, Note(s, e), updated)
  {
    assert Note(s, e).log[..|s.log|] == s.log;
  }

  // ---- the content loop's trace --------------------------------------

  /** The requests of the content loop for `cs`, in order. */
  function ContentGets(prefix: string, titleId: u64, cs: seq<Content>): (r: seq<Event>)
    ensures |r| == |cs|
    ensures forall i :: 0 <= i < |cs| ==> r[i] == Get(ContentUrl(prefix, titleId, cs[i].id))
  {
    if cs == [] then []
    else [Get(ContentUrl(prefix, titleId, cs[0].id))] + ContentGets(prefix, titleId, cs[1..])
  }

  /** The order a fetch keeps: only content calls and requests, every begin
      for this title, every request right after a successful begin and for
      that content's URL, every data import right after a request and every
      end right after a successful data import. */
  predicate FetchCalls(es: seq<Event>, prefix: string, titleId: u64) {
    forall k :: 0 <= k < |es| ==> FetchStep(es, k, prefix, titleId)
  }

  /** The condition on the `k`-th event of a fetch trace. */
  predicate FetchStep(es: seq<Event>, k: nat, prefix: string, titleId: u64)
    requires k < |es|
  {
      && (IsContentCall(es[k]) || es[k].Get?)
      && (es[k].ContentBegin? ==> es[k].titleId == titleId)
      && (es[k].Get? ==> 0 < k && es[k - 1].ContentBegin? && es[k - 1].rc >= 0
                         && es[k].url == ContentUrl(prefix, titleId, es[k - 1].contentId))
      && (es[k].ContentData? ==> 0 < k && es[k - 1].Get?)
      && (es[k].ContentEnd? ==> 0 < k && es[k - 1].ContentData? && es[k - 1].rc >= 0)
  }

  lemma FetchCallsAppend(a: seq<Event>, b: seq<Event>, prefix: string, titleId: u64)
    requires FetchCalls(a, prefix, titleId) && FetchCalls(b, prefix, titleId)
    ensures FetchCalls(a + b, prefix, titleId)
  {
    forall k | 0 <= k < |a| + |b|
      ensures FetchStep(a + b, k, prefix, titleId)
    {
      if k < |a| {
        assert FetchStep(a, k, prefix, titleId);
        assert (a + b)[k] == a[k];
        if 0 < k {
          assert (a + b)[k - 1] == a[k - 1];
        }
      } else {
        assert FetchStep(b, k - |a|, prefix, titleId);
        assert (a + b)[k] == b[k - |a|];
        if |a| < k {
          assert (a + b)[k - 1] == b[k - |a| - 1];
        }
      }
    }
  }

  /** The events of one fetch, as far as it got: a begin of `cid`, then
      (after a successful begin) the request for its URL, then a data import,
      then (after a successful data import) the end. */
  predicate FetchPrefix(a: seq<Event>, prefix: string, titleId: u64, cid: u32) {
    && 1 <= |a| <= 4
    && a[0].ContentBegin? && a[0].titleId == titleId && a[0].contentId == cid
    && (|a| > 1 ==> a[0].rc >= 0 && a[1] == Get(ContentUrl(prefix, titleId, cid)))
    && (|a| > 2 ==> a[2].ContentData?)
    && (|a| > 3 ==> a[2].rc >= 0 && a[3].ContentEnd?)
  }

  /** Such a prefix keeps the fetch order. */
  lemma FetchPrefixCalls(a: seq<Event>, prefix: string, titleId: u64, cid: u32)
    requires FetchPrefix(a, prefix, titleId, cid)
    ensures FetchCalls(a, prefix, titleId)
  {
    forall k | 0 <= k < |a|
      ensures FetchStep(a, k, prefix, titleId)
    {
    }
  }

  /** Such a prefix begins only `cid`. */
  lemma FetchPrefixBegins(a: seq<Event>, prefix: string, titleId: u64, cid: u32)
    requires FetchPrefix(a, prefix, titleId, cid)
    ensures BeginIds(a) == [cid]
  {
    assert a == [a[0]] + a[1..];
    BeginIdsAppend([a[0]], a[1..]);
    BeginIdsNone(a[1..]);
  }

  /** Such a prefix requests `cid`'s URL once it got past the begin. */
  lemma FetchPrefixGets(a: seq<Event>, prefix: string, titleId: u64, cid: u32)
    requires FetchPrefix(a, prefix, titleId, cid) && |a| > 1
    ensures Gets(a) == [Get(ContentUrl(prefix, titleId, cid))]
  {
    assert a == [a[0]] + ([a[1]] + a[2..]);
    FilterAppend([a[0]], [a[1]] + a[2..], IsGet);
    FilterAppend([a[1]], a[2..], IsGet);
    FilterNone(a[2..], IsGet);
  }

  /** What one fetch leaves in the trace: it begins the content, requests it
      only once the begin succeeded, imports the data only once the request
      succeeded, and stops at the first failure, which is its last event. */
  predicate FetchTrace(a: seq<Event>, prefix: string, titleId: u64, cid: u32, http: map<string, bytes>, res: UpdateResult) {
    var url := ContentUrl(prefix, titleId, cid);
    && FetchPrefix(a, prefix, titleId, cid)
    && (|a| > 2 ==> url in http)
    && (res == Succeeded <==> |a| == 4 && a[3].rc >= 0)
    && (res == DownloadFailed <==> |a| == 2 && url !in http)
    && (res == ImportFailed <==> |a| != 2 && a[|a| - 1].rc < 0)
  }

  lemma FetchTraceBegin(a: seq<Event>, prefix: string, titleId: u64, cid: u32, http: map<string, bytes>, rc: int)
    requires a == [ContentBegin(titleId, cid, rc)] && rc < 0
    ensures FetchTrace(a, prefix, titleId, cid, http, ImportFailed)
  {
  }

  lemma FetchTraceGet(a: seq<Event>, prefix: string, titleId: u64, cid: u32, http: map<string, bytes>, rc: int)
    requires a == [ContentBegin(titleId, cid, rc), Get(ContentUrl(prefix, titleId, cid))]
    requires rc >= 0 && ContentUrl(prefix, titleId, cid) !in http
    ensures FetchTrace(a, prefix, titleId, cid, http, DownloadFailed)
  {
  }

  lemma FetchTraceData(a: seq<Event>, prefix: string, titleId: u64, cid: u32, http: map<string, bytes>,
                       rc: int, data: bytes, rc2: int)
    requires a == [ContentBegin(titleId, cid, rc), Get(ContentUrl(prefix, titleId, cid)), ContentData(data, rc2)]
    requires rc >= 0 && ContentUrl(prefix, titleId, cid) in http && rc2 < 0
    ensures FetchTrace(a, prefix, titleId, cid, http, ImportFailed)
  {
  }

  lemma FetchTraceEnd(a: seq<Event>, prefix: string, titleId: u64, cid: u32, http: map<string, bytes>,
                      rc: int, data: bytes, rc2: int, rc3: int)
    requires a == [ContentBegin(titleId, cid, rc), Get(ContentUrl(prefix, titleId, cid)),
                   ContentData(data, rc2), ContentEnd(rc3)]
    requires rc >= 0 && ContentUrl(prefix, titleId, cid) in http && rc2 >= 0
    ensures FetchTrace(a, prefix, titleId, cid, http, if rc3 < 0 then ImportFailed else Succeeded)
  {
  }

  lemma FetchOneTrace(env: Env, prefix: string, title: TitleInfo, c: Content, s: State)
    requires s.Idle()
    ensures var r := FetchOne(env, prefix, title, c, s);
      FetchTrace(Added(s.log, r.1.log), prefix, title.id, c.id, env.http, r.0)
  {
    var url := ContentUrl(prefix, title.id, c.id);
    var (rc, s1) := EsImportContentBegin(s, title.id, c.id);
    if rc >= 0 {
      var (data, s2) := DownloadContentSpec(env, prefix, title, c.id, s1);
      if data.Some? {
        var (rc2, s3) := EsImportContentData(s2, data.value);
        if rc2 >= 0 {
          var (rc3, s4) := EsImportContentEnd(s3);
          FetchTraceEnd(Added(s.log, s4.log), prefix, title.id, c.id, env.http, rc, data.value, rc2, rc3);
        } else {
          FetchTraceData(Added(s.log, s3.log), prefix, title.id, c.id, env.http, rc, data.value, rc2);
        }
      } else {
        FetchTraceGet(Added(s.log, s2.log), prefix, title.id, c.id, env.http, rc);
      }
    } else {
      FetchTraceBegin(Added(s.log, s1.log), prefix, title.id, c.id, env.http, rc);
    }
  }

  /** Every event the content loop adds keeps the fetch order. */
  lemma {:induction false} ContentLoopCalls(env: Env, prefix: string, title: TitleInfo, cs: seq<Content>, stored: seq<Content>, s: State)
    requires s.Idle()
    ensures var r := ContentLoop(env, prefix, title, cs, stored, s);
      FetchCalls(Added(s.log, r.1.log), prefix, title.id)
    decreases |cs|
  {
    if cs == [] {
      assert Added(s.log, s.log) == [];
    } else if HasId(stored, cs[0].id) {
      ContentLoopCalls(env, prefix, title, cs[1..], stored, s);
    } else {
      FetchOneTrace(env, prefix, title, cs[0], s);
      var (res, s1) := FetchOne(env, prefix, title, cs[0], s);
      FetchPrefixCalls(Added(s.log, s1.log), prefix, title.id, cs[0].id);
      if res == Succeeded {
        ContentLoopCalls(env, prefix, title, cs[1..], stored, s1);
        var r := ContentLoop(env, prefix, title, cs[1..], stored, s1);
        AddedAppend(s.log, s1.log, r.1.log);
        FetchCallsAppend(Added(s.log, s1.log), Added(s1.log, r.1.log), prefix, title.id);
      }
    }
  }

  /** `b` lists the first ids of `m`, and all of them when `all` holds. */
  predicate BeganPrefix(b: seq<u32>, m: seq<u32>, all: bool) {
    |b| <= |m| && b == m[..|b|] && (all ==> b == m)
  }

  /** Putting the same id in front of both keeps a prefix a prefix. */
  lemma BeganPrefixCons(x: u32, b: seq<u32>, m: seq<u32>, all: bool)
    requires BeganPrefix(b, m, all)
    ensures BeganPrefix([x] + b, [x] + m, all)
  {
  }

  /** A fetch that began `x` followed by a run that began a prefix of `m`
      began a prefix of `[x] + m`. */
  lemma BeganThen(l0: seq<Event>, l1: seq<Event>, l2: seq<Event>, x: u32, m: seq<u32>, all: bool)
    requires Extends(l0, l1) && Extends(l1, l2)
    requires BeginIds(Added(l0, l1)) == [x] && BeganPrefix(BeginIds(Added(l1, l2)), m, all)
    ensures Extends(l0, l2) && BeganPrefix(BeginIds(Added(l0, l2)), [x] + m, all)
  {
    AddedAppend(l0, l1, l2);
    BeginIdsAppend(Added(l0, l1), Added(l1, l2));
    BeganPrefixCons(x, BeginIds(Added(l1, l2)), m, all);
  }

  /** The ids of the missing contents, one content at a time. */
  lemma MissingIdsCons(cs: seq<Content>, stored: seq<Content>)
    requires cs != []
    ensures Ids(Missing(cs, stored))
         == (if HasId(stored, cs[0].id) then [] else [cs[0].id]) + Ids(Missing(cs[1..], stored))
  {
    var first := if HasId(stored, cs[0].id) then [] else [cs[0]];
    assert Missing(cs, stored) == first + Missing(cs[1..], stored);
    IdsAppend(first, Missing(cs[1..], stored));
  }

  /** One fetch begins its content and nothing else. */
  lemma FetchOneBegins(env: Env, prefix: string, title: TitleInfo, c: Content, s: State)
    requires s.Idle()
    ensures BeginIds(Added(s.log, FetchOne(env, prefix, title, c, s).1.log)) == [c.id]
  {
    FetchOneTrace(env, prefix, title, c, s);
    FetchPrefixBegins(Added(s.log, FetchOne(env, prefix, title, c, s).1.log), prefix, title.id, c.id);
  }

  /** The content loop begins only contents that are not stored, in TMD
      order and without skipping one; when it succeeds it began them all. */
  lemma {:induction false} ContentLoopBegins(env: Env, prefix: string, title: TitleInfo, cs: seq<Content>, stored: seq<Content>, s: State)
    requires s.Idle()
    ensures var r := ContentLoop(env, prefix, title, cs, stored, s);
      BeganPrefix(BeginIds(Added(s.log, r.1.log)), Ids(Missing(cs, stored)), r.0 == Succeeded)
    decreases |cs|, 1
  {
    if cs == [] {
      assert Added(s.log, s.log) == [];
    } else if HasId(stored, cs[0].id) {
      SkipThenBegins(env, prefix, title, cs, stored, s);
    } else {
      FetchThenBegins(env, prefix, title, cs, stored, s);
    }
  }

  /** The same, when the first content is stored and skipped. */
  lemma {:induction false} SkipThenBegins(env: Env, prefix: string, title: TitleInfo, cs: seq<Content>, stored: seq<Content>, s: State)
    requires s.Idle() && cs != [] && HasId(stored, cs[0].id)
    ensures var r := ContentLoop(env, prefix, title, cs, stored, s);
      BeganPrefix(BeginIds(Added(s.log, r.1.log)), Ids(Missing(cs, stored)), r.0 == Succeeded)
    decreases |cs|, 0
  {
    MissingIdsCons(cs, stored);
    assert Ids(Missing(cs, stored)) == Ids(Missing(cs[1..], stored));
    var r := ContentLoop(env, prefix, title, cs[1..], stored, s);
    assert ContentLoop(env, prefix, title, cs, stored, s) == r;
    ContentLoopBegins(env, prefix, title, cs[1..], stored, s);
  }

  /** The same, when the first content is missing and is fetched. */
  lemma {:induction false} FetchThenBegins(env: Env, prefix: string, title: TitleInfo, cs: seq<Content>, stored: seq<Content>, s: State)
    requires s.Idle() && cs != [] && !HasId(stored, cs[0].id)
    ensures var r := ContentLoop(env, prefix, title, cs, stored, s);
      BeganPrefix(BeginIds(Added(s.log, r.1.log)), Ids(Missing(cs, stored)), r.0 == Succeeded)
    decreases |cs|, 0
  {
    MissingIdsCons(cs, stored);
    var m' := Ids(Missing(cs[1..], stored));
    FetchOneBegins(env, prefix, title, cs[0], s);
    var f := FetchOne(env, prefix, title, cs[0], s);
    if f.0 == Succeeded {
      ContentLoopBegins(env, prefix, title, cs[1..], stored, f.1);
      var r := ContentLoop(env, prefix, title, cs[1..], stored, f.1);
      BeganThen(s.log, f.1.log, r.1.log, cs[0].id, m', r.0 == Succeeded);
    } else {
      BeganPrefixCons(cs[0].id, [], m', false);
    }
  }

  /** When the content loop succeeds it requested every missing content, in
      TMD order, and nothing else. */
  lemma {:induction false} ContentLoopGets(env: Env, prefix: string, title: TitleInfo, cs: seq<Content>, stored: seq<Content>, s: State)
    requires s.Idle()
    ensures var r := ContentLoop(env, prefix, title, cs, stored, s);
      r.0 == Succeeded ==> Gets(Added(s.log, r.1.log)) == ContentGets(prefix, title.id, Missing(cs, stored))
    decreases |cs|
  {
    if cs == [] {
      assert Added(s.log, s.log) == [];
    } else if HasId(stored, cs[0].id) {
      ContentLoopGets(env, prefix, title, cs[1..], stored, s);
    } else {
      var c := cs[0];
      FetchOneTrace(env, prefix, title, c, s);
      var (res, s1) := FetchOne(env, prefix, title, c, s);
      if res == Succeeded {
        var a1 := Added(s.log, s1.log);
        ContentLoopGets(env, prefix, title, cs[1..], stored, s1);
        var r := ContentLoop(env, prefix, title, cs[1..], stored, s1);
        AddedAppend(s.log, s1.log, r.1.log);
        FetchPrefixGets(a1, prefix, title.id, c.id);
        FilterAppend(a1, Added(s1.log, r.1.log), IsGet);
        var m' := Missing(cs[1..], stored);
        assert ContentGets(prefix, title.id, [c] + m')
            == [Get(ContentUrl(prefix, title.id, c.id))] + ContentGets(prefix, title.id, m');
      }
    }
  }

  /** How a failed fetch or content loop ends: with the request that failed
      (DownloadFailed) or with a content call the store rejected (ImportFailed). */
  predicate FailedWith(e: Event, res: UpdateResult, env: Env) {
    || (res == DownloadFailed && e.Get? && e.url !in env.http)
    || (res == ImportFailed && IsContentCall(e) && e.rc < 0)
  }

  /** The run from `before` to `after` added events and ended with a failure
      reported as `res`. */
  predicate StopsWith(before: seq<Event>, after: seq<Event>, res: UpdateResult, env: Env) {
    |before| < |after| && FailedWith(after[|after| - 1], res, env)
  }

  /** A failed fetch ends with its failure. */
  lemma FetchOneStop(env: Env, prefix: string, title: TitleInfo, c: Content, s: State)
    requires s.Idle()
    ensures var r := FetchOne(env, prefix, title, c, s);
      r.0 != Succeeded ==> StopsWith(s.log, r.1.log, r.0, env)
  {
    FetchOneTrace(env, prefix, title, c, s);
    var r := FetchOne(env, prefix, title, c, s);
    if r.0 != Succeeded {
      FetchTraceStops(s.log, r.1.log, prefix, title.id, c.id, r.0, env);
    }
  }

  lemma FetchTraceStops(l0: seq<Event>, l1: seq<Event>, prefix: string, titleId: u64, cid: u32,
                        res: UpdateResult, env: Env)
    requires Extends(l0, l1) && FetchTrace(Added(l0, l1), prefix, titleId, cid, env.http, res)
    requires res == ImportFailed || res == DownloadFailed
    ensures StopsWith(l0, l1, res, env)
  {
    var a := Added(l0, l1);
    assert a[|a| - 1] == l1[|l1| - 1];
    assert |a| == 2 || IsContentCall(a[|a| - 1]) by {
      if |a| == 3 {
        assert a[2].ContentData?;
      } else if |a| == 4 {
        assert a[3].ContentEnd?;
      }
    }
  }

  /** A failed content loop stops at its first failure, which is its last event. */
  lemma {:induction false} ContentLoopStop(env: Env, prefix: string, title: TitleInfo, cs: seq<Content>, stored: seq<Content>, s: State)
    requires s.Idle()
    ensures var r := ContentLoop(env, prefix, title, cs, stored, s);
      r.0 != Succeeded ==> StopsWith(s.log, r.1.log, r.0, env)
    decreases |cs|
  {
    if cs != [] {
      if HasId(stored, cs[0].id) {
        ContentLoopStop(env, prefix, title, cs[1..], stored, s);
      } else {
        FetchOneStop(env, prefix, title, cs[0], s);
        var f := FetchOne(env, prefix, title, cs[0], s);
        if f.0 == Succeeded {
          ContentLoopStop(env, prefix, title, cs[1..], stored, f.1);
        }
      }
    }
  }

  /** A successful content loop leaves exactly the missing contents' ids in
      the import context, after those it held, in TMD order. */
  lemma {:induction false} ContentLoopImports(env: Env, prefix: string, title: TitleInfo, cs: seq<Content>, stored: seq<Content>, s: State)
    requires s.Idle()
    ensures var r := ContentLoop(env, prefix, title, cs, stored, s);
      r.0 == Succeeded ==> r.1.context.value.imported == s.context.value.imported + Ids(Missing(cs, stored))
    decreases |cs|
  {
    if cs != [] {
      MissingIdsCons(cs, stored);
      var m' := Ids(Missing(cs[1..], stored));
      if HasId(stored, cs[0].id) {
        ContentLoopImports(env, prefix, title, cs[1..], stored, s);
        assert [] + m' == m';
      } else {
        var s1 := FetchOne(env, prefix, title, cs[0], s).1;
        if FetchOne(env, prefix, title, cs[0], s).0 == Succeeded {
          ContentLoopImports(env, prefix, title, cs[1..], stored, s1);
          AppendAssoc(s.context.value.imported, [cs[0].id], m');
        }
      }
    }
  }

  /** Concatenation regroups; stated apart so that the loop proof above
      need not rediscover it among the loop's own facts. */
  lemma AppendAssoc(a: seq<u32>, b: seq<u32>, c: seq<u32>)
    ensures (a + b) + c == a + (b + c)
  {
  }

  // ---- one import, from ImportTitleInit on ----------------------------

  /** A content loop's events hold no finalisation. */
  lemma LoopNoFinalize(l: seq<Event>, prefix: string, titleId: u64)
    requires FetchCalls(l, prefix, titleId)
    ensures Finalizes(l) == []
  {
    forall k | 0 <= k < |l|
      ensures !IsFinalize(l[k])
    {
      assert FetchStep(l, k, prefix, titleId);
    }
    FilterNone(l, IsFinalize);
  }

  /** The finalisations of an import that opens, runs its loop and finalises. */
  lemma FinalizesFrame(init: Event, l: seq<Event>, fin: Event)
    requires init.TitleInit? && Finalizes(l) == [] && fin.IsFinalize()
    ensures Finalizes([init] + l + [fin]) == [fin]
  {
    FilterAppend([init] + l, [fin], IsFinalize);
    FilterAppend([init], l, IsFinalize);
  }

  /** The shape of the trace ImportFromTmd leaves once ImportTitleInit succeeded. */
  lemma ImportFromTmdLog(env: Env, prefix: string, title: TitleInfo, tmd: Tmd, updated: set<u64>, s: State)
    requires !s.Open()
    ensures var i := EsImportTitleInit(s, tmd);
      var r := ImportFromTmd(env, prefix, title, tmd, updated, s);
      i.0 >= 0 ==>
        var c := ContentLoop(env, prefix, title, tmd.contents, GetStoredContents(i.1, tmd), i.1);
        var z := FinalizeImport(c.1, c.0 == Succeeded);
        && Added(s.log, r.state.log)
           == [TitleInit(tmd.titleId, s.sigChecks, i.0)] + Added(i.1.log, c.1.log)
              + [if c.0 == Succeeded then TitleDone(z.0) else TitleCancel(z.0)]
        && r.result == (if z.0 < 0 then ImportFailed else c.0)
  {
    var (rc, s1) := EsImportTitleInit(s, tmd);
    if rc >= 0 {
      var (res, s2) := ContentLoop(env, prefix, title, tmd.contents, GetStoredContents(s1, tmd), s1);
      var (rc2, s3) := FinalizeImport(s2, res == Succeeded);
      AddedAppend(s.log, s1.log, s2.log);
      AddedAppend(s.log, s2.log, s3.log);
    }
  }

  /** ImportFromTmd opens the import for the TMD's title. A rejected
      ImportTitleInit ends the install there with ImportFailed; otherwise
      exactly one finalisation follows the content loop and ends the trace. */
  lemma ImportFromTmdFinalizes(env: Env, prefix: string, title: TitleInfo, tmd: Tmd, updated: set<u64>, s: State)
    requires !s.Open()
    ensures var r := ImportFromTmd(env, prefix, title, tmd, updated, s);
      var a := Added(s.log, r.state.log);
      && a != [] && a[0].TitleInit? && a[0].titleId == tmd.titleId && a[0].checks == s.sigChecks
      && (a[0].rc < 0 ==> |a| == 1 && r.result == ImportFailed)
      && (a[0].rc >= 0 ==> 2 <= |a| && Finalizes(a) == [a[|a| - 1]])
  {
    var (rc, s1) := EsImportTitleInit(s, tmd);
    ImportFromTmdLog(env, prefix, title, tmd, updated, s);
    if rc < 0 {
      assert Added(s.log, s1.log) == [TitleInit(tmd.titleId, s.sigChecks, rc)];
    } else {
      var stored := GetStoredContents(s1, tmd);
      ContentLoopCalls(env, prefix, title, tmd.contents, stored, s1);
      var c := ContentLoop(env, prefix, title, tmd.contents, stored, s1);
      LoopNoFinalize(Added(s1.log, c.1.log), prefix, title.id);
      var z := FinalizeImport(c.1, c.0 == Succeeded);
      FinalizesFrame(TitleInit(tmd.titleId, s.sigChecks, rc), Added(s1.log, c.1.log),
                     if c.0 == Succeeded then TitleDone(z.0) else TitleCancel(z.0));
    }
  }

  /** How ImportFromTmd's result follows from its last event: it succeeds
      exactly when ImportTitleDone succeeded, a rejected finalisation is
      ImportFailed, and after a successful ImportTitleCancel it reports the
      content loop's failure, which is the event right before the cancel. */
  predicate ResultFollowsLast(a: seq<Event>, res: UpdateResult, env: Env) {
    && a != []
    && (res == Succeeded <==> a[|a| - 1].TitleDone? && a[|a| - 1].rc >= 0)
    && (a[|a| - 1].IsFinalize() && a[|a| - 1].rc < 0 ==> res == ImportFailed)
    && (a[|a| - 1].TitleCancel? && a[|a| - 1].rc >= 0 ==> 3 <= |a| && FailedWith(a[|a| - 2], res, env))
  }

  /** The rule holds for an opened import: the init, the content loop's
      events, then the finalisation chosen by the loop's result. */
  lemma ResultAfterFinalize(a: seq<Event>, init: Event, l1: seq<Event>, l2: seq<Event>,
                            loopRes: UpdateResult, rc: int, res: UpdateResult, env: Env)
    requires Extends(l1, l2) && !init.IsFinalize()
    requires a == [init] + Added(l1, l2) + [if loopRes == Succeeded then TitleDone(rc) else TitleCancel(rc)]
    requires res == (if rc < 0 then ImportFailed else loopRes)
    requires loopRes != Succeeded ==> StopsWith(l1, l2, loopRes, env)
    ensures ResultFollowsLast(a, res, env)
  {
    if loopRes != Succeeded && rc >= 0 {
      assert a[|a| - 2] == l2[|l2| - 1];
    }
  }

  lemma ImportFromTmdResult(env: Env, prefix: string, title: TitleInfo, tmd: Tmd, updated: set<u64>, s: State)
    requires !s.Open()
    ensures var r := ImportFromTmd(env, prefix, title, tmd, updated, s);
      ResultFollowsLast(Added(s.log, r.state.log), r.result, env)
  {
    var (rc, s1) := EsImportTitleInit(s, tmd);
    ImportFromTmdLog(env, prefix, title, tmd, updated, s);
    if rc < 0 {
      assert Added(s.log, s1.log) == [TitleInit(tmd.titleId, s.sigChecks, rc)];
    } else {
      var stored := GetStoredContents(s1, tmd);
      ContentLoopStop(env, prefix, title, tmd.contents, stored, s1);
      var c := ContentLoop(env, prefix, title, tmd.contents, stored, s1);
      var z := FinalizeImport(c.1, c.0 == Succeeded);
      var r := ImportFromTmd(env, prefix, title, tmd, updated, s);
      ResultAfterFinalize(Added(s.log, r.state.log), TitleInit(tmd.titleId, s.sigChecks, rc), s1.log, c.1.log,
                          c.0, z.0, r.result, env);
    }
  }

  /** Every content of `cs` is either stored (its id among `stored`'s, whose
      ids are all present) or missing, so it is covered once the missing ids
      are added. */
  lemma MissingCovers(cs: seq<Content>, stored: seq<Content>, present: set<u32>)
    requires forall c :: c in stored ==> c.id in present
    ensures forall c :: c in cs ==> c.id in present + SeqToSet(Ids(Missing(cs, stored)))
  {
    forall c | c in cs
      ensures c.id in present + SeqToSet(Ids(Missing(cs, stored)))
    {
      if HasId(stored, c.id) {
        var i :| 0 <= i < |stored| && Ids(stored)[i] == c.id;
        assert stored[i] in stored;
      } else {
        var m := Missing(cs, stored);
        var i :| 0 <= i < |m| && m[i] == c;
        assert Ids(m)[i] == c.id;
      }
    }
  }

  /** What ImportFromTmd does to the store: on success the TMD is installed
      and the title is up to date at the TMD's version, with every content
      stored; on any failure the installed titles and stored contents are
      as they were. */
  lemma ImportFromTmdStore(env: Env, prefix: string, title: TitleInfo, tmd: Tmd, updated: set<u64>, s: State)
    requires !s.Open()
    ensures var r := ImportFromTmd(env, prefix, title, tmd, updated, s);
      && (r.result == Succeeded ==>
            && r.state.installed == s.installed[tmd.titleId := tmd]
            && !ShouldInstallTitle(r.state, TitleInfo(tmd.titleId, tmd.version)))
      && (r.result != Succeeded ==> r.state.installed == s.installed && r.state.stored == s.stored)
  {
    var (rc, s1) := EsImportTitleInit(s, tmd);
    if rc >= 0 {
      var stored := GetStoredContents(s1, tmd);
      ContentLoopImports(env, prefix, title, tmd.contents, stored, s1);
      var (res, s2) := ContentLoop(env, prefix, title, tmd.contents, stored, s1);
      var (rc2, s3) := FinalizeImport(s2, res == Succeeded);
      if res == Succeeded && rc2 >= 0 {
        MissingCovers(tmd.contents, stored, StoredIds(s1, tmd.titleId));
        UpToDateMeaning(s3, TitleInfo(tmd.titleId, tmd.version));
      }
    }
  }

  /** When the downloaded TMD names the catalog title at the catalog's
      version or later, a successful import leaves that title up to date. */
  lemma ImportFromTmdUpToDate(env: Env, prefix: string, title: TitleInfo, tmd: Tmd, updated: set<u64>, s: State)
    requires !s.Open() && tmd.titleId == title.id && tmd.version >= title.version
    ensures var r := ImportFromTmd(env, prefix, title, tmd, updated, s);
      r.result == Succeeded ==> !ShouldInstallTitle(r.state, title) && title.id in r.updated
  {
    var r := ImportFromTmd(env, prefix, title, tmd, updated, s);
    ImportFromTmdStore(env, prefix, title, tmd, updated, s);
    if r.result == Succeeded {
      UpToDateMeaning(r.state, TitleInfo(tmd.titleId, tmd.version));
      UpToDateMeaning(r.state, title);
    }
  }

  // ---- one title, from the ticket on ---------------------------------

  /** The steps of an install that is not a no-op: the ticket request, then
      (when ticket and certificate chain came back) the ticket import, then
      (when the store took the ticket) the TMD request; a failed download is
      DownloadFailed and a rejected ticket ImportFailed, and either ends the
      install. */
  predicate TicketSteps(a: seq<Event>, prefix: string, title: TitleInfo, checks: bool, res: UpdateResult) {
    && a != [] && a[0] == Get(TicketUrl(prefix, title.id))
    && (|a| == 1 ==> res == DownloadFailed)
    && (|a| > 1 ==>
          && a[1].TicketImport? && a[1].checks == checks
          && (|a| == 2 ==> res == ImportFailed && a[1].rc < 0)
          && (|a| > 2 ==> a[1].rc >= 0 && a[2] == Get(TmdUrl(prefix, title))))
  }

  lemma TicketStepsDownload(l0: seq<Event>, l1: seq<Event>, prefix: string, title: TitleInfo, checks: bool)
    requires l1 == l0 + [Get(TicketUrl(prefix, title.id))]
    ensures Extends(l0, l1) && TicketSteps(Added(l0, l1), prefix, title, checks, DownloadFailed)
  {
    assert Added(l0, l1) == [Get(TicketUrl(prefix, title.id))];
  }

  lemma TicketStepsImport(l0: seq<Event>, l1: seq<Event>, l2: seq<Event>, prefix: string, title: TitleInfo,
                          checks: bool, ticket: bytes, rc: int)
    requires l1 == l0 + [Get(TicketUrl(prefix, title.id))] && l2 == l1 + [TicketImport(ticket, checks, rc)]
    requires rc < 0
    ensures Extends(l0, l2) && TicketSteps(Added(l0, l2), prefix, title, checks, ImportFailed)
  {
    assert Added(l0, l2) == [Get(TicketUrl(prefix, title.id)), TicketImport(ticket, checks, rc)];
  }

  lemma TicketStepsThen(l0: seq<Event>, l1: seq<Event>, l2: seq<Event>, l3: seq<Event>, l4: seq<Event>,
                        prefix: string, title: TitleInfo, checks: bool, ticket: bytes, rc: int, res: UpdateResult)
    requires l1 == l0 + [Get(TicketUrl(prefix, title.id))] && l2 == l1 + [TicketImport(ticket, checks, rc)]
    requires l3 == l2 + [Get(TmdUrl(prefix, title))] && Extends(l3, l4)
    requires rc >= 0
    ensures Extends(l0, l4) && TicketSteps(Added(l0, l4), prefix, title, checks, res)
  {
    var a := Added(l0, l4);
    assert l4[..|l3|] == l3;
    assert l3[|l0|] == Get(TicketUrl(prefix, title.id));
    assert l3[|l0| + 1] == TicketImport(ticket, checks, rc);
    assert l3[|l0| + 2] == Get(TmdUrl(prefix, title));
    assert a[0] == l4[..|l3|][|l0|] && a[1] == l4[..|l3|][|l0| + 1] && a[2] == l4[..|l3|][|l0| + 2];
  }

  lemma InstallTitleSteps(env: Env, prefix: string, title: TitleInfo, updated: set<u64>, s: State, fuel: nat)
    requires !s.Open() && !Skipped(s, title, updated)
    ensures var r := InstallTitle(env, prefix, title, updated, s, fuel);
      Extends(s.log, r.state.log) && TicketSteps(Added(s.log, r.state.log), prefix, title, s.sigChecks, r.result)
  {
    var (ticket, s1) := DownloadTicketSpec(env, prefix, title, s);
    if ticket.0 == [] || ticket.1 == [] {
      TicketStepsDownload(s.log, s1.log, prefix, title, s.sigChecks);
    } else {
      var (rc, s2) := EsImportTicket(s1, ticket.0);
      if rc < 0 {
        TicketStepsImport(s.log, s1.log, s2.log, prefix, title, s.sigChecks, ticket.0, rc);
      } else {
        var (split, s3) := DownloadTmdSpec(env, prefix, title, s2);
        var r := InstallTitle(env, prefix, title, updated, s, fuel);
        TicketStepsThen(s.log, s1.log, s2.log, s3.log, r.state.log, prefix, title, s.sigChecks, ticket.0, rc, r.result);
      }
    }
  }

  /** A successful install that was not a no-op leaves the title among the
      updated ones. */
  lemma InstallTitleUpdated(env: Env, prefix: string, title: TitleInfo, updated: set<u64>, s: State, fuel: nat)
    requires !s.Open()
    ensures var r := InstallTitle(env, prefix, title, updated, s, fuel);
      r.result == Succeeded ==> Skipped(s, title, updated) || title.id in r.updated
  {
    if !Skipped(s, title, updated) {
      var (t, s2) := TicketStep(env, prefix, title, s);
      if t == Succeeded {
        var (split, s3) := DownloadTmdSpec(env, prefix, title, s2);
        if split.Some? {
          var tmd := env.readTmd(split.value.0);
          var dep := RequireIos(env, prefix, tmd.iosId, updated, s3, fuel);
          if dep.result == Succeeded {
            var r := ImportFromTmd(env, prefix, title, tmd, dep.updated, dep.state);
            assert r.result == Succeeded ==> title.id in r.updated;
          }
        }
      }
    }
  }

  /** A dependency step that succeeds leaves the IOS satisfied: it was not
      needed, or it is boot2 (never installed), or it is among the updated
      titles. */
  lemma RequireIosSatisfied(env: Env, prefix: string, iosId: u64, updated: set<u64>, s: State, fuel: nat)
    requires !s.Open()
    ensures var r := RequireIos(env, prefix, iosId, updated, s, fuel);
      r.result == Succeeded ==> !NeedsIos(s, iosId) || iosId == BOOT2 || iosId in r.updated
  {
    if NeedsIos(s, iosId) && fuel > 0 {
      var ios := TitleInfo(iosId, 0);
      assert RequireIos(env, prefix, iosId, updated, s, fuel) == InstallTitle(env, prefix, ios, updated, s, fuel - 1);
      InstallTitleUpdated(env, prefix, ios, updated, s, fuel - 1);
      DependencySatisfied(s, ios, updated, InstallTitle(env, prefix, ios, updated, s, fuel - 1));
    }
  }

  /** An install of a needed IOS that succeeded leaves it among the updated
      titles, unless it is boot2. */
  lemma DependencySatisfied(s: State, ios: TitleInfo, updated: set<u64>, r: Outcome)
    requires NeedsIos(s, ios.id) && Grows(s, updated, r.state, r.updated)
    requires r.result == Succeeded ==> Skipped(s, ios, updated) || ios.id in r.updated
    ensures r.result == Succeeded ==> ios.id == BOOT2 || ios.id in r.updated
  {
    assert ShouldInstallTitle(s, ios);
  }

  /** Dependency first: everything the dependency step does comes before the
      dependent title's own import, which starts with its ImportTitleInit
      right after; a failed dependency step is reported as it is, with no
      import of the dependent; and the dependent is imported only once its
      IOS is satisfied. */
  lemma InstallWithTmdOrder(env: Env, prefix: string, title: TitleInfo, tmd: Tmd, updated: set<u64>, s: State, fuel: nat)
    requires !s.Open()
    ensures var dep := RequireIos(env, prefix, tmd.iosId, updated, s, fuel);
      var r := InstallWithTmd(env, prefix, title, tmd, updated, s, fuel);
      && Extends(dep.state.log, r.state.log)
      && (dep.result != Succeeded ==> r.result == dep.result && r.state.log == dep.state.log)
      && (dep.result == Succeeded ==>
            && |dep.state.log| < |r.state.log|
            && r.state.log[|dep.state.log|].TitleInit?
            && r.state.log[|dep.state.log|].titleId == tmd.titleId
            && (!NeedsIos(s, tmd.iosId) || tmd.iosId == BOOT2 || tmd.iosId in dep.updated))
  {
    RequireIosSatisfied(env, prefix, tmd.iosId, updated, s, fuel);
    var dep := RequireIos(env, prefix, tmd.iosId, updated, s, fuel);
    if dep.result == Succeeded {
      ImportFromTmdFinalizes(env, prefix, title, tmd, dep.updated, dep.state);
    }
  }

  // ---- what an install does not do -----------------------------------

  /** Events of an install: store calls and requests only (no progress
      report, dialog, catalog request or cache flush). */
  predicate InstallEvents(es: seq<Event>) {
    forall k :: 0 <= k < |es| ==> IsStoreCall(es[k]) || IsGet(es[k])
  }

  lemma InstallEventsAppend(a: seq<Event>, b: seq<Event>)
    requires InstallEvents(a) && InstallEvents(b)
    ensures InstallEvents(a + b)
  {
    forall k | |a| <= k < |a + b|
      ensures IsStoreCall((a + b)[k]) || IsGet((a + b)[k])
    {
      assert (a + b)[k] == b[k - |a|];
    }
  }

  /** An install's events report no progress. */
  lemma InstallEventsNoProgress(es: seq<Event>)
    requires InstallEvents(es)
    ensures Progresses(es) == []
  {
    FilterNone(es, IsProgress);
  }

  lemma FetchCallsInstallEvents(l: seq<Event>, prefix: string, titleId: u64)
    requires FetchCalls(l, prefix, titleId)
    ensures InstallEvents(l)
  {
    forall k | 0 <= k < |l|
      ensures IsStoreCall(l[k]) || IsGet(l[k])
    {
      assert FetchStep(l, k, prefix, titleId);
    }
  }

  /** A run from `before` to `after` that only extended the trace, with
      store calls and requests. */
  predicate InstallRun(before: seq<Event>, after: seq<Event>) {
    Extends(before, after) && InstallEvents(Added(before, after))
  }

  lemma InstallRunRefl(l: seq<Event>)
    ensures InstallRun(l, l)
  {
    assert l[..|l|] == l;
  }

  lemma InstallRunThen(l0: seq<Event>, l1: seq<Event>, l2: seq<Event>)
    requires InstallRun(l0, l1) && InstallRun(l1, l2)
    ensures InstallRun(l0, l2)
  {
    AddedAppend(l0, l1, l2);
    InstallEventsAppend(Added(l0, l1), Added(l1, l2));
  }

  /** One more store call or request keeps a run an install run. */
  lemma InstallRunStep(l0: seq<Event>, l1: seq<Event>, e: Event)
    requires InstallRun(l0, l1) && (IsStoreCall(e) || IsGet(e))
    ensures InstallRun(l0, l1 + [e])
  {
    assert InstallEvents([e]);
    assert (l1 + [e])[..|l1|] == l1;
    InstallRunThen(l0, l1, l1 + [e]);
  }
}
