/**
 * OnlineSystemUpdater and WiiUtils::DoOnlineUpdate as code running against
 * a store object: each method does to the store what the function of the
 * same name in modules Nus and Update describes, so the properties proved
 * about those functions hold of the methods.
 */
module Updater {
  import opened Types
  import opened Es
  import opened Download
  import opened Catalog
  import opened Nus
  import opened Update

  /**
   * An online updater: the server it talks to, the progress callback, the
   * requested region (empty for the device's own) and the store it installs
   * into. `depth` bounds how many dependencies deep an install may go.
   */
  class OnlineSystemUpdater {
    const env: Env
    const callback: Callback
    const requestedRegion: string
    const host: Host
    const depth: nat

    constructor (env: Env, callback: Callback, requestedRegion: string, host: Host, depth: nat)
      ensures this.env == env && this.callback == callback && this.requestedRegion == requestedRegion
      ensures this.host == host && this.depth == depth
    {
      this.env := env;
      this.callback := callback;
      this.requestedRegion := requestedRegion;
      this.host := host;
      this.depth := depth;
    }

    // ---- downloads ---------------------------------------------------

    /** OnlineSystemUpdater::DownloadTicket. */
    method DownloadTicket(prefix: string, title: TitleInfo) returns (ticket: (bytes, bytes))
      modifies host
      ensures (ticket, host.Snapshot()) == DownloadTicketSpec(env, prefix, title, old(host.Snapshot()))
    {
      var response := host.Get(env.http, TicketUrl(prefix, title.id));
      ticket := SplitTicket(response);
    }

    /** OnlineSystemUpdater::DownloadTMD. */
    method DownloadTmd(prefix: string, title: TitleInfo) returns (tmd: Option<(bytes, bytes)>)
      modifies host
      ensures (tmd, host.Snapshot()) == DownloadTmdSpec(env, prefix, title, old(host.Snapshot()))
    {
      var response := host.Get(env.http, TmdUrl(prefix, title));
      tmd := SplitTmd(response);
    }

    /** OnlineSystemUpdater::DownloadContent. */
    method DownloadContent(prefix: string, title: TitleInfo, cid: u32) returns (data: Option<bytes>)
      modifies host
      ensures (data, host.Snapshot()) == DownloadContentSpec(env, prefix, title, cid, old(host.Snapshot()))
    {
      data := host.Get(env.http, ContentUrl(prefix, title.id, cid));
    }

    // ---- one title ---------------------------------------------------

    /** OnlineSystemUpdater::InstallTitleFromNUS, with `fuel` dependency
        installs left; `updated` is the set of titles updated so far, and
        `updated'` that set afterwards. The steps after the TMD download are
        InstallWithTmd below. */
    method InstallTitleFromNus(prefix: string, title: TitleInfo, updated: set<u64>, fuel: nat)
      returns (res: UpdateResult, updated': set<u64>)
      requires !host.Snapshot().Open()
      modifies host
      ensures Outcome(res, updated', host.Snapshot()) == InstallTitle(env, prefix, title, updated, old(host.Snapshot()), fuel)
      decreases fuel, 2
    {
      if title.id == BOOT2 {
        return Succeeded, updated;
      }
      if !ShouldInstallTitle(host.Snapshot(), title) || title.id in updated {
        return Succeeded, updated;
      }
      ghost var s0 := host.Snapshot();
      var ticket := DownloadTicket(prefix, title);
      if ticket.0 == [] || ticket.1 == [] {
        return DownloadFailed, updated;
      }
      var rc := host.ImportTicket(ticket.0);
      if rc < 0 {
        return ImportFailed, updated;
      }
      assert (Succeeded, host.Snapshot()) == TicketStep(env, prefix, title, s0);
      var split := DownloadTmd(prefix, title);
      if split.None? {
        return DownloadFailed, updated;
      }
      res, updated' := InstallWithTmd(prefix, title, env.readTmd(split.value.0), updated, fuel);
    }

    /** InstallTitleFromNUS after the TMD download: the required system
        title first, then the import. */
    method InstallWithTmd(prefix: string, title: TitleInfo, tmd: Tmd, updated: set<u64>, fuel: nat)
      returns (res: UpdateResult, updated': set<u64>)
      requires !host.Snapshot().Open()
      modifies host
      ensures Outcome(res, updated', host.Snapshot()) == Nus.InstallWithTmd(env, prefix, title, tmd, updated, old(host.Snapshot()), fuel)
      decreases fuel, 1
    {
      ghost var s := host.Snapshot();
      res, updated' := RequireIos(prefix, tmd.iosId, updated, fuel);
      RequireIosCases(env, prefix, tmd.iosId, updated, s, fuel, Outcome(res, updated', host.Snapshot()));
      if res != Succeeded {
        return;
      }
      res, updated' := ImportTitle(prefix, title, tmd, updated');
    }

    /** The dependency step of InstallTitleFromNUS: a system title the TMD
        needs and the store lacks is installed first, at version 0; without
        fuel left that fails the import. Together these are Nus.RequireIos
        (lemma RequireIosCases). */
    method RequireIos(prefix: string, iosId: u64, updated: set<u64>, fuel: nat)
      returns (res: UpdateResult, updated': set<u64>)
      requires !host.Snapshot().Open()
      modifies host
      ensures !NeedsIos(old(host.Snapshot()), iosId) ==> res == Succeeded && updated' == updated && host.Snapshot() == old(host.Snapshot())
      ensures NeedsIos(old(host.Snapshot()), iosId) && fuel == 0 ==>
                res == ImportFailed && updated' == updated && host.Snapshot() == old(host.Snapshot())
      ensures NeedsIos(old(host.Snapshot()), iosId) && fuel > 0 ==>
                Outcome(res, updated', host.Snapshot()) == InstallTitle(env, prefix, TitleInfo(iosId, 0), updated, old(host.Snapshot()), fuel - 1)
      decreases fuel, 0
    {
      ghost var s := host.Snapshot();
      if !(iosId != 0 && IsSystemTitle(iosId) && iosId !in host.installed) {
        assert !NeedsIos(s, iosId);
        return Succeeded, updated;
      }
      assert NeedsIos(s, iosId);
      if fuel == 0 {
        return ImportFailed, updated;
      }
      res, updated' := InstallTitleFromNus(prefix, TitleInfo(iosId, 0), updated, fuel - 1);
    }

    /** The import half of InstallTitleFromNUS: ImportTitleInit, the content
        loop, the finalisation and the record of the updated title. */
    method ImportTitle(prefix: string, title: TitleInfo, tmd: Tmd, updated: set<u64>)
      returns (res: UpdateResult, updated': set<u64>)
      requires !host.Snapshot().Open()
      modifies host
      ensures Outcome(res, updated', host.Snapshot()) == ImportFromTmd(env, prefix, title, tmd, updated, old(host.Snapshot()))
    {
      updated' := updated;
      var rc := host.ImportTitleInit(tmd);
      if rc < 0 {
        return ImportFailed, updated;
      }
      var stored := GetStoredContents(host.Snapshot(), tmd);
      var importResult := ImportContents(prefix, title, tmd.contents, stored);
      ghost var s2 := host.Snapshot();
      if importResult == Succeeded {
        rc := host.ImportTitleDone();
      } else {
        rc := host.ImportTitleCancel();
      }
      assert (rc, host.Snapshot()) == FinalizeImport(s2, importResult == Succeeded);
      if rc < 0 {
        return ImportFailed, updated;
      }
      if importResult != Succeeded {
        return importResult, updated;
      }
      return Succeeded, updated + {title.id};
    }

    /** The content loop of InstallTitleFromNUS over `contents`, skipping
        those whose id is among `stored`. */
    method ImportContents(prefix: string, title: TitleInfo, contents: seq<Content>, stored: seq<Content>)
      returns (res: UpdateResult)
      requires host.Snapshot().Idle()
      modifies host
      ensures (res, host.Snapshot()) == ContentLoop(env, prefix, title, contents, stored, old(host.Snapshot()))
    {
      ghost var s0 := host.Snapshot();
      var i := 0;
      while i < |contents|
        invariant 0 <= i <= |contents| && host.Snapshot().Idle()
        invariant ContentLoop(env, prefix, title, contents, stored, s0)
                  == ContentLoop(env, prefix, title, contents[i..], stored, host.Snapshot())
      {
        var content := contents[i];
        assert contents[i..][0] == content && contents[i..][1..] == contents[i + 1..];
        if content.id in Ids(stored) {
          i := i + 1;
          continue;
        }
        ghost var before := host.Snapshot();
        var rc := host.ImportContentBegin(title.id, content.id);
        if rc < 0 {
          return ImportFailed;
        }
        var data := DownloadContent(prefix, title, content.id);
        if data.None? {
          return DownloadFailed;
        }
        rc := host.ImportContentData(data.value);
        if rc >= 0 {
          rc := host.ImportContentEnd();
        }
        if rc < 0 {
          return ImportFailed;
        }
        assert (Succeeded, host.Snapshot()) == FetchOne(env, prefix, title, content, before);
        i := i + 1;
      }
      return Succeeded;
    }

    // ---- the update --------------------------------------------------

    /** OnlineSystemUpdater::GetSystemTitles. */
    method GetSystemTitles() returns (info: Response)
      requires ParsableCatalog(env)
      modifies host
      ensures (info, host.Snapshot()) == Update.GetSystemTitles(env, requestedRegion, old(host.Snapshot()))
    {
      var deviceId := GetDeviceId(env.deviceId);
      var systemMenu := if SYSTEM_MENU in host.installed then Some(host.installed[SYSTEM_MENU]) else None;
      var region := RequestRegion(requestedRegion, systemMenu);
      host.Record(Post(deviceId, region));
      var node := if (deviceId, region) in env.soap then Some(env.soap[(deviceId, region)]) else None;
      info := ParseTitlesResponse(node);
    }

    /** OnlineSystemUpdater::DoOnlineUpdate. */
    method DoOnlineUpdate() returns (res: UpdateResult)
      requires ParsableCatalog(env) && !host.Snapshot().Open()
      modifies host
      ensures var o := DoOnlineUpdateSpec(env, requestedRegion, callback, old(host.Snapshot()), depth);
        res == o.result && host.Snapshot() == o.state
    {
      var info := GetSystemTitles();
      if info.titles == [] {
        return ServerFailed;
      }
      ghost var install := FromNus(env, info.contentPrefixUrl, depth);
      ghost var s1 := host.Snapshot();
      var updated: set<u64> := {};
      var processed := 0;
      while processed < |info.titles|
        invariant processed <= |info.titles| && !host.Snapshot().Open()
        invariant UpdateLoop(install, info.titles, 0, callback, {}, s1)
                  == UpdateLoop(install, info.titles, processed, callback, updated, host.Snapshot())
      {
        var title := info.titles[processed];
        host.Record(Progress(processed, |info.titles|, title.id));
        if !callback(processed, |info.titles|, title.id) {
          return Cancelled;
        }
        var r;
        r, updated := InstallTitleFromNus(info.contentPrefixUrl, title, updated, depth);
        if r != Succeeded {
          return r;
        }
        host.Record(Progress(processed + 1, |info.titles|, title.id));
        processed := processed + 1;
      }
      if updated == {} {
        return AlreadyUpToDate;
      }
      return Succeeded;
    }
  }

  /** WiiUtils::DoOnlineUpdate: run an updater on the store `host`, then
      flush the content cache. */
  method DoOnlineUpdate(env: Env, callback: Callback, region: string, host: Host, depth: nat)
    returns (res: UpdateResult)
    requires ParsableCatalog(env) && !host.Snapshot().Open()
    modifies host
    ensures (res, host.Snapshot()) == OnlineUpdate(env, region, callback, old(host.Snapshot()), depth)
  {
    var updater := new OnlineSystemUpdater(env, callback, region, host, depth);
    res := updater.DoOnlineUpdate();
    host.Record(CacheCleared);
  }
}
