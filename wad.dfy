/**
 * WiiUtils::InstallWAD: installs a title from a local WAD package through
 * one import transaction, with a retry that may turn signature checks off
 * for the rest of the attempt once the user agrees.
 */
module Wad {
  import opened Types
  import opened Es
  import opened Trace

  /** DiscIO::WiiWAD as the installer reads it. */
  datatype WiiWad = WiiWad(valid: bool, ticket: bytes, certs: bytes, tmd: Tmd, data: map<u16, bytes>)

  /** WiiWAD::GetContent: the data stored for a content index (empty if absent). */
  function GetContent(w: WiiWad, index: u16): bytes {
    if index in w.data then w.data[index] else []
  }

  /** AskYesNoT: the next scripted answer; an exhausted script answers no. */
  function Answer(answers: seq<bool>): bool {
    answers != [] && answers[0]
  }

  function Rest(answers: seq<bool>): seq<bool> {
    if answers == [] then [] else answers[1..]
  }

  /** One evaluation of the retry loop's condition: ImportTicket, then
      ImportTitleInit if the ticket was accepted; the code of the last call. */
  function InitAttempt(s: State, w: WiiWad): (r: (int, State))
    requires !s.Open()
    ensures r.0 >= 0 <==> r.1.Open()
    ensures r.0 >= 0 ==> r.1.context.value == Context(w.tmd, [], None)
    ensures r.1.installed == s.installed && r.1.stored == s.stored && r.1.sigChecks == s.sigChecks
    ensures Extends(s.log, r.1.log) && |s.log| < |r.1.log| <= |s.log| + 2
    ensures forall k :: |s.log| <= k < |r.1.log| ==>
              (r.1.log[k].TicketImport? || r.1.log[k].TitleInit?) && r.1.log[k].checks == s.sigChecks
    ensures r.1.log[|r.1.log| - 1].rc == r.0
    ensures r.0 >= 0 ==> r.1.log[|r.1.log| - 1].TitleInit?
  {
    var (rc, s1) := EsImportTicket(s, w.ticket);
    if rc < 0 then (rc, s1) else EsImportTitleInit(s1, w.tmd)
  }

  /** The retry loop around ImportTicket and ImportTitleInit: a signature
      check-value failure while checks were enabled at entry asks the user,
      and a yes turns the host flag off and retries; any other failure ends
      the attempt. The flag is not restored here. */
  function InitLoop(s: State, w: WiiWad, checksEnabled: bool, answers: seq<bool>): (r: (bool, State))
    requires !s.Open()
    ensures r.0 <==> r.1.Open()
    ensures r.0 ==> r.1.Idle() && r.1.context.value == Context(w.tmd, [], None)
    ensures r.1.installed == s.installed && r.1.stored == s.stored
    ensures Extends(s.log, r.1.log) && |r.1.log| > |s.log|
    ensures r.0 ==> r.1.log[|r.1.log| - 1].TitleInit? && r.1.log[|r.1.log| - 1].rc >= 0
    decreases |answers|
  {
    var (rc, s2) := InitAttempt(s, w);
    if rc >= 0 then (true, s2)
    else if checksEnabled && rc == IOSC_FAIL_CHECKVALUE && Answer(answers) then
      var s3 := Note(s2, Prompt(true)).(sigChecks := false);
      var r := InitLoop(s3, w, checksEnabled, Rest(answers));
      AddedAppend(s.log, s2.log, s3.log);
      AddedAppend(s.log, s3.log, r.1.log);
      r
    else if checksEnabled && rc == IOSC_FAIL_CHECKVALUE then (false, Note(s2, Prompt(false)))
    else (false, s2)
  }

  /** One content: ImportContentBegin, ImportContentData with the package's
      data for its index, ImportContentEnd, stopping at the first call the
      store rejects. On success the content counts as imported. */
  function ImportOne(s: State, w: WiiWad, titleId: u64, c: Content): (r: (bool, State))
    requires s.Idle()
    ensures r.1.Open() && (r.0 ==> r.1.Idle())
    ensures r.1.installed == s.installed && r.1.stored == s.stored && r.1.sigChecks == s.sigChecks
    ensures r.1.context.value.tmd == s.context.value.tmd
    ensures r.0 ==> r.1.context.value.imported == s.context.value.imported + [c.id]
    ensures Extends(s.log, r.1.log) && |s.log| < |r.1.log| && ContentCallsFrom(r.1.log, |s.log|)
    ensures r.1.log[|s.log|] == ContentBegin(titleId, c.id, r.1.log[|s.log|].rc)
    ensures !r.0 ==> r.1.log[|r.1.log| - 1].rc < 0
  {
    var (rc1, s1) := EsImportContentBegin(s, titleId, c.id);
    if rc1 < 0 then (false, s1)
    else
      var (rc2, s2) := EsImportContentData(s1, GetContent(w, c.index));
      if rc2 < 0 then (false, s2)
      else
        var (rc3, s3) := EsImportContentEnd(s2);
        (rc3 >= 0, s3)
  }

  /** The content loop: every content in TMD order, stopping at the first
      one that fails. */
  function ImportContents(s: State, w: WiiWad, titleId: u64, cs: seq<Content>): (r: (bool, State))
    requires s.Idle()
    ensures r.1.Open() && (r.0 ==> r.1.Idle())
    ensures r.1.installed == s.installed && r.1.stored == s.stored && r.1.sigChecks == s.sigChecks
    ensures r.1.context.value.tmd == s.context.value.tmd
    ensures Extends(s.log, r.1.log)
    decreases |cs|
  {
    if cs == [] then (true, s)
    else
      var (ok, s1) := ImportOne(s, w, titleId, cs[0]);
      if !ok then (false, s1)
      else ImportContents(s1, w, titleId, cs[1..])
  }

  /** The second half of InstallWAD: the content loop, its finalisation and
      the cache flush when that finalisation succeeds. */
  function FinishImport(s: State, w: WiiWad): (r: (bool, State))
    requires s.Idle()
    ensures !r.1.Open()
    ensures r.1.sigChecks == s.sigChecks
    ensures Extends(s.log, r.1.log)
  {
    var (imported, s3) := ImportContents(s, w, w.tmd.titleId, w.tmd.contents);
    var (rc, s4) := FinalizeImport(s3, imported);
    if rc < 0 then (false, s4) else (true, Note(s4, CacheCleared))
  }

  /** InstallWAD from its package validity check to its return. Whatever the
      path, the signature-check flag ends as it was at entry and no import
      context is left open. */
  function InstallWadSpec(s: State, w: WiiWad, answers: seq<bool>): (r: (bool, State))
    requires !s.Open()
    ensures r.1.sigChecks == s.sigChecks
    ensures !r.1.Open()
    ensures Extends(s.log, r.1.log)
  {
    if !w.valid then (false, s)
    else
      var checks := s.sigChecks;
      var (started, s1) := InitLoop(s, w, checks, answers);
      if !started then (false, s1.(sigChecks := checks))
      else FinishImport(s1.(sigChecks := checks), w)
  }

  /** WiiUtils::InstallWAD on the store `host`, the package `w` and the
      user's answers to the unsigned-package question. */
  method InstallWad(host: Host, w: WiiWad, answers: seq<bool>) returns (ok: bool)
    requires !host.Snapshot().Open()
    modifies host
    ensures (ok, host.Snapshot()) == InstallWadSpec(old(host.Snapshot()), w, answers)
  {
    if !w.valid {
      return false;
    }
    ghost var s0 := host.Snapshot();
    var checksEnabled := host.sigChecks;
    var pending := answers;
    var rc: int;
    while true
      invariant !host.Snapshot().Open()
      invariant host.Snapshot().sigChecks == checksEnabled || host.Snapshot().sigChecks == false
      invariant InitLoop(s0, w, checksEnabled, answers) == InitLoop(host.Snapshot(), w, checksEnabled, pending)
      decreases |pending|
    {
      ghost var before := host.Snapshot();
      rc := host.ImportTicket(w.ticket);
      if rc >= 0 {
        rc := host.ImportTitleInit(w.tmd);
      }
      assert (rc, host.Snapshot()) == InitAttempt(before, w);
      if rc >= 0 {
        break;
      }
      if checksEnabled && rc == IOSC_FAIL_CHECKVALUE {
        var yes := Answer(pending);
        host.Record(Prompt(yes));
        if yes {
          host.SetSignatureChecks(false);
          pending := Rest(pending);
          continue;
        }
      }
      host.SetSignatureChecks(checksEnabled);
      return false;
    }
    host.SetSignatureChecks(checksEnabled);
    ok := FinishImportOn(host, w);
  }

  /** Lines 73-98 of InstallWAD on the store `host`, whose import context is open. */
  method FinishImportOn(host: Host, w: WiiWad) returns (ok: bool)
    requires host.Snapshot().Idle()
    modifies host
    ensures (ok, host.Snapshot()) == FinishImport(old(host.Snapshot()), w)
  {
    ghost var s2 := host.Snapshot();
    var contentsImported := true;
    var titleId := w.tmd.titleId;
    var i := 0;
    while i < |w.tmd.contents|
      invariant 0 <= i <= |w.tmd.contents|
      invariant host.Snapshot().Idle()
      invariant ImportContents(s2, w, titleId, w.tmd.contents)
                == ImportContents(host.Snapshot(), w, titleId, w.tmd.contents[i..])
    {
      var content := w.tmd.contents[i];
      assert w.tmd.contents[i..][0] == content && w.tmd.contents[i..][1..] == w.tmd.contents[i + 1..];
      ghost var before := host.Snapshot();
      var r := host.ImportContentBegin(titleId, content.id);
      if r >= 0 {
        r := host.ImportContentData(GetContent(w, content.index));
        if r >= 0 {
          r := host.ImportContentEnd();
        }
      }
      assert (r >= 0, host.Snapshot()) == ImportOne(before, w, titleId, content);
      if r < 0 {
        contentsImported := false;
        break;
      }
      i := i + 1;
    }

    var rc: int;
    ghost var s3 := host.Snapshot();
    if contentsImported {
      rc := host.ImportTitleDone();
    } else {
      rc := host.ImportTitleCancel();
    }
    assert (rc, host.Snapshot()) == FinalizeImport(s3, contentsImported);
    if rc < 0 {
      return false;
    }
    host.Record(CacheCleared);
    return true;
  }

  // ---- properties ----------------------------------------------------

  /** A ticket or title import made while signature checks were off. */
  predicate ChecksOff(e: Event) {
    (e.TicketImport? || e.TitleInit?) && !e.checks
  }

  /** A ticket or title import rejected with the signature check-value error. */
  predicate IsCheckValueFailure(e: Event) {
    (e.TicketImport? || e.TitleInit?) && e.rc == IOSC_FAIL_CHECKVALUE
  }

  /** From position `from` on, the trace holds only imports and prompts,
      and every prompt answers a check-value failure just before it. */
  predicate PromptsAnswerFailures(log: seq<Event>, from: nat, checksEnabled: bool) {
    forall k :: from <= k < |log| ==>
      && (log[k].TicketImport? || log[k].TitleInit? || log[k].Prompt?)
      && (log[k].Prompt? ==> checksEnabled && from < k && IsCheckValueFailure(log[k - 1]))
  }

  /** The first attempt's imports followed by a yes, then a trace that keeps
      the rule from there on, keep the rule from the start. */
  lemma PromptsAfterYes(l0: seq<Event>, l2: seq<Event>, l4: seq<Event>, checksEnabled: bool)
    requires Extends(l0, l2) && |l0| < |l2| && checksEnabled
    requires forall k :: |l0| <= k < |l2| ==> l2[k].TicketImport? || l2[k].TitleInit?
    requires IsCheckValueFailure(l2[|l2| - 1])
    requires Extends(l2 + [Prompt(true)], l4) && PromptsAnswerFailures(l4, |l2| + 1, checksEnabled)
    ensures PromptsAnswerFailures(l4, |l0|, checksEnabled)
  {
    assert forall k :: 0 <= k <= |l2| ==> l4[k] == (l2 + [Prompt(true)])[k];
  }

  /** The last attempt's imports, followed by a no when it asked, keep the rule. */
  lemma PromptsAtEnd(l0: seq<Event>, l2: seq<Event>, l4: seq<Event>, checksEnabled: bool)
    requires Extends(l0, l2) && |l0| < |l2|
    requires forall k :: |l0| <= k < |l2| ==> l2[k].TicketImport? || l2[k].TitleInit?
    requires l4 == l2 || (l4 == l2 + [Prompt(false)] && checksEnabled && IsCheckValueFailure(l2[|l2| - 1]))
    ensures PromptsAnswerFailures(l4, |l0|, checksEnabled)
  {
  }

  /** The retry loop only imports and asks, and it asks only right after a
      check-value failure, and only when checks were enabled at entry. */
  lemma {:induction false} InitLoopPrompts(s: State, w: WiiWad, checksEnabled: bool, answers: seq<bool>)
    requires !s.Open()
    ensures PromptsAnswerFailures(InitLoop(s, w, checksEnabled, answers).1.log, |s.log|, checksEnabled)
    decreases |answers|
  {
    var (rc2, s2) := InitAttempt(s, w);
    var r := InitLoop(s, w, checksEnabled, answers);
    if rc2 < 0 && checksEnabled && rc2 == IOSC_FAIL_CHECKVALUE && Answer(answers) {
      var s3 := Note(s2, Prompt(true)).(sigChecks := false);
      InitLoopPrompts(s3, w, checksEnabled, Rest(answers));
      assert r == InitLoop(s3, w, checksEnabled, Rest(answers));
      PromptsAfterYes(s.log, s2.log, r.1.log, checksEnabled);
    } else {
      PromptsAtEnd(s.log, s2.log, r.1.log, checksEnabled);
    }
  }

  /** After a yes, every later import is consented to; before it, the
      attempt's imports ran with the flag as it was at entry. */
  lemma ConsentAfterYes(l0: seq<Event>, l2: seq<Event>, l4: seq<Event>, checksAtEntry: bool)
    requires Extends(l0, l2) && Extends(l2 + [Prompt(true)], l4)
    requires forall k :: |l0| <= k < |l2| ==> ChecksOff(l2[k]) ==> !checksAtEntry
    ensures ConsentFrom(l4, |l0|, checksAtEntry)
  {
    assert l4[|l2|] == (l2 + [Prompt(true)])[|l2|];
    forall k | |l0| <= k < |l4| && ChecksOff(l4[k])
      ensures !checksAtEntry || Prompt(true) in l4[|l0|..k]
    {
      if k < |l2| {
        assert l4[k] == (l2 + [Prompt(true)])[k];
      } else {
        assert l4[|l0|..k][|l2| - |l0|] == l4[|l2|];
      }
    }
  }

  /** The last attempt's imports ran with the flag as it was at entry. */
  lemma ConsentAtEnd(l0: seq<Event>, l2: seq<Event>, l4: seq<Event>, checksAtEntry: bool)
    requires Extends(l0, l2) && (l4 == l2 || l4 == l2 + [Prompt(false)])
    requires forall k :: |l0| <= k < |l2| ==> ChecksOff(l2[k]) ==> !checksAtEntry
    ensures ConsentFrom(l4, |l0|, checksAtEntry)
  {
  }

  /** An import runs with signature checks off only if they were off when the
      loop started or the user had already said yes in this loop. */
  lemma InitLoopConsent(s: State, w: WiiWad, checksEnabled: bool, answers: seq<bool>)
    requires !s.Open()
    ensures ConsentFrom(InitLoop(s, w, checksEnabled, answers).1.log, |s.log|, s.sigChecks)
  {
    var (rc2, s2) := InitAttempt(s, w);
    var r := InitLoop(s, w, checksEnabled, answers);
    if rc2 < 0 && checksEnabled && rc2 == IOSC_FAIL_CHECKVALUE && Answer(answers) {
      var s3 := Note(s2, Prompt(true)).(sigChecks := false);
      assert r == InitLoop(s3, w, checksEnabled, Rest(answers));
      ConsentAfterYes(s.log, s2.log, r.1.log, s.sigChecks);
    } else {
      ConsentAtEnd(s.log, s2.log, r.1.log, s.sigChecks);
    }
  }

  /** From position `from` on, the trace holds only content calls. */
  predicate ContentCallsFrom(log: seq<Event>, from: nat) {
    forall k :: from <= k < |log| ==> IsContentCall(log[k])
  }

  /** The trace grew past `from` and its last event is a content call the
      store rejected. */
  predicate EndsRejected(log: seq<Event>, from: nat) {
    |log| > from && IsContentCall(log[|log| - 1]) && log[|log| - 1].rc < 0
  }

  /** Content calls after `l0` up to `l1`, then after `l1` up to `l2`, are
      content calls after `l0` up to `l2`. */
  lemma ContentCallsThen(l0: seq<Event>, l1: seq<Event>, l2: seq<Event>)
    requires Extends(l0, l1) && Extends(l1, l2)
    requires ContentCallsFrom(l1, |l0|) && ContentCallsFrom(l2, |l1|)
    ensures ContentCallsFrom(l2, |l0|)
  {
    assert forall k :: |l0| <= k < |l1| ==> l2[k] == l1[k];
  }

  /** The content loop issues only content calls, and when it fails the last
      of them is a call the store rejected. */
  lemma {:induction false} ImportContentsCalls(s: State, w: WiiWad, titleId: u64, cs: seq<Content>)
    requires s.Idle()
    ensures var r := ImportContents(s, w, titleId, cs);
      && ContentCallsFrom(r.1.log, |s.log|)
      && (!r.0 ==> EndsRejected(r.1.log, |s.log|))
    decreases |cs|
  {
    if cs != [] {
      var (ok, s1) := ImportOne(s, w, titleId, cs[0]);
      if ok {
        ImportContentsCalls(s1, w, titleId, cs[1..]);
        var r := ImportContents(s1, w, titleId, cs[1..]);
        assert ImportContents(s, w, titleId, cs) == r;
        ContentCallsThen(s.log, s1.log, r.1.log);
      }
    }
  }

  /** When the content loop succeeds, every content of the list was imported,
      in list order, with none skipped. */
  lemma {:induction false} ImportContentsAll(s: State, w: WiiWad, titleId: u64, cs: seq<Content>)
    requires s.Idle()
    ensures var r := ImportContents(s, w, titleId, cs);
      r.0 ==> r.1.context.value.imported == s.context.value.imported + Ids(cs)
    decreases |cs|
  {
    if cs != [] {
      var (ok, s1) := ImportOne(s, w, titleId, cs[0]);
      if ok {
        ImportContentsAll(s1, w, titleId, cs[1..]);
        assert Ids(cs) == [cs[0].id] + Ids(cs[1..]);
      }
    }
  }

  /** A trace segment of content calls, then one finalisation, then possibly
      a cache flush, holds exactly that finalisation, and the flush exactly
      when it is there. */
  lemma OneFinalization(l0: seq<Event>, l1: seq<Event>, l2: seq<Event>, fin: Event, tail: seq<Event>)
    requires Extends(l0, l1) && ContentCallsFrom(l1, |l0|)
    requires l2 == l1 + [fin] + tail
    requires fin.IsFinalize() && (tail == [] || tail == [CacheCleared])
    ensures Extends(l0, l2)
    ensures Finalizes(Added(l0, l2)) == [fin]
    ensures CacheCleared in Added(l0, l2) <==> tail != []
  {
    var loop := Added(l0, l1);
    assert Added(l0, l2) == loop + [fin] + tail;
    SegmentFinalizes(loop, fin, tail);
  }

  lemma SegmentFinalizes(loop: seq<Event>, fin: Event, tail: seq<Event>)
    requires forall k :: 0 <= k < |loop| ==> IsContentCall(loop[k])
    requires fin.IsFinalize() && (tail == [] || tail == [CacheCleared])
    ensures Finalizes(loop + [fin] + tail) == [fin]
    ensures CacheCleared in loop + [fin] + tail <==> tail != []
  {
    FilterNone(loop, IsFinalize);
    FilterAppend(loop, [fin], IsFinalize);
    FilterAppend(loop + [fin], tail, IsFinalize);
    if tail != [] {
      assert (loop + [fin] + tail)[|loop| + 1] == CacheCleared;
    }
  }

  /** The same segment holds nothing but content calls, the finalisation and
      the flush. */
  lemma FinishEvents(l0: seq<Event>, l1: seq<Event>, l2: seq<Event>, fin: Event, tail: seq<Event>)
    requires Extends(l0, l1) && ContentCallsFrom(l1, |l0|)
    requires l2 == l1 + [fin] + tail && (tail == [] || tail == [CacheCleared])
    ensures forall k :: |l0| <= k < |l2| ==>
      IsContentCall(l2[k]) || l2[k] == fin || l2[k] == CacheCleared
  {
    forall k | |l0| <= k < |l2|
      ensures IsContentCall(l2[k]) || l2[k] == fin || l2[k] == CacheCleared
    {
      if k < |l1| {
        assert l2[k] == l1[k];
      }
    }
  }

  /** The shape of the trace InstallWAD's second half leaves. */
  lemma FinishImportLog(s: State, w: WiiWad)
    requires s.Idle()
    ensures var c := ImportContents(s, w, w.tmd.titleId, w.tmd.contents);
      var z := FinalizeImport(c.1, c.0);
      var r := FinishImport(s, w);
      && r.0 == (z.0 >= 0)
      && r.1.log == c.1.log + [if c.0 then TitleDone(z.0) else TitleCancel(z.0)]
                    + (if z.0 < 0 then [] else [CacheCleared])
  {
  }

  /** InstallWAD's second half finalises exactly once: ImportTitleDone when
      the content loop imported everything, ImportTitleCancel otherwise. It
      reports success, and flushes the cache, exactly when that finalisation
      succeeded, whichever of the two it was. */
  lemma FinishImportFinalizesOnce(s: State, w: WiiWad)
    requires s.Idle()
    ensures var r := FinishImport(s, w);
      var f := Finalizes(Added(s.log, r.1.log));
      && |f| == 1
      && (f[0].TitleDone? <==> ImportContents(s, w, w.tmd.titleId, w.tmd.contents).0)
      && (r.0 <==> f[0].rc >= 0)
      && (r.0 <==> CacheCleared in Added(s.log, r.1.log))
  {
    var c := ImportContents(s, w, w.tmd.titleId, w.tmd.contents);
    var z := FinalizeImport(c.1, c.0);
    var fin := if c.0 then TitleDone(z.0) else TitleCancel(z.0);
    var tail := if z.0 < 0 then [] else [CacheCleared];
    var r := FinishImport(s, w);
    FinishImportLog(s, w);
    ImportContentsCalls(s, w, w.tmd.titleId, w.tmd.contents);
    OneFinalization(s.log, c.1.log, r.1.log, fin, tail);
  }

  /** What InstallWAD's second half leaves in the store: when the contents
      and ImportTitleDone succeed, the package's TMD is installed and all its
      contents are stored; in every other case, including the one where a
      content failed but ImportTitleCancel succeeded and success is reported,
      nothing is installed or stored. */
  lemma FinishImportInstalls(s: State, w: WiiWad)
    requires s.Idle() && s.context.value == Context(w.tmd, [], None)
    ensures var r := FinishImport(s, w);
      var id := w.tmd.titleId;
      if r.0 && ImportContents(s, w, id, w.tmd.contents).0 then
        && r.1.installed == s.installed[id := w.tmd]
        && r.1.stored == s.stored[id := StoredIds(s, id) + SeqToSet(Ids(w.tmd.contents))]
      else
        r.1.installed == s.installed && r.1.stored == s.stored
  {
    var c := ImportContents(s, w, w.tmd.titleId, w.tmd.contents);
    ImportContentsAll(s, w, w.tmd.titleId, w.tmd.contents);
    assert c.0 ==> c.1.context.value.imported == Ids(w.tmd.contents);
    assert StoredIds(c.1, w.tmd.titleId) == StoredIds(s, w.tmd.titleId);
  }

  /** The first half of InstallWAD neither finalises nor flushes the cache,
      so whatever follows it holds all of the run's finalisations and flushes. */
  lemma InitThenFinish(l0: seq<Event>, l1: seq<Event>, l2: seq<Event>, checksEnabled: bool)
    requires Extends(l0, l1) && Extends(l1, l2) && PromptsAnswerFailures(l1, |l0|, checksEnabled)
    ensures Extends(l0, l2)
    ensures Finalizes(Added(l0, l2)) == Finalizes(Added(l1, l2))
    ensures CacheCleared in Added(l0, l2) <==> CacheCleared in Added(l1, l2)
  {
    var init := Added(l0, l1);
    assert forall k :: 0 <= k < |init| ==> init[k] == l1[|l0| + k];
    FilterNone(init, IsFinalize);
    assert CacheCleared !in init;
    AddedAppend(l0, l1, l2);
    FilterAppend(init, Added(l1, l2), IsFinalize);
  }

  /** Every trace InstallWAD leaves: at most one finalisation, and one exactly
      when the import context was opened; success is reported exactly when
      the cache is flushed; the store changes only on success, and then only
      by installing the package's title. */
  lemma InstallWadOutcome(s: State, w: WiiWad, answers: seq<bool>)
    requires !s.Open()
    ensures var r := InstallWadSpec(s, w, answers);
      var a := Added(s.log, r.1.log);
      && (!w.valid ==> r == (false, s))
      && |Finalizes(a)| == (if w.valid && InitLoop(s, w, s.sigChecks, answers).0 then 1 else 0)
      && (r.0 <==> CacheCleared in a)
      && (r.1.installed == s.installed || (r.0 && r.1.installed == s.installed[w.tmd.titleId := w.tmd]))
  {
    var r := InstallWadSpec(s, w, answers);
    if w.valid {
      var i := InitLoop(s, w, s.sigChecks, answers);
      InitLoopPrompts(s, w, s.sigChecks, answers);
      if i.0 {
        var s2 := i.1.(sigChecks := s.sigChecks);
        assert r == FinishImport(s2, w);
        FinishImportFinalizesOnce(s2, w);
        FinishImportInstalls(s2, w);
        InitThenFinish(s.log, s2.log, r.1.log, s.sigChecks);
      } else {
        InitThenFinish(s.log, i.1.log, r.1.log, s.sigChecks);
      }
    }
  }

  /** The second half of InstallWAD makes no ticket or title import: it only
      imports contents, finalises and flushes the cache. */
  lemma FinishImportEvents(s: State, w: WiiWad)
    requires s.Idle()
    ensures var r := FinishImport(s, w);
      forall k :: |s.log| <= k < |r.1.log| ==>
        IsContentCall(r.1.log[k]) || r.1.log[k].IsFinalize() || r.1.log[k] == CacheCleared
  {
    var c := ImportContents(s, w, w.tmd.titleId, w.tmd.contents);
    var z := FinalizeImport(c.1, c.0);
    var fin := if c.0 then TitleDone(z.0) else TitleCancel(z.0);
    var tail := if z.0 < 0 then [] else [CacheCleared];
    var r := FinishImport(s, w);
    FinishImportLog(s, w);
    ImportContentsCalls(s, w, w.tmd.titleId, w.tmd.contents);
    FinishEvents(s.log, c.1.log, r.1.log, fin, tail);
  }

  /** From position `from` on, an import with checks off comes only when they
      were off at `from` or after a yes to the unsigned-package question. */
  predicate ConsentFrom(log: seq<Event>, from: nat, checksAtEntry: bool)
    requires from <= |log|
  {
    forall k :: from <= k < |log| && ChecksOff(log[k]) ==>
      !checksAtEntry || Prompt(true) in log[from..k]
  }

  lemma ConsentExtend(log: seq<Event>, from: nat, n: nat, checksAtEntry: bool)
    requires from <= n <= |log| && ConsentFrom(log[..n], from, checksAtEntry)
    requires forall k :: n <= k < |log| ==> !ChecksOff(log[k])
    ensures ConsentFrom(log, from, checksAtEntry)
  {
    forall k | from <= k < n
      ensures log[k] == log[..n][k] && log[from..k] == log[..n][from..k]
    {
    }
  }

  /** InstallWAD imports the ticket or the title with signature checks off
      only if they were already off at entry or the user had agreed to import
      the unsigned package. */
  lemma InstallWadConsent(s: State, w: WiiWad, answers: seq<bool>)
    requires !s.Open()
    ensures var r := InstallWadSpec(s, w, answers);
      ConsentFrom(r.1.log, |s.log|, s.sigChecks)
  {
    var r := InstallWadSpec(s, w, answers);
    if w.valid {
      var i := InitLoop(s, w, s.sigChecks, answers);
      InitLoopConsent(s, w, s.sigChecks, answers);
      if i.0 {
        var s2 := i.1.(sigChecks := s.sigChecks);
        FinishImportEvents(s2, w);
        ConsentExtend(r.1.log, |s.log|, |i.1.log|, s.sigChecks);
      }
    }
  }
}
