/**
 * The secure title store (ES) as the installer sees it, together with the
 * host-wide signature-check flag and a trace of everything the engine does.
 *
 * Verification inside the store is not modelled: each mutating store call
 * takes its return code from `replies`, a script of verdicts supplied with
 * the state (an exhausted script answers IPC_SUCCESS). What the store does
 * with a successful call is modelled: an import context is opened by
 * ImportTitleInit, one content at a time is imported into it, and
 * ImportTitleDone installs the TMD and records its contents as stored.
 */
module Es {
  import opened Types

  /** An open title-import context. */
  datatype Context = Context(tmd: Tmd, imported: seq<u32>, current: Option<u32>)

  datatype State = State(
    sigChecks: bool,                 // SConfig::m_enable_signature_checks
    installed: map<u64, Tmd>,        // FindInstalledTMD
    stored: map<u64, set<u32>>,      // content ids present on the NAND, per title
    context: Option<Context>,        // the import context the engine holds
    replies: seq<int>,               // verdicts of the next store calls
    log: seq<Event>)
  {
    predicate Open() { context.Some? }
    predicate Idle() { context.Some? && context.value.current.None? }
    predicate InContent() { context.Some? && context.value.current.Some? }
  }

  // ---- queries -------------------------------------------------------

  function FindInstalledTmd(s: State, id: u64): (r: Option<Tmd>)
    ensures r.Some? <==> id in s.installed
  {
    if id in s.installed then Some(s.installed[id]) else None
  }

  function StoredIds(s: State, id: u64): set<u32> {
    if id in s.stored then s.stored[id] else {}
  }

  /** The ids of a content list, in order. */
  function Ids(cs: seq<Content>): (r: seq<u32>)
    ensures |r| == |cs| && forall i :: 0 <= i < |cs| ==> r[i] == cs[i].id
  {
    if cs == [] then [] else [cs[0].id] + Ids(cs[1..])
  }

  lemma {:induction false} IdsAppend(a: seq<Content>, b: seq<Content>)
    ensures Ids(a + b) == Ids(a) + Ids(b)
  {
    if a == [] {
      assert a + b == b;
    } else {
      assert (a + b)[1..] == a[1..] + b;
      IdsAppend(a[1..], b);
    }
  }

  /** The contents of `cs` whose ids pass `present`, in order. */
  function Present(cs: seq<Content>, present: set<u32>): (r: seq<Content>)
    ensures |r| <= |cs|
    ensures forall c :: c in r <==> c in cs && c.id in present
  {
    if cs == [] then []
    else (if cs[0].id in present then [cs[0]] else []) + Present(cs[1..], present)
  }

  /** GetStoredContentsFromTMD: the TMD's contents that are on the NAND. */
  function GetStoredContents(s: State, tmd: Tmd): (r: seq<Content>)
    ensures forall c :: c in r <==> c in tmd.contents && c.id in StoredIds(s, tmd.titleId)
  {
    Present(tmd.contents, StoredIds(s, tmd.titleId))
  }

  /** All of a content list is present exactly when filtering keeps its length. */
  lemma {:induction false} PresentAll(cs: seq<Content>, present: set<u32>)
    ensures |Present(cs, present)| == |cs| <==> forall i :: 0 <= i < |cs| ==> cs[i].id in present
  {
    if cs != [] {
      PresentAll(cs[1..], present);
      assert forall i :: 1 <= i < |cs| ==> cs[i] == cs[1..][i - 1];
    }
  }

  /** SystemUpdater::ShouldInstallTitle. */
  predicate ShouldInstallTitle(s: State, title: TitleInfo) {
    var tmd := FindInstalledTmd(s, title.id);
    !(tmd.Some? && tmd.value.version >= title.version
      && |GetStoredContents(s, tmd.value)| == |tmd.value.contents|)
  }

  /** A title is up to date exactly when it is installed at the target version
      or later with every one of its contents stored. */
  lemma UpToDateMeaning(s: State, title: TitleInfo)
    ensures !ShouldInstallTitle(s, title) <==>
              && title.id in s.installed
              && s.installed[title.id].version >= title.version
              && forall c :: c in s.installed[title.id].contents ==>
                   c.id in StoredIds(s, s.installed[title.id].titleId)
  {
    if title.id in s.installed {
      var tmd := s.installed[title.id];
      PresentAll(tmd.contents, StoredIds(s, tmd.titleId));
    }
  }

  // ---- store calls ---------------------------------------------------

  function Reply(s: State): int {
    if s.replies == [] then IPC_SUCCESS else s.replies[0]
  }

  function Consume(s: State, e: Event): (s': State)
    ensures s'.log == s.log + [e]
    ensures s'.context == s.context && s'.installed == s.installed && s'.stored == s.stored
    ensures s'.sigChecks == s.sigChecks
  {
    s.(replies := if s.replies == [] then [] else s.replies[1..], log := s.log + [e])
  }

  /** ES::ImportTicket. */
  function EsImportTicket(s: State, ticket: bytes): (r: (int, State))
    ensures r.1.log == s.log + [TicketImport(ticket, s.sigChecks, r.0)]
    ensures r.1.context == s.context && r.1.installed == s.installed && r.1.stored == s.stored
    ensures r.1.sigChecks == s.sigChecks
  {
    var rc := Reply(s);
    (rc, Consume(s, TicketImport(ticket, s.sigChecks, rc)))
  }

  /** ES::ImportTitleInit: opens a context on success. */
  function EsImportTitleInit(s: State, tmd: Tmd): (r: (int, State))
    requires !s.Open()
    ensures r.1.log == s.log + [TitleInit(tmd.titleId, s.sigChecks, r.0)]
    ensures r.1.Open() <==> r.0 >= 0
    ensures r.0 >= 0 ==> r.1.context == Some(Context(tmd, [], None))
    ensures r.1.installed == s.installed && r.1.stored == s.stored
    ensures r.1.sigChecks == s.sigChecks
  {
    var rc := Reply(s);
    var s1 := Consume(s, TitleInit(tmd.titleId, s.sigChecks, rc));
    (rc, if rc >= 0 then s1.(context := Some(Context(tmd, [], None))) else s1)
  }

  /** ES::ImportContentBegin. */
  function EsImportContentBegin(s: State, titleId: u64, cid: u32): (r: (int, State))
    requires s.Idle()
    ensures r.1.log == s.log + [ContentBegin(titleId, cid, r.0)]
    ensures r.1.Open() && (r.0 >= 0 <==> r.1.InContent())
    ensures r.1.installed == s.installed
    ensures r.1.sigChecks == s.sigChecks
  {
    var rc := Reply(s);
    var s1 := Consume(s, ContentBegin(titleId, cid, rc));
    (rc, if rc >= 0 then s1.(context := Some(s.context.value.(current := Some(cid)))) else s1)
  }

  /** ES::ImportContentData. */
  function EsImportContentData(s: State, data: bytes): (r: (int, State))
    requires s.InContent()
    ensures r.1.log == s.log + [ContentData(data, r.0)]
    ensures r.1.InContent() && r.1.installed == s.installed
    ensures r.1.sigChecks == s.sigChecks
  {
    var rc := Reply(s);
    (rc, Consume(s, ContentData(data, rc)))
  }

  /** ES::ImportContentEnd: on success the content counts as imported. */
  function EsImportContentEnd(s: State): (r: (int, State))
    requires s.InContent()
    ensures r.1.log == s.log + [ContentEnd(r.0)]
    ensures r.1.Open() && (r.0 >= 0 <==> r.1.Idle())
    ensures r.1.installed == s.installed
    ensures r.1.sigChecks == s.sigChecks
  {
    var rc := Reply(s);
    var s1 := Consume(s, ContentEnd(rc));
    var ctx := s.context.value;
    (rc, if rc >= 0 then s1.(context := Some(ctx.(imported := ctx.imported + [ctx.current.value], current := None)))
         else s1)
  }

  function SeqToSet(xs: seq<u32>): (r: set<u32>)
    ensures forall x :: x in r <==> x in xs
  {
    set x | x in xs
  }

  /** ES::ImportTitleDone: on success the TMD is installed and the imported
      contents join the stored ones. The context ends either way. */
  function EsImportTitleDone(s: State): (r: (int, State))
    requires s.Open()
    ensures r.1.log == s.log + [TitleDone(r.0)]
    ensures !r.1.Open()
    ensures r.0 < 0 ==> r.1.installed == s.installed && r.1.stored == s.stored
    ensures r.0 >= 0 ==> r.1.installed == s.installed[s.context.value.tmd.titleId := s.context.value.tmd]
    ensures r.0 >= 0 ==> var id := s.context.value.tmd.titleId;
              r.1.stored == s.stored[id := StoredIds(s, id) + SeqToSet(s.context.value.imported)]
    ensures r.1.sigChecks == s.sigChecks
  {
    var rc := Reply(s);
    var s1 := Consume(s, TitleDone(rc)).(context := None);
    var ctx := s.context.value;
    var id := ctx.tmd.titleId;
    (rc, if rc >= 0 then s1.(installed := s.installed[id := ctx.tmd],
                             stored := s.stored[id := StoredIds(s, id) + SeqToSet(ctx.imported)])
         else s1)
  }

  /** ES::ImportTitleCancel: the context ends and nothing is installed. */
  function EsImportTitleCancel(s: State): (r: (int, State))
    requires s.Open()
    ensures r.1.log == s.log + [TitleCancel(r.0)]
    ensures !r.1.Open()
    ensures r.1.installed == s.installed && r.1.stored == s.stored
    ensures r.1.sigChecks == s.sigChecks
  {
    var rc := Reply(s);
    (rc, Consume(s, TitleCancel(rc)).(context := None))
  }

  /** The finalisation both installers select: ImportTitleDone when every
      content was imported, ImportTitleCancel otherwise. */
  function FinalizeImport(s: State, imported: bool): (r: (int, State))
    requires s.Open()
    ensures r.1.log == s.log + [if imported then TitleDone(r.0) else TitleCancel(r.0)]
    ensures !r.1.Open() && r.1.sigChecks == s.sigChecks
    ensures imported && r.0 >= 0 ==>
              var ctx := s.context.value;
              && r.1.installed == s.installed[ctx.tmd.titleId := ctx.tmd]
              && r.1.stored == s.stored[ctx.tmd.titleId := StoredIds(s, ctx.tmd.titleId) + SeqToSet(ctx.imported)]
    ensures !(imported && r.0 >= 0) ==> r.1.installed == s.installed && r.1.stored == s.stored
  {
    if imported then EsImportTitleDone(s) else EsImportTitleCancel(s)
  }

  // ---- host side channels --------------------------------------------

  /** Appends a non-store event (a request, a dialog, a progress report, a cache flush). */
  function Note(s: State, e: Event): (s': State)
    ensures s' == s.(log := s.log + [e])
  {
    s.(log := s.log + [e])
  }

  /** Common::HttpRequest::Get over a fixed table of what the server returns. */
  function HttpGet(s: State, http: map<string, bytes>, url: string): (r: (Option<bytes>, State))
    ensures r.1 == Note(s, Get(url))
    ensures r.0.Some? <==> url in http
  {
    (if url in http then Some(http[url]) else None, Note(s, Get(url)))
  }

  /**
   * The store object. Its fields are those of `State`; every method does
   * to them what the corresponding function above does to a `State`.
   */
  class Host {
    var sigChecks: bool
    var installed: map<u64, Tmd>
    var stored: map<u64, set<u32>>
    var context: Option<Context>
    var replies: seq<int>
    var log: seq<Event>

    function Snapshot(): (s: State)
      reads this
    {
      State(sigChecks, installed, stored, context, replies, log)
    }

    constructor (s: State)
      ensures Snapshot() == s
    {
      sigChecks, installed, stored, context, replies, log :=
        s.sigChecks, s.installed, s.stored, s.context, s.replies, s.log;
    }

    method SetSignatureChecks(on: bool)
      modifies this
      ensures Snapshot() == old(Snapshot()).(sigChecks := on)
    {
      sigChecks := on;
    }

    method Record(e: Event)
      modifies this
      ensures Snapshot() == Note(old(Snapshot()), e)
    {
      log := log + [e];
    }

    method Get(http: map<string, bytes>, url: string) returns (data: Option<bytes>)
      modifies this
      ensures (data, Snapshot()) == HttpGet(old(Snapshot()), http, url)
    {
      data := if url in http then Some(http[url]) else None;
      log := log + [Event.Get(url)];
    }

    method NextReply(e: int -> Event) returns (rc: int)
      modifies this
      ensures rc == Reply(old(Snapshot()))
      ensures Snapshot() == Consume(old(Snapshot()), e(rc))
    {
      rc := if replies == [] then IPC_SUCCESS else replies[0];
      replies := if replies == [] then [] else replies[1..];
      log := log + [e(rc)];
    }

    method ImportTicket(ticket: bytes) returns (rc: int)
      modifies this
      ensures (rc, Snapshot()) == EsImportTicket(old(Snapshot()), ticket)
    {
      var checks := sigChecks;
      rc := NextReply(r => TicketImport(ticket, checks, r));
    }

    method ImportTitleInit(tmd: Tmd) returns (rc: int)
      requires !Snapshot().Open()
      modifies this
      ensures (rc, Snapshot()) == EsImportTitleInit(old(Snapshot()), tmd)
    {
      var checks := sigChecks;
      rc := NextReply(r => TitleInit(tmd.titleId, checks, r));
      if rc >= 0 {
        context := Some(Context(tmd, [], None));
      }
    }

    method ImportContentBegin(titleId: u64, cid: u32) returns (rc: int)
      requires Snapshot().Idle()
      modifies this
      ensures (rc, Snapshot()) == EsImportContentBegin(old(Snapshot()), titleId, cid)
    {
      var ctx := context.value;
      rc := NextReply(r => ContentBegin(titleId, cid, r));
      if rc >= 0 {
        context := Some(ctx.(current := Some(cid)));
      }
    }

    method ImportContentData(data: bytes) returns (rc: int)
      requires Snapshot().InContent()
      modifies this
      ensures (rc, Snapshot()) == EsImportContentData(old(Snapshot()), data)
    {
      rc := NextReply(r => ContentData(data, r));
    }

    method ImportContentEnd() returns (rc: int)
      requires Snapshot().InContent()
      modifies this
      ensures (rc, Snapshot()) == EsImportContentEnd(old(Snapshot()))
    {
      var ctx := context.value;
      rc := NextReply(r => ContentEnd(r));
      if rc >= 0 {
        context := Some(ctx.(imported := ctx.imported + [ctx.current.value], current := None));
      }
    }

    method ImportTitleDone() returns (rc: int)
      requires Snapshot().Open()
      modifies this
      ensures (rc, Snapshot()) == EsImportTitleDone(old(Snapshot()))
    {
      var ctx := context.value;
      var id := ctx.tmd.titleId;
      var before := StoredIds(Snapshot(), id);
      rc := NextReply(r => TitleDone(r));
      context := None;
      if rc >= 0 {
        installed := installed[id := ctx.tmd];
        stored := stored[id := before + SeqToSet(ctx.imported)];
      }
    }

    method ImportTitleCancel() returns (rc: int)
      requires Snapshot().Open()
      modifies this
      ensures (rc, Snapshot()) == EsImportTitleCancel(old(Snapshot()))
    {
      rc := NextReply(r => TitleCancel(r));
      context := None;
    }
  }
}
