/**
 * Views of the event trace: the events of one kind, in order.
 */
module Trace {
  import opened Types

  function Filter(es: seq<Event>, keep: Event -> bool): (r: seq<Event>)
    ensures |r| <= |es|
    ensures forall i :: 0 <= i < |r| ==> keep(r[i])
  {
    if es == [] then []
    else (if keep(es[0]) then [es[0]] else []) + Filter(es[1..], keep)
  }

  lemma {:induction false} FilterAppend(a: seq<Event>, b: seq<Event>, keep: Event -> bool)
    ensures Filter(a + b, keep) == Filter(a, keep) + Filter(b, keep)
  {
    if a == [] {
      assert a + b == b;
    } else {
      assert (a + b)[1..] == a[1..] + b;
      FilterAppend(a[1..], b, keep);
    }
  }

  lemma FilterSingle(e: Event, keep: Event -> bool)
    ensures Filter([e], keep) == if keep(e) then [e] else []
  {
    assert [e][1..] == [];
  }

  /** A trace none of whose events is kept filters to nothing. */
  lemma FilterNone(es: seq<Event>, keep: Event -> bool)
    requires forall k :: 0 <= k < |es| ==> !keep(es[k])
    ensures Filter(es, keep) == []
  {
  }

  predicate IsFinalize(e: Event) { e.IsFinalize() }

  /** A call of the content half of an import. */
  predicate IsContentCall(e: Event) {
    e.ContentBegin? || e.ContentData? || e.ContentEnd?
  }

  /** The content ids of the ImportContentBegin calls in a trace, in order. */
  function BeginIds(es: seq<Event>): seq<u32> {
    if es == [] then []
    else (if es[0].ContentBegin? then [es[0].contentId] else []) + BeginIds(es[1..])
  }

  lemma {:induction false} BeginIdsAppend(a: seq<Event>, b: seq<Event>)
    ensures BeginIds(a + b) == BeginIds(a) + BeginIds(b)
  {
    if a == [] {
      assert a + b == b;
    } else {
      var e := a[0];
      var h := if e.ContentBegin? then [e.contentId] else [];
      assert (a + b)[0] == e && (a + b)[1..] == a[1..] + b;
      BeginIdsAppend(a[1..], b);
      calc {
        BeginIds(a + b);
        h + BeginIds(a[1..] + b);
        h + (BeginIds(a[1..]) + BeginIds(b));
        (h + BeginIds(a[1..])) + BeginIds(b);
        BeginIds(a) + BeginIds(b);
      }
    }
  }

  /** A trace without ImportContentBegin calls has no begin ids. */
  lemma BeginIdsNone(es: seq<Event>)
    requires forall k :: 0 <= k < |es| ==> !es[k].ContentBegin?
    ensures BeginIds(es) == []
  {
  }

  predicate IsGet(e: Event) { e.Get? }

  predicate IsProgress(e: Event) { e.Progress? }

  predicate IsStoreCall(e: Event) {
    e.TicketImport? || e.TitleInit? || e.ContentBegin? || e.ContentData? || e.ContentEnd?
    || e.TitleDone? || e.TitleCancel?
  }

  /** The finalisations (ImportTitleDone, ImportTitleCancel) in a trace. */
  function Finalizes(es: seq<Event>): (r: seq<Event>)
    ensures forall i :: 0 <= i < |r| ==> r[i].IsFinalize()
  {
    Filter(es, IsFinalize)
  }

  /** The transport requests in a trace. */
  function Gets(es: seq<Event>): seq<Event> { Filter(es, IsGet) }

  /** The progress reports in a trace. */
  function Progresses(es: seq<Event>): seq<Event> { Filter(es, IsProgress) }

  /** The store calls in a trace. */
  function StoreCalls(es: seq<Event>): seq<Event> { Filter(es, IsStoreCall) }

  /** The events a run added to a trace that it only extended. */
  function Added(before: seq<Event>, after: seq<Event>): seq<Event>
    requires |before| <= |after|
  {
    after[|before|..]
  }

  predicate Extends(before: seq<Event>, after: seq<Event>) {
    |before| <= |after| && after[..|before|] == before
  }

  lemma AddedAppend(a: seq<Event>, b: seq<Event>, c: seq<Event>)
    requires Extends(a, b) && Extends(b, c)
    ensures Extends(a, c)
    ensures Added(a, c) == Added(a, b) + Added(b, c)
  {
    assert c[..|a|] == c[..|b|][..|a|];
  }
}
