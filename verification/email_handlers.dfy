/**
 The email handlers: `CollectingEmailHandler`, which keeps the emails every
 filter accepts, and `CompositeEmailHandler`, which forwards each email to
 its children in registration order.
 */
module EmailHandlers {
  import opened Mail

  /** A filter: `true` when the email should be collected. */
  type Filter = Email -> bool

  /** State of a `CollectingEmailHandler`. */
  datatype Collector = Collector(filters: seq<Filter>, emails: seq<Email>)

  /** An email handler: a collector, or a composite of handlers. */
  datatype Handler =
    | Collecting(collector: Collector)
    | Composite(children: seq<Handler>)

  /** A fresh `CollectingEmailHandler`: no filters, nothing collected. */
  const NewCollector: Collector := Collector([], [])

  /** Every filter accepts the email. */
  predicate AcceptedByAll(filters: seq<Filter>, e: Email) {
    forall i :: 0 <= i < |filters| ==> filters[i](e)
  }

  /** `addFilter`: the new filter is checked after all earlier ones, and
      nothing collected so far changes. */
  function AddFilter(c: Collector, f: Filter): (r: Collector)
    ensures r.emails == c.emails
    ensures |r.filters| == |c.filters| + 1 && r.filters[..|c.filters|] == c.filters
    ensures forall e :: AcceptedByAll(r.filters, e) <==> AcceptedByAll(c.filters, e) && f(e)
  {
    var r := c.(filters := c.filters + [f]);
    assert forall e :: AcceptedByAll(c.filters, e) && f(e) ==> AcceptedByAll(r.filters, e) by {
      forall e | AcceptedByAll(c.filters, e) && f(e) ensures AcceptedByAll(r.filters, e) {
        assert forall i :: 0 <= i < |c.filters| ==> r.filters[i] == c.filters[i];
      }
    }
    assert forall e :: AcceptedByAll(r.filters, e) ==> f(e) by {
      forall e | AcceptedByAll(r.filters, e) ensures f(e) {
        assert r.filters[|c.filters|] == f;
      }
    }
    r
  }

  /** `emailReceived` of a collector: append the email when every filter
      accepts it, otherwise change nothing. */
  function CollectorReceive(c: Collector, e: Email): (r: Collector)
    ensures r.filters == c.filters
    ensures AcceptedByAll(c.filters, e) ==> r.emails == c.emails + [e]
    ensures !AcceptedByAll(c.filters, e) ==> r.emails == c.emails
  {
    if AcceptedByAll(c.filters, e) then c.(emails := c.emails + [e]) else c
  }

  /** Loop form of `CollectorReceive`, as `emailReceived` runs it, with the
      filters it evaluates: they are tried in order and the first rejection
      stops the loop. */
  method CollectorEmailReceived(c: Collector, e: Email) returns (r: Collector, evaluated: seq<nat>)
    ensures r == CollectorReceive(c, e)
    ensures |evaluated| <= |c.filters|
    ensures forall k :: 0 <= k < |evaluated| ==> evaluated[k] == k
    ensures forall k :: 0 <= k < |evaluated| - 1 ==> c.filters[k](e)
    ensures |evaluated| < |c.filters| ==> |evaluated| > 0 && !c.filters[|evaluated| - 1](e)
    ensures |evaluated| == |c.filters| > 0 ==> (c.filters[|evaluated| - 1](e) <==> AcceptedByAll(c.filters, e))
  {
    evaluated := [];
    var i := 0;
    while i < |c.filters|
      invariant 0 <= i <= |c.filters|
      invariant |evaluated| == i
      invariant forall k :: 0 <= k < i ==> evaluated[k] == k
      invariant forall k :: 0 <= k < i ==> c.filters[k](e)
    {
      evaluated := evaluated + [i];
      if !c.filters[i](e) {
        r := c;
        return;
      }
      i := i + 1;
    }
    r := c.(emails := c.emails + [e]);
  }

  /** `emailReceived` of any handler. */
  function Receive(h: Handler, e: Email): (r: Handler)
    decreases h
    ensures r.Collecting? == h.Collecting?
    ensures r.Composite? ==> |r.children| == |h.children|
  {
    match h
    case Collecting(c) => Collecting(CollectorReceive(c, e))
    case Composite(children) =>
      Composite(seq(|children|, i requires 0 <= i < |children| => Receive(children[i], e)))
  }

  /** Loop form of `Receive` on a composite, as its `emailReceived` runs
      it, with the children it delivers to: each exactly once, in
      registration order. */
  method CompositeEmailReceived(children: seq<Handler>, e: Email) returns (updated: seq<Handler>, delivered: seq<nat>)
    ensures |updated| == |children|
    ensures forall i :: 0 <= i < |children| ==> updated[i] == Receive(children[i], e)
    ensures |delivered| == |children|
    ensures forall i :: 0 <= i < |delivered| ==> delivered[i] == i
  {
    updated, delivered := [], [];
    var i := 0;
    while i < |children|
      invariant 0 <= i <= |children|
      invariant |updated| == i && |delivered| == i
      invariant forall k :: 0 <= k < i ==> updated[k] == Receive(children[k], e)
      invariant forall k :: 0 <= k < i ==> delivered[k] == k
    {
      updated := updated + [Receive(children[i], e)];
      delivered := delivered + [i];
      i := i + 1;
    }
  }

  /** `new CompositeEmailHandler(handlers...)`: the children in argument order. */
  function NewComposite(handlers: seq<Handler>): (r: Handler)
    ensures r.Composite? && r.children == handlers
  {
    Composite(handlers)
  }

  /** `withHandler`: the same composite with one more child at the end. */
  function WithHandler(h: Handler, child: Handler): (r: Handler)
    requires h.Composite?
    ensures r.Composite?
    ensures |r.children| == |h.children| + 1
    ensures r.children[..|h.children|] == h.children && r.children[|h.children|] == child
  {
    Composite(h.children + [child])
  }

  /** `getEmails`. */
  function GetEmails(c: Collector): seq<Email> {
    c.emails
  }

  /** Receiving `es`, one email after the other. */
  function ReceiveAll(h: Handler, es: seq<Email>): Handler
    decreases |es|
  {
    if |es| == 0 then h else Receive(ReceiveAll(h, es[..|es| - 1]), es[|es| - 1])
  }

  /** The emails of `es` every filter accepts, in their original order. */
  function Accepted(filters: seq<Filter>, es: seq<Email>): (r: seq<Email>)
    decreases |es|
    ensures |r| <= |es|
    ensures forall x :: x in r ==> x in es && AcceptedByAll(filters, x)
    ensures forall x :: x in es && AcceptedByAll(filters, x) ==> x in r
  {
    if |es| == 0 then []
    else
      var init := Accepted(filters, es[..|es| - 1]);
      var last := es[|es| - 1];
      assert es == es[..|es| - 1] + [last];
      if AcceptedByAll(filters, last) then init + [last] else init
  }

  /** `getEmails` after a series of emails: what was there before, then
      every email all filters accept, in arrival order. */
  lemma GetEmailsAfterReceiving(c: Collector, es: seq<Email>)
    ensures ReceiveAll(Collecting(c), es).Collecting?
    ensures GetEmails(ReceiveAll(Collecting(c), es).collector) == GetEmails(c) + Accepted(c.filters, es)
  {
    CollectorReceiveAll(c, es);
  }

  /** An empty composite ignores every email. */
  lemma EmptyCompositeIgnores(e: Email)
    ensures Receive(Composite([]), e) == Composite([])
  {
  }

  /** A collector that receives `es` ends with its old list followed by the
      accepted emails, in order; its filters do not change. */
  lemma {:induction false} CollectorReceiveAll(c: Collector, es: seq<Email>)
    ensures ReceiveAll(Collecting(c), es) == Collecting(c.(emails := c.emails + Accepted(c.filters, es)))
    decreases |es|
  {
    if |es| > 0 {
      CollectorReceiveAll(c, es[..|es| - 1]);
    }
  }

  /** A collector without filters keeps everything. */
  lemma {:induction false} NoFiltersKeepsAll(es: seq<Email>)
    ensures Accepted([], es) == es
    decreases |es|
  {
    if |es| > 0 {
      NoFiltersKeepsAll(es[..|es| - 1]);
    }
  }

  /** Receiving through a composite is receiving in every child. */
  lemma {:induction false} CompositeReceiveAll(children: seq<Handler>, es: seq<Email>)
    ensures ReceiveAll(Composite(children), es).Composite?
    ensures var r := ReceiveAll(Composite(children), es).children;
      |r| == |children| && forall i :: 0 <= i < |children| ==> r[i] == ReceiveAll(children[i], es)
    decreases |es|
  {
    if |es| > 0 {
      CompositeReceiveAll(children, es[..|es| - 1]);
    }
  }

  /** Two filterless collectors under one composite, starting alike, end
      with identical lists: the whole input, in order. */
  lemma TwinCollectorsAgree(start: seq<Email>, es: seq<Email>)
    ensures var r := ReceiveAll(Composite([Collecting(Collector([], start)), Collecting(Collector([], start))]), es);
      r.Composite? && |r.children| == 2
      && r.children[0] == r.children[1] == Collecting(Collector([], start + es))
  {
    var c := Collector([], start);
    CompositeReceiveAll([Collecting(c), Collecting(c)], es);
    CollectorReceiveAll(c, es);
    NoFiltersKeepsAll(es);
  }

  /** A child added by `withHandler` receives exactly what the others do. */
  lemma ReceiveWithHandler(h: Handler, child: Handler, e: Email)
    requires h.Composite?
    ensures Receive(WithHandler(h, child), e) == WithHandler(Receive(h, e), Receive(child, e))
  {
    var lhs := Receive(WithHandler(h, child), e);
    var rhs := WithHandler(Receive(h, e), Receive(child, e));
    assert lhs.children == rhs.children;
  }

  /** Receiving `a` then `b` is receiving `a + b`. */
  lemma {:induction false} ReceiveAllAppend(h: Handler, a: seq<Email>, b: seq<Email>)
    ensures ReceiveAll(h, a + b) == ReceiveAll(ReceiveAll(h, a), b)
    decreases |b|
  {
    if |b| == 0 {
      assert a + b == a;
    } else {
      ReceiveAllAppend(h, a, b[..|b| - 1]);
      assert (a + b)[..|a + b| - 1] == a + b[..|b| - 1];
    }
  }
}
