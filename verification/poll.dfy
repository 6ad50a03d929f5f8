/** `WC_Gateway_Open::check_orders`: the hourly poll over pending, non-archived
    orders paid through the gateway. Each order's charge is fetched and its
    timeline fed to the state machine; a failed fetch skips that order only. */
module Poll {
  import opened Php
  import opened Orders
  import opened Query
  import opened StateMachine

  /** The outcome of `Open_API_Handler::send_request('charges/' . $charge_id)`:
      the charge's `data.timeline`; a successful response without a timeline
      array; or a failure. */
  datatype FetchResult = Fetched(timeline: Timeline) | NoTimeline | FetchFailed

  /** The query vars `check_orders` passes to `wc_get_orders`. */
  const PollQueryVars: map<string, Value> := map["open_archived" := Bool(false)]

  /** An order the poll visits: pending, paid through the gateway (it has a
      charge id) and not archived. */
  predicate Selected(o: Order)
  {
    o.status == "pending" && ArchivedKey !in o.meta && ChargeIdKey in o.meta
  }

  /** The request path of an order's charge. */
  function ChargePath(o: Order): string
  {
    "charges/" + Render(GetMeta(o, ChargeIdKey))
  }

  /** One iteration of the loop body on a selected order. Without a timeline
      the update is never entered: see `Aborts`. */
  function Visit(o: Order, fetch: string -> FetchResult, timeout: int): (r: Order)
    ensures !fetch(ChargePath(o)).Fetched? ==> r == o
    ensures fetch(ChargePath(o)).Fetched? ==> r == UpdateOrderStatus(o, fetch(ChargePath(o)).timeline, timeout)
  {
    match fetch(ChargePath(o))
    case Fetched(tl) => UpdateOrderStatus(o, tl, timeout)
    case _ => o
  }

  /** A selected order whose charge comes back without a timeline: passing null
      to the `array`-typed parameter of `_update_order_status` raises a
      TypeError, which ends the whole run. */
  predicate Aborts(o: Order, fetch: string -> FetchResult)
  {
    Selected(o) && fetch(ChargePath(o)).NoTimeline?
  }

  /** What the loop does to one order, when it gets that far. */
  function Step(o: Order, fetch: string -> FetchResult, timeout: int): Order
  {
    if Selected(o) then Visit(o, fetch, timeout) else o
  }

  /** The position of the first order that ends the run, or `|orders|`. */
  function FirstAbort(orders: seq<Order>, fetch: string -> FetchResult): (k: nat)
    ensures k <= |orders|
    ensures forall j :: 0 <= j < k ==> !Aborts(orders[j], fetch)
    ensures k < |orders| ==> Aborts(orders[k], fetch)
    decreases |orders|
  {
    if |orders| == 0 then 0
    else if Aborts(orders[0], fetch) then 0
    else 1 + FirstAbort(orders[1..], fetch)
  }

  /** The orders after one poll, in the order `wc_get_orders` returned them. */
  function PollAll(orders: seq<Order>, fetch: string -> FetchResult, timeout: int): seq<Order>
    decreases |orders|
  {
    if |orders| == 0 then []
    else if Aborts(orders[0], fetch) then orders
    else [Step(orders[0], fetch, timeout)] + PollAll(orders[1..], fetch, timeout)
  }

  /** One poll keeps the list's length and positions; every order before the
      first one that ends the run is visited on its own, and that order and all
      after it are untouched. */
  lemma {:induction false} PollAllPointwise(orders: seq<Order>, fetch: string -> FetchResult, timeout: int)
    ensures |PollAll(orders, fetch, timeout)| == |orders|
    ensures forall i :: 0 <= i < |orders| ==>
      PollAll(orders, fetch, timeout)[i] ==
        (if i < FirstAbort(orders, fetch) then Step(orders[i], fetch, timeout) else orders[i])
    decreases |orders|
  {
    if |orders| > 0 && !Aborts(orders[0], fetch) {
      PollAllPointwise(orders[1..], fetch, timeout);
      var r := PollAll(orders, fetch, timeout);
      assert FirstAbort(orders, fetch) == 1 + FirstAbort(orders[1..], fetch);
      forall i | 0 < i < |orders|
        ensures r[i] == (if i < FirstAbort(orders, fetch) then Step(orders[i], fetch, timeout) else orders[i])
      {
        assert r[i] == PollAll(orders[1..], fetch, timeout)[i - 1];
        assert orders[1..][i - 1] == orders[i];
      }
    }
  }

  /** A prefix in which no order ends the run is polled independently of what follows. */
  lemma {:induction false} PollAllConcat(xs: seq<Order>, ys: seq<Order>, fetch: string -> FetchResult, timeout: int)
    requires forall j :: 0 <= j < |xs| ==> !Aborts(xs[j], fetch)
    ensures PollAll(xs + ys, fetch, timeout) == PollAll(xs, fetch, timeout) + PollAll(ys, fetch, timeout)
    decreases |xs|
  {
    if |xs| > 0 {
      var all := xs + ys;
      assert all[0] == xs[0];
      assert all[1..] == xs[1..] + ys;
      assert !Aborts(xs[0], fetch);
      var first := Step(xs[0], fetch, timeout);
      assert PollAll(all, fetch, timeout) == [first] + PollAll(xs[1..] + ys, fetch, timeout);
      assert PollAll(xs, fetch, timeout) == [first] + PollAll(xs[1..], fetch, timeout);
      assert PollAll(xs[1..] + ys, fetch, timeout) == PollAll(xs[1..], fetch, timeout) + PollAll(ys, fetch, timeout) by {
        forall j | 0 <= j < |xs| - 1
          ensures !Aborts(xs[1..][j], fetch)
        {
          assert xs[1..][j] == xs[j + 1];
        }
        PollAllConcat(xs[1..], ys, fetch, timeout);
      }
    } else {
      assert xs + ys == ys;
    }
  }

  /** The loop gets past order `i` and goes on. */
  lemma PollAllStep(orders: seq<Order>, i: nat, fetch: string -> FetchResult, timeout: int)
    requires i < |orders|
    requires forall j :: 0 <= j <= i ==> !Aborts(orders[j], fetch)
    ensures PollAll(orders[..i + 1], fetch, timeout) ==
      PollAll(orders[..i], fetch, timeout) + [Step(orders[i], fetch, timeout)]
  {
    assert orders[..i + 1] == orders[..i] + [orders[i]];
    PollAllConcat(orders[..i], [orders[i]], fetch, timeout);
  }

  /** Order `i` ends the run: it and the orders after it stay as loaded. */
  lemma PollAllStops(orders: seq<Order>, i: nat, fetch: string -> FetchResult, timeout: int)
    requires i < |orders|
    requires forall j :: 0 <= j < i ==> !Aborts(orders[j], fetch)
    requires Aborts(orders[i], fetch)
    ensures PollAll(orders, fetch, timeout) == PollAll(orders[..i], fetch, timeout) + orders[i..]
    ensures FirstAbort(orders, fetch) == i
  {
    assert orders[..i] + orders[i..] == orders;
    assert orders[i..][0] == orders[i];
    PollAllConcat(orders[..i], orders[i..], fetch, timeout);
  }

  /** The loop of `check_orders`: visits the selected orders in sequence. A
      failed fetch skips its order and the loop goes on; a charge without a
      timeline ends the run (`aborted`), leaving that order and the rest as loaded. */
  method CheckOrders(orders: seq<Order>, fetch: string -> FetchResult, timeout: int)
    returns (result: seq<Order>, aborted: bool)
    ensures result == PollAll(orders, fetch, timeout)
    ensures |result| == |orders|
    ensures aborted <==> FirstAbort(orders, fetch) < |orders|
    ensures forall i :: 0 <= i < |orders| && Selected(orders[i]) && fetch(ChargePath(orders[i])).FetchFailed? ==>
              result[i] == orders[i]
    ensures forall i :: FirstAbort(orders, fetch) <= i < |orders| ==> result[i] == orders[i]
  {
    result := [];
    aborted := false;
    var i := 0;
    while i < |orders|
      invariant 0 <= i <= |orders|
      invariant forall j :: 0 <= j < i ==> !Aborts(orders[j], fetch)
      invariant result == PollAll(orders[..i], fetch, timeout)
    {
      var o := orders[i];
      var next := o;
      if Selected(o) {
        var r := fetch(ChargePath(o));
        if r.NoTimeline? {
          // the TypeError ends the run here
          PollAllStops(orders, i, fetch, timeout);
          PollAllPointwise(orders, fetch, timeout);
          result := result + orders[i..];
          aborted := true;
          return;
        }
        if r.Fetched? {
          next := UpdateOrderStatus(o, r.timeline, timeout);
        }
        // on a failed fetch the order is skipped and the loop goes on
      }
      assert next == Step(o, fetch, timeout);
      PollAllStep(orders, i, fetch, timeout);
      result := result + [next];
      i := i + 1;
    }
    assert orders[..i] == orders;
    PollAllPointwise(orders, fetch, timeout);
  }

  /** The orders the poll visits are exactly those `wc_get_orders` returns for
      status `wc-pending` (stored as `pending`) once `_custom_query_var` has
      turned `open_archived => false` into meta clauses. */
  lemma SelectedIsQueryResult(o: Order)
    ensures Selected(o) <==>
      o.status == "pending" && MetaMatches(o.meta, Clauses(CustomQueryVar(WpQuery(None, map[]), PollQueryVars)))
  {
    ArchivedVarSelects(o.meta, WpQuery(None, map[]), PollQueryVars);
  }

  /** Once an update archives an order, the poll never selects it again. */
  lemma ArchivedOrdersAreNotPolled(o: Order, tl: Timeline, timeout: int)
    requires ArchivableStatus(LastEntry(tl).status) && o.dateModified < timeout
    ensures !Selected(UpdateOrderStatus(o, tl, timeout))
  {
  }

  /** An order the loop gets past does not end a second run, and a second
      visit with the same answer changes it no further. */
  lemma StepSettles(o: Order, fetch: string -> FetchResult, timeout: int)
    requires !Aborts(o, fetch)
    ensures !Aborts(Step(o, fetch, timeout), fetch)
    ensures Step(Step(o, fetch, timeout), fetch, timeout) == Step(o, fetch, timeout)
  {
    if Selected(o) {
      match fetch(ChargePath(o))
      case Fetched(tl) =>
        var u := UpdateOrderStatus(o, tl, timeout);
        assert GetMeta(u, ChargeIdKey) == GetMeta(o, ChargeIdKey);
        assert ChargePath(u) == ChargePath(o);
        UpdateIsIdempotent(o, tl, timeout);
      case _ =>
    }
  }

  /** Polling twice with the same remote answers gives the result of polling
      once: overlapping ticks cause no duplicate notes or payment completions. */
  lemma {:induction false} PollIsIdempotent(orders: seq<Order>, fetch: string -> FetchResult, timeout: int)
    ensures PollAll(PollAll(orders, fetch, timeout), fetch, timeout) == PollAll(orders, fetch, timeout)
    decreases |orders|
  {
    if |orders| > 0 && !Aborts(orders[0], fetch) {
      var s := Step(orders[0], fetch, timeout);
      var rest := PollAll(orders[1..], fetch, timeout);
      StepSettles(orders[0], fetch, timeout);
      PollIsIdempotent(orders[1..], fetch, timeout);
      var once := [s] + rest;
      assert once[0] == s;
      assert once[1..] == rest;
    }
  }
}
