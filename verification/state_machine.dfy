/** The reconciliation core of `WC_Gateway_Open::_update_order_status`: reduce a
    remote timeline to its last entry, apply the status decision table when the
    remote status differs from the cached one, then run the archival check. */
module StateMachine {
  import opened Php
  import opened Orders

  const ExpiredNote := "Open payment expired."
  const CancelledNote := "Open payment cancelled."
  const ProcessedNote := "Open payment was successfully processed."
  const AwaitingNote := "Open payment detected, but awaiting blockchain confirmation."
  const ResolvedNote := "Open payment marked as resolved."

  /** The note for an unresolved payment, with the context as its reason. */
  function UnresolvedNote(context: Value): string
  {
    "Open payment unresolved, reason: " + Render(context) + "."
  }

  /** `end($timeline)`. An empty timeline yields PHP's `false`, whose
      `['status']` and `['context']` both read as null. */
  function LastEntry(tl: Timeline): (e: Entry)
    ensures |tl| > 0 ==> e == tl[|tl| - 1]
    ensures |tl| == 0 ==> e.status == Null && e.context == Null
  {
    if |tl| == 0 then Entry(Null, Null) else tl[|tl| - 1]
  }

  // ---------------------------------------------------------------------------
  // Reference decision table, over a closed vocabulary of remote statuses.
  // ---------------------------------------------------------------------------

  datatype RemoteStatus = Expired | Canceled | Unresolved | Pending | Resolved | Completed | Unrecognised

  /** Strict classification of a raw status value; anything else, including a
      non-string or a differently cased string, is `Unrecognised`. */
  function Classify(v: Value): (rs: RemoteStatus)
    ensures rs == Unrecognised <==>
      v !in {Str("EXPIRED"), Str("CANCELED"), Str("UNRESOLVED"), Str("PENDING"), Str("RESOLVED"), Str("COMPLETED")}
  {
    match v
    case Str(s) =>
      if s == "EXPIRED" then Expired
      else if s == "CANCELED" then Canceled
      else if s == "UNRESOLVED" then Unresolved
      else if s == "PENDING" then Pending
      else if s == "RESOLVED" then Resolved
      else if s == "COMPLETED" then Completed
      else Unrecognised
    case _ => Unrecognised
  }

  /** What a transition does to the order: an optional new local status, an
      optional note, and whether the payment is marked complete. */
  datatype Effect = Effect(newStatus: Option<string>, note: Option<string>, capture: bool)

  const NoEffect := Effect(None, None, false)

  /** The decision table, row by row. */
  function Decide(rs: RemoteStatus, context: Value, local: string): Effect
  {
    match rs
    case Expired => if local == "pending" then Effect(Some("cancelled"), Some(ExpiredNote), false) else NoEffect
    case Canceled => Effect(Some("cancelled"), Some(CancelledNote), false)
    case Unresolved =>
      if context == Str("OVERPAID") then Effect(Some("processing"), Some(ProcessedNote), true)
      else Effect(Some("failed"), Some(UnresolvedNote(context)), false)
    case Pending => Effect(Some("blockchain-pending"), Some(AwaitingNote), false)
    case Resolved => Effect(None, Some(ResolvedNote), false)
    case Completed => Effect(Some("processing"), Some(ProcessedNote), true)
    case Unrecognised => NoEffect
  }

  /** Carry out an effect on an order. */
  function ApplyEffect(o: Order, eff: Effect): (r: Order)
    ensures r.status == (if eff.newStatus.Some? then eff.newStatus.value else o.status)
    ensures r.notes == o.notes + (if eff.note.Some? then [eff.note.value] else [])
    ensures r.paymentCompleteCalls == o.paymentCompleteCalls + (if eff.capture then 1 else 0)
    ensures r.(status := o.status, notes := o.notes, paymentCompleteCalls := o.paymentCompleteCalls) == o
  {
    var o1 := match eff.newStatus
      case Some(s) => o.(status := s)
      case None => o;
    var o2 := match eff.note
      case Some(n) => o1.(notes := o1.notes + [n])
      case None => o1;
    if eff.capture then PaymentComplete(o2) else o2
  }

  // ---------------------------------------------------------------------------
  // The code as written.
  // ---------------------------------------------------------------------------

  /** The `if/elseif` dispatch on the new remote status. An EXPIRED status on a
      non-pending order falls through every branch and does nothing. */
  function Transition(o: Order, e: Entry): (r: Order)
    ensures r == ApplyEffect(o, Decide(Classify(e.status), e.context, o.status))
  {
    var status := e.status;
    if status == Str("EXPIRED") && o.status == "pending" then
      UpdateStatus(o, "cancelled", ExpiredNote)
    else if status == Str("CANCELED") then
      UpdateStatus(o, "cancelled", CancelledNote)
    else if status == Str("UNRESOLVED") then
      if e.context == Str("OVERPAID") then
        PaymentComplete(UpdateStatus(o, "processing", ProcessedNote))
      else
        UpdateStatus(o, "failed", UnresolvedNote(e.context))
    else if status == Str("PENDING") then
      UpdateStatus(o, "blockchain-pending", AwaitingNote)
    else if status == Str("RESOLVED") then
      AddNote(o, ResolvedNote)
    else if status == Str("COMPLETED") then
      PaymentComplete(UpdateStatus(o, "processing", ProcessedNote))
    else
      o
  }

  /** The remote statuses after which an idle order is archived (strict `in_array`). */
  predicate ArchivableStatus(v: Value)
  {
    v == Str("EXPIRED") || v == Str("COMPLETED") || v == Str("RESOLVED")
  }

  /** An archived order carries the `_open_archived` meta key. */
  predicate IsArchived(o: Order)
  {
    ArchivedKey in o.meta
  }

  /** The archival check: flag the order when its remote status is terminal and
      it was last modified before `timeout`. It never clears the flag. */
  function Archive(o: Order, status: Value, timeout: int): (r: Order)
    ensures IsArchived(r) <==> IsArchived(o) || (ArchivableStatus(status) && o.dateModified < timeout)
    ensures r.(meta := o.meta) == o
    ensures forall k :: k in o.meta && k != ArchivedKey ==> k in r.meta && r.meta[k] == o.meta[k]
    ensures r.meta.Keys <= o.meta.Keys + {ArchivedKey}
  {
    if ArchivableStatus(status) && o.dateModified < timeout then
      UpdateMeta(o, ArchivedKey, Bool(true))
    else
      o
  }

  /** `_update_order_status($order, $timeline)` with the gateway's archival
      cutoff `timeout`. */
  function UpdateOrderStatus(o: Order, tl: Timeline, timeout: int): (r: Order)
    // the cached status is compared, strictly, with the last entry only
    ensures LastEntry(tl).status == GetMeta(o, OpenStatusKey) ==>
      r.status == o.status && r.notes == o.notes && r.paymentCompleteCalls == o.paymentCompleteCalls
    ensures LastEntry(tl).status != GetMeta(o, OpenStatusKey) ==>
      OpenStatusKey in r.meta && r.meta[OpenStatusKey] == LastEntry(tl).status
    // archival is evaluated on every call and is monotone
    ensures IsArchived(r) <==>
      IsArchived(o) || (ArchivableStatus(LastEntry(tl).status) && o.dateModified < timeout)
    // nothing else about the order changes
    ensures r.id == o.id && r.dateModified == o.dateModified
    ensures forall k :: k in o.meta && k != OpenStatusKey && k != ArchivedKey ==> k in r.meta && r.meta[k] == o.meta[k]
    ensures r.meta.Keys <= o.meta.Keys + {OpenStatusKey, ArchivedKey}
    ensures o.notes <= r.notes && |r.notes| <= |o.notes| + 1
    ensures o.paymentCompleteCalls <= r.paymentCompleteCalls <= o.paymentCompleteCalls + 1
  {
    var last := LastEntry(tl);
    var o1 :=
      if last.status != GetMeta(o, OpenStatusKey) then
        Transition(UpdateMeta(o, OpenStatusKey, last.status), last)
      else
        o;
    Archive(o1, last.status, timeout)
  }

  // ---------------------------------------------------------------------------
  // Properties.
  // ---------------------------------------------------------------------------

  /** When the remote status is new, the update is the decision-table effect for
      the last entry, followed by archival, with the new status cached. */
  lemma UpdateFollowsTable(o: Order, tl: Timeline, timeout: int)
    requires LastEntry(tl).status != GetMeta(o, OpenStatusKey)
    ensures var e := LastEntry(tl);
      UpdateOrderStatus(o, tl, timeout) ==
        Archive(ApplyEffect(UpdateMeta(o, OpenStatusKey, e.status), Decide(Classify(e.status), e.context, o.status)),
                e.status, timeout)
  {
  }

  /** Applying the same timeline twice has the effect of applying it once:
      no second note, status change or payment completion. */
  lemma UpdateIsIdempotent(o: Order, tl: Timeline, timeout: int)
    ensures UpdateOrderStatus(UpdateOrderStatus(o, tl, timeout), tl, timeout) == UpdateOrderStatus(o, tl, timeout)
  {
    var r := UpdateOrderStatus(o, tl, timeout);
    assert GetMeta(r, OpenStatusKey) == LastEntry(tl).status;
    var r2 := UpdateOrderStatus(r, tl, timeout);
    assert r2.meta == r.meta;
  }

  /** Only the last entry of the timeline is used; earlier entries are ignored. */
  lemma OnlyLastEntryMatters(o: Order, earlier1: Timeline, earlier2: Timeline, last: Entry, timeout: int)
    ensures UpdateOrderStatus(o, earlier1 + [last], timeout) == UpdateOrderStatus(o, earlier2 + [last], timeout)
  {
    assert LastEntry(earlier1 + [last]) == last;
    assert LastEntry(earlier2 + [last]) == last;
  }

  /** A status the decision table does not know is cached but changes nothing else. */
  lemma UnrecognisedStatusIsNoop(o: Order, tl: Timeline, timeout: int)
    requires Classify(LastEntry(tl).status) == Unrecognised
    ensures var r := UpdateOrderStatus(o, tl, timeout);
      r.status == o.status && r.notes == o.notes && r.paymentCompleteCalls == o.paymentCompleteCalls
  {
  }

  /** EXPIRED cancels the order only when it is still pending; otherwise the
      status is cached and nothing else happens. */
  lemma ExpiredTransition(o: Order, tl: Timeline, timeout: int)
    requires LastEntry(tl).status == Str("EXPIRED") != GetMeta(o, OpenStatusKey)
    ensures var r := UpdateOrderStatus(o, tl, timeout);
      && r.status == (if o.status == "pending" then "cancelled" else o.status)
      && r.notes == o.notes + (if o.status == "pending" then [ExpiredNote] else [])
      && r.paymentCompleteCalls == o.paymentCompleteCalls
  {
  }

  /** CANCELED cancels the order from any local status, including a paid one. */
  lemma CanceledTransition(o: Order, tl: Timeline, timeout: int)
    requires LastEntry(tl).status == Str("CANCELED") != GetMeta(o, OpenStatusKey)
    ensures var r := UpdateOrderStatus(o, tl, timeout);
      r.status == "cancelled" && r.notes == o.notes + [CancelledNote] && r.paymentCompleteCalls == o.paymentCompleteCalls
  {
  }

  /** PENDING moves the order to blockchain-pending. */
  lemma PendingTransition(o: Order, tl: Timeline, timeout: int)
    requires LastEntry(tl).status == Str("PENDING") != GetMeta(o, OpenStatusKey)
    ensures var r := UpdateOrderStatus(o, tl, timeout);
      r.status == "blockchain-pending" && r.notes == o.notes + [AwaitingNote]
      && r.paymentCompleteCalls == o.paymentCompleteCalls
  {
  }

  /** COMPLETED, and UNRESOLVED with context OVERPAID, move the order to
      processing and complete the payment exactly once. */
  lemma PaidTransition(o: Order, tl: Timeline, timeout: int)
    requires LastEntry(tl).status != GetMeta(o, OpenStatusKey)
    requires || LastEntry(tl).status == Str("COMPLETED")
             || (LastEntry(tl).status == Str("UNRESOLVED") && LastEntry(tl).context == Str("OVERPAID"))
    ensures var r := UpdateOrderStatus(o, tl, timeout);
      r.status == "processing" && r.notes == o.notes + [ProcessedNote]
      && r.paymentCompleteCalls == o.paymentCompleteCalls + 1
  {
  }

  /** UNRESOLVED with any other context fails the order, naming the context in
      the note, and does not complete the payment. */
  lemma UnresolvedTransition(o: Order, tl: Timeline, timeout: int)
    requires LastEntry(tl).status == Str("UNRESOLVED") != GetMeta(o, OpenStatusKey)
    requires LastEntry(tl).context != Str("OVERPAID")
    ensures var r := UpdateOrderStatus(o, tl, timeout);
      r.status == "failed" && r.notes == o.notes + [UnresolvedNote(LastEntry(tl).context)]
      && r.paymentCompleteCalls == o.paymentCompleteCalls
  {
  }

  /** RESOLVED only adds a note: the outcome is unknown, so the status stays. */
  lemma ResolvedTransition(o: Order, tl: Timeline, timeout: int)
    requires LastEntry(tl).status == Str("RESOLVED") != GetMeta(o, OpenStatusKey)
    ensures var r := UpdateOrderStatus(o, tl, timeout);
      r.status == o.status && r.notes == o.notes + [ResolvedNote] && r.paymentCompleteCalls == o.paymentCompleteCalls
  {
  }
}
