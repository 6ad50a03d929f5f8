/** The WooCommerce order as the gateway sees it: a plain record with a local
    status, a meta map, an append-only list of notes and a count of
    `payment_complete` calls. Persistence is not modelled. */
module Orders {
  import opened Php

  type OrderId = int

  /** One entry of the processor's timeline; a missing key reads as `Null`. */
  datatype Entry = Entry(status: Value, context: Value)

  type Timeline = seq<Entry>

  /** `status` is WooCommerce's stored status, without the `wc-` prefix. */
  datatype Order = Order(
    id: OrderId,
    status: string,
    meta: map<string, Value>,
    notes: seq<string>,
    paymentCompleteCalls: nat,
    dateModified: int)

  /** Meta key caching the last remote status seen. */
  const OpenStatusKey := "_open_status"
  /** Meta key whose existence excludes the order from polling. */
  const ArchivedKey := "_open_archived"
  /** Meta key holding the processor's charge (wallet address) reference. */
  const ChargeIdKey := "_open_charge_id"

  /** `get_meta($key)`: the stored value, or the empty string when absent. */
  function GetMeta(o: Order, key: string): Value
  {
    if key in o.meta then o.meta[key] else Str("")
  }

  /** `update_meta_data($key, $v)`. */
  function UpdateMeta(o: Order, key: string, v: Value): (r: Order)
    ensures key in r.meta && r.meta[key] == v
    ensures forall k :: k in o.meta && k != key ==> k in r.meta && r.meta[k] == o.meta[k]
    ensures r.meta.Keys == o.meta.Keys + {key}
    ensures r.(meta := o.meta) == o
  {
    o.(meta := o.meta[key := v])
  }

  /** `update_status($s, $note)`: sets the local status and records the note. */
  function UpdateStatus(o: Order, s: string, note: string): (r: Order)
    ensures r.status == s && r.notes == o.notes + [note]
    ensures r.(status := o.status, notes := o.notes) == o
  {
    o.(status := s, notes := o.notes + [note])
  }

  /** `add_order_note($note)`. */
  function AddNote(o: Order, note: string): (r: Order)
    ensures r.notes == o.notes + [note]
    ensures r.(notes := o.notes) == o
  {
    o.(notes := o.notes + [note])
  }

  /** `payment_complete()`, observed only through the number of calls. */
  function PaymentComplete(o: Order): (r: Order)
    ensures r.paymentCompleteCalls == o.paymentCompleteCalls + 1
    ensures r.(paymentCompleteCalls := o.paymentCompleteCalls) == o
  {
    o.(paymentCompleteCalls := o.paymentCompleteCalls + 1)
  }
}
