/** The push path: `WC_Gateway_Open::validate_webhook` and `handle_webhook`.
    HMAC-SHA256 and JSON decoding are passed in as functions; the transport
    (`php://input`, `$_SERVER`, `wp_die`, `exit`) becomes a request record and
    a response value. */
module Webhook {
  import opened Php
  import opened Orders
  import opened StateMachine

  /** The raw body and the `X-CC-Webhook-Signature` header, if sent. */
  datatype Request = Request(payload: string, signature: Option<string>)

  /** `$data['event']['data']` after decoding: the `metadata.order_id` and the
      `timeline`, each absent (or null) when the payload lacks it. */
  datatype EventData = EventData(orderId: Option<OrderId>, timeline: Option<Timeline>)

  /** `Rejected` is the 500 from `wp_die`; `Ignored` and `Acknowledged` are the
      200 from `exit` without and with an update; `Crashed` is the uncaught
      TypeError raised when the order or the timeline is missing. */
  datatype Response = Rejected | Ignored | Acknowledged | Crashed

  datatype WebhookResult = WebhookResult(response: Response, store: map<OrderId, Order>)

  /** `get_option($key)` on a key that is neither saved nor a form field is ''. */
  function GetOption(settings: map<string, string>, key: string): string
  {
    if key in settings then settings[key] else ""
  }

  /** The option the signing secret is read from. */
  const SecretOption := "api_secret"

  /** `validate_webhook($payload)`: the header, compared strictly with the HMAC
      of the raw payload under the `api_secret` option. */
  function ValidateWebhook(req: Request, settings: map<string, string>, hmac: (string, string) -> string): (ok: bool)
    ensures req.signature.None? ==> !ok
    ensures ok <==> req.signature == Some(hmac(req.payload, GetOption(settings, SecretOption)))
  {
    match req.signature
    case None => false
    case Some(sig) => sig == hmac(req.payload, GetOption(settings, SecretOption))
  }

  /** `handle_webhook()` against an order store keyed by id. */
  function HandleWebhook(
    req: Request,
    settings: map<string, string>,
    hmac: (string, string) -> string,
    decode: string -> Option<EventData>,
    store: map<OrderId, Order>,
    timeout: int): (r: WebhookResult)
    // the gate: an empty or unsigned payload is refused before decoding
    ensures r.response == Rejected <==> EmptyString(req.payload) || !ValidateWebhook(req, settings, hmac)
    // a verified payload without an order id is acknowledged silently
    ensures r.response == Ignored <==>
      && !EmptyString(req.payload) && ValidateWebhook(req, settings, hmac)
      && (decode(req.payload).None? || decode(req.payload).value.orderId.None?)
    // an order id with no such order, or no timeline, is a fatal type error
    ensures r.response == Crashed <==>
      && !EmptyString(req.payload) && ValidateWebhook(req, settings, hmac)
      && decode(req.payload).Some? && decode(req.payload).value.orderId.Some?
      && (decode(req.payload).value.orderId.value !in store || decode(req.payload).value.timeline.None?)
    // only an acknowledged update touches the store, and only its own order
    ensures r.response != Acknowledged ==> r.store == store
    ensures r.response == Acknowledged ==>
      && decode(req.payload).Some?
      && var ev := decode(req.payload).value;
      && ev.orderId.Some? && ev.orderId.value in store && ev.timeline.Some?
      && r.store == store[ev.orderId.value := UpdateOrderStatus(store[ev.orderId.value], ev.timeline.value, timeout)]
  {
    if EmptyString(req.payload) || !ValidateWebhook(req, settings, hmac) then
      WebhookResult(Rejected, store)
    else
      match decode(req.payload)
      case None => WebhookResult(Ignored, store)
      case Some(ev) =>
        match ev.orderId
        case None => WebhookResult(Ignored, store)
        case Some(id) =>
          if id !in store || ev.timeline.None? then
            WebhookResult(Crashed, store)
          else
            WebhookResult(Acknowledged, store[id := UpdateOrderStatus(store[id], ev.timeline.value, timeout)])
  }

  /** Redelivering a request has no further effect: at-least-once delivery
      converges, with no duplicate note or payment completion. */
  lemma RedeliveryIsNoop(
    req: Request,
    settings: map<string, string>,
    hmac: (string, string) -> string,
    decode: string -> Option<EventData>,
    store: map<OrderId, Order>,
    timeout: int)
    ensures var once := HandleWebhook(req, settings, hmac, decode, store, timeout);
      var twice := HandleWebhook(req, settings, hmac, decode, once.store, timeout);
      twice.response == once.response && twice.store == once.store
  {
    var once := HandleWebhook(req, settings, hmac, decode, store, timeout);
    if once.response == Acknowledged {
      var ev := decode(req.payload).value;
      UpdateIsIdempotent(store[ev.orderId.value], ev.timeline.value, timeout);
    }
  }
}
