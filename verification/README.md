# Open Platform WooCommerce gateway — payment reconciliation model

A Dafny model of the payment-reconciliation logic of the Open Platform
WooCommerce gateway (`WC_Gateway_Open`) and of the small list and scheduling
helpers in the plugin bootstrap.

The gateway keeps a WooCommerce order's local status in line with the state
the Open Platform processor reports for the order's charge. Updates arrive
over two channels:

- **push**: a signed webhook (`handle_webhook`, `validate_webhook`);
- **poll**: an hourly cron job (`check_orders`) that fetches each pending,
  non-archived order's charge.

Both channels feed the same state machine (`_update_order_status`). It works
in four steps:

1. take the last entry of the charge's timeline;
2. compare its status with the cached `_open_status` meta;
3. on a change, cache the new status and apply a fixed decision table;
4. on every call, archive the order when the remote status is terminal and the
   order is idle.

Modules, one per component:

| file | module | models |
|---|---|---|
| `php.dfy` | `Php` | nullable values, strict `===`, truthiness, `empty()` and `%s` rendering |
| `orders.dfy` | `Orders` | the order record: local status, meta map, notes, `payment_complete` count, last-modified time |
| `state_machine.dfy` | `StateMachine` | `_update_order_status`: last-entry selection, decision table, archival |
| `query.dfy` | `Query` | `_custom_query_var`, and what its meta clauses select |
| `poll.dfy` | `Poll` | `check_orders`: the loop, with per-order fetch failure |
| `webhook.dfy` | `Webhook` | `validate_webhook` and `handle_webhook` |
| `plugin.dfy` | `Plugin` | `open_wc_add_status`, `open_wc_status_valid_for_payment`, `open_wc_add_open_class`, `open_activation`, `open_deactivation` |

The state machine has two descriptions:

- `Transition` follows the source's `if/elseif` chain, with strict string
  comparisons on raw values.
- `Decide` is a decision table over a closed vocabulary (`RemoteStatus`,
  which has an `Unrecognised` case).

`Transition`'s contract proves the two agree for every input.

In these details the model follows the code as written:

- **Signature check.** The HMAC covers the raw payload. Whitespace is not
  stripped, no timestamp is checked, and the comparison is a plain `===`.
- **Signing secret.** It is read from the `api_secret` option. The settings
  form declares `secret_key` and `webhook_secret`, but not `api_secret`, so
  `get_option` yields `''` unless that option is stored by other means.
- **Unknown order.** When the webhook names an order that does not exist,
  `wc_get_order` returns `false` and the typed parameter of
  `_update_order_status` throws. The model's response is `Crashed`, not an
  acknowledgement. The same happens when the payload has no `timeline`.
- **No terminal guard.** There is no guard on terminal local statuses. For
  example, CANCELED cancels a `processing` order, and COMPLETED re-opens a
  `cancelled` one.
- **Archival cutoff.** The code compares the order's last-modified time with
  `$this->timeout`, a property that is never assigned. The model takes this
  cutoff as the integer parameter `timeout` and archives when
  `dateModified < timeout`.
- **Order status list.** `open_wc_add_status` inserts the new status right
  after `wc-pending` when the input does not already contain
  `wc-blockchain-pending`. When it does, PHP's keyed assignment decides the
  outcome:
  - an existing entry before `wc-pending` stays in place and gets the plugin's
    label (`AddStatusOverwritesExisting`);
  - an existing entry after `wc-pending` moves to right after it and keeps
    its own label, because the loop assigns it again when it reaches it
    (`AddStatusMovesExisting`).
- **Charge without a timeline.** When a poll fetch succeeds but the body has
  no `data.timeline` array, the typed parameter of `_update_order_status`
  throws. That ends the whole `check_orders` run, so the orders after it are
  not visited in that run.

Collaborators become parameters:

- HMAC-SHA256 is the function `hmac(payload, secret)`.
- `json_decode` of the webhook body is `decode`.
- The charge fetch of the poll is `fetch(path)`. It returns a timeline, a
  successful response without one, or a failure.
- The current time of activation is `now`.

## Model

| member | source | states |
|---|---|---|
| `StateMachine.LastEntry` | includes/class-wc-gateway-open.php:268-269 | Only the last timeline entry is read; an empty timeline reads as a null status and context |
| `StateMachine.Classify` | includes/class-wc-gateway-open.php:273-293 | Exactly the six strings EXPIRED, CANCELED, UNRESOLVED, PENDING, RESOLVED, COMPLETED are recognised (strictly); anything else is unrecognised |
| `StateMachine.Transition` | includes/class-wc-gateway-open.php:273-293 | The `if/elseif` dispatch has, for every order and entry, exactly the effect the decision table `Decide` prescribes |
| `StateMachine.Archive` | includes/class-wc-gateway-open.php:296-301 | The order is archived afterwards iff it was already, or the status is EXPIRED, COMPLETED or RESOLVED and it was last modified before the cutoff; nothing else changes |
| `StateMachine.UpdateOrderStatus` | includes/class-wc-gateway-open.php:265-302 | An unchanged remote status leaves local status, notes and payment count untouched; a changed one is cached whatever its value; archival is evaluated on every call and never cleared; only the two gateway meta keys change, notes only grow, payment completes at most once |
| `StateMachine.UpdateFollowsTable` | includes/class-wc-gateway-open.php:270-301 | On a new remote status the update is: cache it, apply the table's effect, then archive |
| `StateMachine.UpdateIsIdempotent` | includes/class-wc-gateway-open.php:265-302 | Applying the same timeline twice equals applying it once: no second note, transition or payment completion |
| `StateMachine.OnlyLastEntryMatters` | includes/class-wc-gateway-open.php:268-269 | Timelines that end in the same entry give the same result whatever came before |
| `StateMachine.UnrecognisedStatusIsNoop` | includes/class-wc-gateway-open.php:270-293 | An unrecognised status changes no local status, note or payment count |
| `StateMachine.ExpiredTransition` | includes/class-wc-gateway-open.php:273-274 | EXPIRED cancels only a `pending` order, with the expiry note; from any other status nothing but the cache changes |
| `StateMachine.CanceledTransition` | includes/class-wc-gateway-open.php:275-276 | CANCELED sets `cancelled` from any local status, with the cancellation note |
| `StateMachine.PendingTransition` | includes/class-wc-gateway-open.php:285-286 | PENDING sets `blockchain-pending`, with the awaiting-confirmation note |
| `StateMachine.PaidTransition` | includes/class-wc-gateway-open.php:277-292 | COMPLETED, and UNRESOLVED with context OVERPAID, set `processing` and complete the payment exactly once |
| `StateMachine.UnresolvedTransition` | includes/class-wc-gateway-open.php:281-284 | UNRESOLVED with any other context sets `failed`, names the context in the note, and does not complete the payment |
| `StateMachine.ResolvedTransition` | includes/class-wc-gateway-open.php:287-289 | RESOLVED adds its note and leaves the local status and payment count alone |
| `Query.CustomQueryVar` | includes/class-wc-gateway-open.php:311-326 | Without `open_archived` the query is returned unchanged; with it, exactly two clauses are appended after the existing ones: `_open_archived` EXISTS if the var is truthy else NOT EXISTS, then `_open_charge_id` EXISTS |
| `Query.ArchivedVarSelects` | includes/class-wc-gateway-open.php:313-323 | For any query, the rewritten query matches exactly the orders that its own clauses match, that have a charge id, and whose archived flag exists as the var asks |
| `Poll.SelectedIsQueryResult` | includes/class-wc-gateway-open.php:183 | An order is selected iff it is `pending` and meets both meta clauses that the rewrite adds for `open_archived => false` |
| `Poll.Visit` | includes/class-wc-gateway-open.php:185-197 | A fetch of `charges/<charge id>` that fails, or that has no timeline, never reaches the update; a fetched timeline is passed to the state machine |
| `Poll.FirstAbort` | includes/class-wc-gateway-open.php:195-197 | The run ends at the first selected order whose charge comes back without a timeline; every order before it lets the loop go on |
| `Poll.PollAllPointwise` | includes/class-wc-gateway-open.php:184-198 | One poll keeps the order list's length and positions. Every order before the one that ends the run is visited on its own if selected and otherwise untouched; that order and all after it are untouched |
| `Poll.CheckOrders` | includes/class-wc-gateway-open.php:179-199 | The loop computes the poll. An order whose fetch fails is skipped unchanged and the loop goes on. A charge without a timeline ends the run (`aborted`), and that order and the rest stay as loaded |
| `Poll.ArchivedOrdersAreNotPolled` | includes/class-wc-gateway-open.php:296-301 | An update that archives an order removes it from every later poll |
| `Poll.PollIsIdempotent` | includes/class-wc-gateway-open.php:179-199 | Polling again with the same remote answers changes nothing more, including when the run ends early |
| `Webhook.ValidateWebhook` | includes/class-wc-gateway-open.php:231-247 | False without a signature header; true exactly when the header equals the HMAC of the raw payload under the `api_secret` option |
| `Webhook.HandleWebhook` | includes/class-wc-gateway-open.php:204-225 | An empty ("" or "0") or unverified payload gets the 500 and mutates nothing; a verified one without an order id is acknowledged with nothing mutated; a missing order or timeline is fatal with nothing mutated; otherwise exactly that order is updated |
| `Webhook.RedeliveryIsNoop` | includes/class-wc-gateway-open.php:204-225 | Delivering the same webhook twice gives the same response and the same store as delivering it once |
| `Plugin.Put` | woocommerce-gateway-open.php:121-124 | Array assignment appends a new key at the end and overwrites an existing key's value in place, keeping keys distinct |
| `Plugin.AddStatusWithoutPending` | woocommerce-gateway-open.php:115-129 | Without `wc-pending` the status list is returned unchanged |
| `Plugin.AddStatusInsertsAfterPending` | woocommerce-gateway-open.php:115-129 | With `wc-pending` present and no `wc-blockchain-pending` yet, every input pair is kept in order and `wc-blockchain-pending => Blockchain Pending` sits immediately after `wc-pending` |
| `Plugin.AddStatusOverwritesExisting` | woocommerce-gateway-open.php:115-129 | For every key-distinct list with `wc-blockchain-pending` before `wc-pending`, the result is the input with that entry relabelled `Blockchain Pending` in place |
| `Plugin.AddStatusMovesExisting` | woocommerce-gateway-open.php:115-129 | For every key-distinct list with `wc-blockchain-pending` after `wc-pending`, that entry, with its input label, moves to right after `wc-pending`; all other entries keep their order |
| `Plugin.StatusValidForPayment` | woocommerce-gateway-open.php:105-109 | The list gains `wc-blockchain-pending` at the end; earlier entries are unchanged |
| `Plugin.AddOpenClass` | woocommerce-gateway-open.php:77-81 | The gateway list gains `WC_Gateway_Open` at the end; earlier entries are unchanged |
| `Plugin.Activate` | woocommerce-gateway-open.php:40-45 | The hourly poll is scheduled at `now` only when nothing is scheduled for its hook; other hooks are untouched |
| `Plugin.Deactivate` | woocommerce-gateway-open.php:49-52 | Afterwards nothing is scheduled for the poll's hook; other hooks are untouched |
| `Plugin.ActivateIsIdempotent` | woocommerce-gateway-open.php:40-45 | Activating again, at any time, changes nothing |
| `Plugin.DeactivateUndoesActivate` | woocommerce-gateway-open.php:40-52 | Deactivation restores the schedule a fresh activation started from |

## Left out

- Persistence. WooCommerce's `save()` is not modelled, and the order's last-modified time does not change. `update_status` saves the order, but nothing saves it afterwards. So some meta writes exist only on the in-memory order:
  - the `_open_status` write on the RESOLVED path, on the EXPIRED path for a non-pending order, and for an unrecognised status (class-wc-gateway-open.php:271);
  - the `_open_archived` write (line 300), on every path.
- StateMachine.UpdateIsIdempotent, Webhook.RedeliveryIsNoop, Poll.PollIsIdempotent and Poll.ArchivedOrdersAreNotPolled hold of the in-memory order record only. In the stored program they can fail:
  - `add_order_note` (line 289) writes at once, but the cached RESOLVED status is never saved. A redelivered RESOLVED webhook therefore adds a second note, and so does every later poll of a pending order whose charge is RESOLVED.
  - Archival is never stored, so an archived order is polled again.
- StateMachine.Archive: `$this->timeout` is never assigned, so as written line 298 compares the last-modified `WC_DateTime`, or null, with null. That comparison is always false, so the program as written never archives an order. The model takes the cutoff as the parameter `timeout` and describes archival for a given cutoff.
- WooCommerce internals. These include `update_status`'s `wc-` prefix handling, the "status changed" note it adds, and the side effects of `payment_complete`. `update_status` is modelled as "set the status, append the note", and `payment_complete` as a call counter.
- HMAC-SHA256 and JSON decoding, because they are opaque functions here. The timing behaviour of `===` is also out.
- Transport: `php://input`, `$_SERVER`, `wp_die` and `exit`. A request record and a response value stand in for them.
- The network calls `Open_API_Handler::send_request` and `create_wallet`, whose source is not part of this model. `process_payment` is left out with them, since it mostly wraps `create_wallet`. `binance_get_currency_live` is an external price fetch that returns floats.
- The `usleep(300000)` rate limit, and all logging (`log`, `$log_enabled`).
- Settings form fields, the constructor's hook wiring, every `add_action`/`add_filter` registration, `init_open_api_handler`, `open_wc_check_orders` and `open_wc_register_blockchain_status`. These are framework registration, not logic.
- HTML and JavaScript output: `open_order_admin_meta_general`, `open_order_meta_general`, `scripts`.
- The order query itself. `wc_get_orders` is modelled by the `Poll.Selected` predicate over a given sequence of orders; the order of that sequence is abstract.
- Poll.SelectedIsQueryResult: the call at line 183 passes no `limit`. WooCommerce then returns at most `posts_per_page` orders (10 unless the site changes it), newest first, so one run can visit fewer orders than `Selected` admits. The model polls every order in the given sequence.
- Concurrency between a webhook delivery and a poll tick. Each is modelled as one atomic step over the orders.
- Plugin.Activate: `wp_next_scheduled` returns a timestamp, and the source tests it for truthiness. The model treats any scheduled event as "scheduled", including one at Unix time 0.
- Plugin.AddStatusInsertsAfterPending: assumes the input has distinct keys and no `wc-blockchain-pending` entry. PHP arrays always have distinct keys. Inputs that already hold the entry are covered by `AddStatusOverwritesExisting` (entry before `wc-pending`) and `AddStatusMovesExisting` (entry after it).
- Webhook.EventData: a non-numeric `order_id` value, and a `timeline` that is not an array, are outside the decoded shape.
