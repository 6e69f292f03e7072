/**
 * The subscription ledger and the payment provider's webhook (`stripe_webhook`).
 *
 * The ledger holds the `UserSubscription` rows, keyed by the provider's
 * subscription id (the column is unique). An event arrives with the outcome
 * of the signature check and, when the handler fetches the subscription from
 * the provider, with the fetched payload; the handler's reply and the new
 * ledger are computed from these and from the current time.
 */
module Billing {
  import opened Wrappers
  import Text

  /** A `UserSubscription` row; times are seconds since the epoch. */
  datatype Row = Row(
    user: nat, plan: nat, customer: Option<string>, active: bool,
    start: int, end: int, created: int, updated: int)

  type Ledger = map<string, Row>

  /** The columns of `CustomUser` and `SubscriptionPlan` the handler filters on. */
  datatype User = User(id: nat, customer: Option<string>)
  datatype Plan = Plan(id: nat, priceId: string)

  /** The fields of `event["data"]["object"]` the handler reads; None is an absent member. */
  datatype EventObject = EventObject(
    subscription: Option<string>, customer: Option<string>,
    id: Option<string>, status: Option<string>, currentPeriodEnd: Option<int>)

  /** What `Subscription.retrieve` returned: its period end (if present) and first price id. */
  datatype Fetched = Fetched(currentPeriodEnd: Option<int>, priceId: string)

  /**
   * One delivery. `signatureValid` is the outcome of `construct_event`;
   * `fetched` is None when the retrieve call raised.
   */
  datatype Event = Event(signatureValid: bool, typ: string, data: EventObject, fetched: Option<Fetched>)

  /** 400 for a rejected event, 200 when handled, 500 when the handler raised. */
  datatype Response = BadRequest | Handled | ServerError

  const CheckoutCompleted := "checkout.session.completed"
  const PaymentSucceeded := "invoice.payment_succeeded"
  const PaymentFailed := "invoice.payment_failed"
  const SubscriptionDeleted := "customer.subscription.deleted"
  const SubscriptionUpdated := "customer.subscription.updated"

  /** `if x:` on an optional string: present and non-empty. */
  predicate Present(x: Option<string>) {
    x.Some? && Text.Truthy(x.value)
  }

  /** The position of the first element satisfying `p` (`.filter(...).first()` in primary-key order). */
  function FirstIndex<T>(xs: seq<T>, p: T -> bool): (r: Option<nat>)
    ensures r.None? <==> forall j :: 0 <= j < |xs| ==> !p(xs[j])
    ensures r.Some? ==> r.value < |xs| && p(xs[r.value])
                        && forall j :: 0 <= j < r.value ==> !p(xs[j])
  {
    if |xs| == 0 then None
    else if p(xs[0]) then Some(0)
    else
      var rest := FirstIndex(xs[1..], p);
      if rest.None? then None else Some(rest.value + 1)
  }

  /**
   * `CustomUser.objects.filter(stripe_customer_id=c).first()`: comparing with
   * None selects the users whose column is NULL, as Django's `filter(x=None)` does.
   */
  function UserWithCustomer(users: seq<User>, c: Option<string>): (r: Option<User>)
    ensures r.None? <==> forall j :: 0 <= j < |users| ==> users[j].customer != c
    ensures r.Some? ==> r.value.customer == c && r.value in users
  {
    var i := FirstIndex(users, (u: User) => u.customer == c);
    if i.None? then None else Some(users[i.value])
  }

  function PlanWithPrice(plans: seq<Plan>, priceId: string): (r: Option<Plan>)
    ensures r.None? <==> forall j :: 0 <= j < |plans| ==> plans[j].priceId != priceId
    ensures r.Some? ==> r.value.priceId == priceId && r.value in plans
  {
    var i := FirstIndex(plans, (p: Plan) => p.priceId == priceId);
    if i.None? then None else Some(plans[i.value])
  }

  /**
   * `update_or_create(stripe_subscription_id=id, defaults=...)`: an existing row
   * keeps its creation time, every other column takes the new values, and the
   * save stamps `updated_at`.
   */
  function Upsert(ledger: Ledger, id: string, user: nat, plan: nat, customer: Option<string>,
                  end: int, now: int): (r: Ledger)
    ensures r.Keys == ledger.Keys + {id}
    ensures forall k :: k in ledger && k != id ==> r[k] == ledger[k]
    ensures r[id].user == user && r[id].plan == plan && r[id].customer == customer
    ensures r[id].active && r[id].start == now && r[id].end == end && r[id].updated == now
    ensures r[id].created == (if id in ledger then ledger[id].created else now)
  {
    var created := if id in ledger then ledger[id].created else now;
    ledger[id := Row(user, plan, customer, true, now, end, created, now)]
  }

  /** `checkout.session.completed`. */
  function OnCheckout(ledger: Ledger, users: seq<User>, plans: seq<Plan>, ev: Event, now: int): (out: (Response, Ledger))
    ensures out.0 != BadRequest
    ensures out.0 != Handled ==> out.1 == ledger
    ensures !Present(ev.data.subscription) ==> out == (Handled, ledger)
    ensures out.1 == ledger
            || (Present(ev.data.subscription) && ev.fetched.Some?
                && out.1.Keys == ledger.Keys + {ev.data.subscription.value}
                && (forall k :: k in ledger && k != ev.data.subscription.value ==> out.1[k] == ledger[k])
                && out.1[ev.data.subscription.value].active
                && out.1[ev.data.subscription.value].customer == ev.data.customer)
  {
    var session := ev.data;
    if !Present(session.subscription) then (Handled, ledger)
    else if ev.fetched.None? then (ServerError, ledger)
    else
      var plan := PlanWithPrice(plans, ev.fetched.value.priceId);
      var user := UserWithCustomer(users, session.customer);
      if user.None? || plan.None? then (Handled, ledger)
      else if ev.fetched.value.currentPeriodEnd.None? then (ServerError, ledger)
      else
        (Handled, Upsert(ledger, session.subscription.value, user.value.id, plan.value.id,
                         session.customer, ev.fetched.value.currentPeriodEnd.value, now))
  }

  /**
   * `invoice.payment_succeeded`: the subscription is fetched first (even when
   * no local row exists), then an existing row is reactivated with the new
   * period end. Saving with `update_fields` leaves `updated_at` alone.
   */
  function OnPaymentSucceeded(ledger: Ledger, ev: Event): (out: (Response, Ledger))
    ensures out.0 != BadRequest
    ensures out.0 != Handled ==> out.1 == ledger
    ensures out.1.Keys == ledger.Keys
    ensures forall k :: k in ledger && Some(k) != ev.data.subscription ==> out.1[k] == ledger[k]
    ensures out.1 == ledger
            || (Present(ev.data.subscription) && ev.data.subscription.value in ledger
                && ev.fetched.Some? && ev.fetched.value.currentPeriodEnd.Some?
                && out.1[ev.data.subscription.value]
                   == ledger[ev.data.subscription.value].(active := true, end := ev.fetched.value.currentPeriodEnd.value))
  {
    var id := ev.data.subscription;
    if !Present(id) then (Handled, ledger)
    else if ev.fetched.None? then (ServerError, ledger)
    else if id.value !in ledger then (Handled, ledger)
    else if ev.fetched.value.currentPeriodEnd.None? then (ServerError, ledger)
    else
      (Handled, ledger[id.value := ledger[id.value].(active := true, end := ev.fetched.value.currentPeriodEnd.value)])
  }

  /** `invoice.payment_failed`: an existing row is deactivated; nothing is fetched. */
  function OnPaymentFailed(ledger: Ledger, ev: Event): (out: (Response, Ledger))
    ensures out.0 == Handled
    ensures out.1.Keys == ledger.Keys
    ensures forall k :: k in ledger ==>
              out.1[k] == if Present(ev.data.subscription) && k == ev.data.subscription.value
                          then ledger[k].(active := false) else ledger[k]
  {
    var id := ev.data.subscription;
    if !Present(id) || id.value !in ledger then (Handled, ledger)
    else (Handled, ledger[id.value := ledger[id.value].(active := false)])
  }

  predicate LiveStatus(status: Option<string>) {
    status == Some("active") || status == Some("trialing")
  }

  /** `customer.subscription.updated` / `deleted`: the event object is the subscription itself. */
  function OnSubscriptionChanged(ledger: Ledger, ev: Event): (out: (Response, Ledger))
    ensures out.0 != BadRequest
    ensures out.0 != Handled ==> out.1 == ledger
    ensures out.1.Keys == ledger.Keys
    ensures forall k :: k in ledger && Some(k) != ev.data.id ==> out.1[k] == ledger[k]
    ensures out.0 == Handled && ev.data.id.Some? && ev.data.id.value in ledger ==>
              ev.data.currentPeriodEnd.Some?
              && out.1[ev.data.id.value]
                 == ledger[ev.data.id.value].(active := LiveStatus(ev.data.status), end := ev.data.currentPeriodEnd.value)
  {
    var sub := ev.data;
    if sub.id.None? || sub.id.value !in ledger then (Handled, ledger)
    else if sub.currentPeriodEnd.None? then (ServerError, ledger)
    else
      (Handled, ledger[sub.id.value := ledger[sub.id.value].(active := LiveStatus(sub.status),
                                                             end := sub.currentPeriodEnd.value)])
  }

  /** `stripe_webhook`: reject unverifiable deliveries, then dispatch on the event type. */
  function HandleWebhook(ledger: Ledger, users: seq<User>, plans: seq<Plan>, ev: Event, now: int): (out: (Response, Ledger))
    ensures !ev.signatureValid ==> out == (BadRequest, ledger)
    ensures out.0 != Handled ==> out.1 == ledger
    ensures out.1.Keys == ledger.Keys
            || (ev.signatureValid && ev.typ == CheckoutCompleted && Present(ev.data.subscription)
                && out.1.Keys == ledger.Keys + {ev.data.subscription.value})
    ensures ev.signatureValid && ev.typ !in {CheckoutCompleted, PaymentSucceeded, PaymentFailed,
                                             SubscriptionDeleted, SubscriptionUpdated}
            ==> out == (Handled, ledger)
  {
    if !ev.signatureValid then (BadRequest, ledger)
    else if ev.typ == CheckoutCompleted then OnCheckout(ledger, users, plans, ev, now)
    else if ev.typ == PaymentSucceeded then OnPaymentSucceeded(ledger, ev)
    else if ev.typ == PaymentFailed then OnPaymentFailed(ledger, ev)
    else if ev.typ == SubscriptionDeleted || ev.typ == SubscriptionUpdated then OnSubscriptionChanged(ledger, ev)
    else (Handled, ledger)
  }

  // ---------------------------------------------------------------------
  // Properties of the handler

  /** The checkout's effect, when every lookup succeeds and the period end is present. */
  lemma CheckoutUpserts(ledger: Ledger, users: seq<User>, plans: seq<Plan>, ev: Event, now: int)
    requires ev.signatureValid && ev.typ == CheckoutCompleted
    requires Present(ev.data.subscription) && ev.fetched.Some?
    requires UserWithCustomer(users, ev.data.customer).Some?
    requires PlanWithPrice(plans, ev.fetched.value.priceId).Some?
    requires ev.fetched.value.currentPeriodEnd.Some?
    ensures var (resp, l) := HandleWebhook(ledger, users, plans, ev, now);
            var id := ev.data.subscription.value;
            resp == Handled && l.Keys == ledger.Keys + {id}
            && (forall k :: k in ledger && k != id ==> l[k] == ledger[k])
            && l[id].user == UserWithCustomer(users, ev.data.customer).value.id
            && l[id].plan == PlanWithPrice(plans, ev.fetched.value.priceId).value.id
            && l[id].customer == ev.data.customer
            && l[id].active && l[id].end == ev.fetched.value.currentPeriodEnd.value
  {
  }

  /**
   * The checkout changes the ledger only when the session names a subscription
   * and both a user with the session's customer id and a plan with the fetched
   * price exist.
   */
  lemma CheckoutNeedsUserAndPlan(ledger: Ledger, users: seq<User>, plans: seq<Plan>, ev: Event, now: int)
    requires ev.signatureValid && ev.typ == CheckoutCompleted
    requires HandleWebhook(ledger, users, plans, ev, now).1 != ledger
    ensures Present(ev.data.subscription) && ev.fetched.Some?
    ensures exists u :: u in users && u.customer == ev.data.customer
    ensures exists p :: p in plans && p.priceId == ev.fetched.value.priceId
  {
    var user := UserWithCustomer(users, ev.data.customer);
    var plan := PlanWithPrice(plans, ev.fetched.value.priceId);
    assert user.Some? && plan.Some?;
    assert user.value in users && plan.value in plans;
  }

  /** Delivering the same checkout twice at the same instant leaves the ledger as one delivery does. */
  lemma CheckoutIdempotent(ledger: Ledger, users: seq<User>, plans: seq<Plan>, ev: Event, now: int)
    requires ev.typ == CheckoutCompleted
    ensures var once := HandleWebhook(ledger, users, plans, ev, now).1;
            HandleWebhook(once, users, plans, ev, now).1 == once
  {
  }

  /** A redelivery later only refreshes the start and update stamps of the same single row. */
  lemma CheckoutRedeliveryKeepsOneRow(ledger: Ledger, users: seq<User>, plans: seq<Plan>, ev: Event, now: int, later: int)
    requires ev.typ == CheckoutCompleted
    ensures var once := HandleWebhook(ledger, users, plans, ev, now).1;
            var twice := HandleWebhook(once, users, plans, ev, later).1;
            twice.Keys == once.Keys
            && forall k :: k in once ==> twice[k].(start := 0, updated := 0) == once[k].(start := 0, updated := 0)
  {
  }

  /** A successful payment reactivates an existing row and moves its end; no other column or row changes. */
  lemma PaymentSucceededTouchesOnlyItsRow(ledger: Ledger, users: seq<User>, plans: seq<Plan>, ev: Event, now: int)
    requires ev.signatureValid && ev.typ == PaymentSucceeded
    ensures var (resp, l) := HandleWebhook(ledger, users, plans, ev, now);
            l.Keys == ledger.Keys
            && (forall k :: k in ledger && Some(k) != ev.data.subscription ==> l[k] == ledger[k])
            && (resp == Handled && Present(ev.data.subscription) && ev.data.subscription.value in ledger
                ==> l[ev.data.subscription.value]
                    == ledger[ev.data.subscription.value].(active := true,
                                                           end := ev.fetched.value.currentPeriodEnd.value))
  {
  }

  /** A failed payment deactivates an existing row and keeps its end date; an unknown id is a no-op. */
  lemma PaymentFailedDeactivates(ledger: Ledger, users: seq<User>, plans: seq<Plan>, ev: Event, now: int)
    requires ev.signatureValid && ev.typ == PaymentFailed
    ensures var (resp, l) := HandleWebhook(ledger, users, plans, ev, now);
            resp == Handled && l.Keys == ledger.Keys
            && (forall k :: k in ledger && Some(k) != ev.data.subscription ==> l[k] == ledger[k])
            && (Present(ev.data.subscription) && ev.data.subscription.value in ledger
                ==> l[ev.data.subscription.value] == ledger[ev.data.subscription.value].(active := false))
            && (!Present(ev.data.subscription) || ev.data.subscription.value !in ledger ==> l == ledger)
  {
  }

  /** An update or deletion marks the row active exactly for the statuses "active" and "trialing". */
  lemma SubscriptionChangeSetsStatus(ledger: Ledger, users: seq<User>, plans: seq<Plan>, ev: Event, now: int)
    requires ev.signatureValid && (ev.typ == SubscriptionUpdated || ev.typ == SubscriptionDeleted)
    requires ev.data.id.Some? && ev.data.id.value in ledger && ev.data.currentPeriodEnd.Some?
    ensures var (resp, l) := HandleWebhook(ledger, users, plans, ev, now);
            var id := ev.data.id.value;
            resp == Handled && l.Keys == ledger.Keys
            && (l[id].active <==> ev.data.status == Some("active") || ev.data.status == Some("trialing"))
            && l[id].end == ev.data.currentPeriodEnd.value
            && l[id].(active := true, end := 0) == ledger[id].(active := true, end := 0)
            && (forall k :: k in ledger && k != id ==> l[k] == ledger[k])
  {
  }

  /** Events about a subscription the ledger does not hold change nothing. */
  lemma UnknownSubscriptionIsNoOp(ledger: Ledger, users: seq<User>, plans: seq<Plan>, ev: Event, now: int)
    requires ev.typ != CheckoutCompleted
    requires ev.data.subscription.None? || ev.data.subscription.value !in ledger
    requires ev.data.id.None? || ev.data.id.value !in ledger
    ensures HandleWebhook(ledger, users, plans, ev, now).1 == ledger
  {
  }

  /**
   * Events arriving out of order: a failure delivered after a success leaves
   * the row inactive, with the end date the success set.
   */
  lemma FailureAfterSuccessWins(ledger: Ledger, users: seq<User>, plans: seq<Plan>,
                                ok: Event, failed: Event, now: int)
    requires ok.signatureValid && ok.typ == PaymentSucceeded
    requires failed.signatureValid && failed.typ == PaymentFailed
    requires Present(ok.data.subscription) && ok.data.subscription == failed.data.subscription
    requires ok.data.subscription.value in ledger
    requires ok.fetched.Some? && ok.fetched.value.currentPeriodEnd.Some?
    ensures var l := HandleWebhook(HandleWebhook(ledger, users, plans, ok, now).1, users, plans, failed, now).1;
            var id := ok.data.subscription.value;
            !l[id].active && l[id].end == ok.fetched.value.currentPeriodEnd.value
  {
  }

  // ---------------------------------------------------------------------
  // Entitlement

  /** `UserSubscription.is_current`. */
  predicate IsCurrent(row: Row, now: int) {
    row.active && row.end > now
  }

  /** Some row of the user is current. */
  predicate HasCurrent(ledger: Ledger, user: nat, now: int) {
    exists k :: k in ledger && ledger[k].user == user && IsCurrent(ledger[k], now)
  }

  /**
   * `CustomUser.current_subscription`: among the user's current rows, the
   * most recently created one (the model orders by `-created_at`); rows
   * created at the same instant are interchangeable.
   */
  method CurrentSubscription(ledger: Ledger, user: nat, now: int) returns (r: Option<string>)
    ensures r.None? <==> !HasCurrent(ledger, user, now)
    ensures r.Some? ==> r.value in ledger && ledger[r.value].user == user && IsCurrent(ledger[r.value], now)
    ensures r.Some? ==> forall k :: k in ledger && ledger[k].user == user && IsCurrent(ledger[k], now)
                                    ==> ledger[k].created <= ledger[r.value].created
  {
    r := None;
    var todo := ledger.Keys;
    while todo != {}
      invariant todo <= ledger.Keys
      invariant r.None? ==> forall k :: k in ledger.Keys - todo ==> !(ledger[k].user == user && IsCurrent(ledger[k], now))
      invariant r.Some? ==> r.value in ledger && ledger[r.value].user == user && IsCurrent(ledger[r.value], now)
      invariant r.Some? ==> forall k :: k in ledger.Keys - todo && ledger[k].user == user && IsCurrent(ledger[k], now)
                                        ==> ledger[k].created <= ledger[r.value].created
      decreases todo
    {
      var k :| k in todo;
      if ledger[k].user == user && IsCurrent(ledger[k], now) {
        if r.None? || ledger[k].created > ledger[r.value].created {
          r := Some(k);
        }
      }
      todo := todo - {k};
    }
  }

  /** A completed checkout whose period has not ended entitles the user. */
  lemma CheckoutEntitles(ledger: Ledger, users: seq<User>, plans: seq<Plan>, ev: Event, now: int)
    requires ev.signatureValid && ev.typ == CheckoutCompleted
    requires Present(ev.data.subscription) && ev.fetched.Some?
    requires UserWithCustomer(users, ev.data.customer).Some?
    requires PlanWithPrice(plans, ev.fetched.value.priceId).Some?
    requires ev.fetched.value.currentPeriodEnd.Some? && ev.fetched.value.currentPeriodEnd.value > now
    ensures HasCurrent(HandleWebhook(ledger, users, plans, ev, now).1,
                       UserWithCustomer(users, ev.data.customer).value.id, now)
  {
    var l := HandleWebhook(ledger, users, plans, ev, now).1;
    var id := ev.data.subscription.value;
    assert id in l && IsCurrent(l[id], now);
  }

  /** A failed payment on a user's only subscription ends the entitlement. */
  lemma PaymentFailureRevokes(ledger: Ledger, users: seq<User>, plans: seq<Plan>, ev: Event, now: int, user: nat)
    requires ev.signatureValid && ev.typ == PaymentFailed
    requires Present(ev.data.subscription) && ev.data.subscription.value in ledger
    requires forall k :: k in ledger && ledger[k].user == user ==> k == ev.data.subscription.value
    ensures !HasCurrent(HandleWebhook(ledger, users, plans, ev, now).1, user, now)
  {
  }
}
