/**
 Aggregation of the Facebook insights response into the seven raw
 counters. The response lists one record per day of the requested range;
 the aggregator sums spend, impressions and clicks over the days and
 classifies each conversion action by its type. The HTTP request itself is
 not modelled: its outcome is a parameter.
 */
module Insights {
  import opened Wrappers
  import Metrics

  /** One entry of a day's `actions` list: a conversion count. */
  datatype Action = Action(actionType: string, count: int)

  /** One entry of a day's `action_values` list: a conversion value. */
  datatype ActionValue = ActionValue(actionType: string, amount: real)

  /** One day of the response. An absent field is represented by 0 or by
      an empty list, the defaults the aggregator reads it with. */
  datatype Day = Day(
    spend: real,
    impressions: int,
    clicks: int,
    actions: seq<Action>,
    actionValues: seq<ActionValue>)

  /** The seven raw counters, with the numeric types the aggregator keeps. */
  datatype Counters = Counters(
    spend: real,
    impressions: int,
    clicks: int,
    addToCart: int,
    checkout: int,
    purchase: int,
    purchaseRevenue: real)
  {
    function Plus(other: Counters): Counters {
      Counters(
        spend + other.spend,
        impressions + other.impressions,
        clicks + other.clicks,
        addToCart + other.addToCart,
        checkout + other.checkout,
        purchase + other.purchase,
        purchaseRevenue + other.purchaseRevenue)
    }
  }

  /** `get_empty_metrics`: every counter 0. */
  const Empty: Counters := Counters(0.0, 0, 0, 0, 0, 0, 0.0)

  /** Action types that count as a purchase. */
  const PurchaseTypes: set<string> := {"purchase", "complete_registration"}

  /** The counters as the dictionary the dashboard stores, keyed by the
      seven raw metric keys. */
  function AsRawMap(c: Counters): (m: map<string, real>)
    ensures m.Keys == Metrics.RawKeys
    ensures m["spend"] == c.spend && m["purchase_revenue"] == c.purchaseRevenue
    ensures m["impressions"] == c.impressions as real && m["clicks"] == c.clicks as real
    ensures m["add_to_cart"] == c.addToCart as real && m["checkout"] == c.checkout as real
    ensures m["purchase"] == c.purchase as real
  {
    map[
      "spend" := c.spend,
      "impressions" := c.impressions as real,
      "clicks" := c.clicks as real,
      "add_to_cart" := c.addToCart as real,
      "checkout" := c.checkout as real,
      "purchase" := c.purchase as real,
      "purchase_revenue" := c.purchaseRevenue]
  }

  /** The empty counters read as 0 under every raw key. */
  lemma EmptyIsZero(k: string)
    requires k in Metrics.RawKeys
    ensures AsRawMap(Empty)[k] == 0.0
  {
  }

  /* ---------------------------------------------------------------- */
  /* The aggregation as the dashboard performs it: in order, mutating   */
  /* one set of counters                                                */
  /* ---------------------------------------------------------------- */

  /** One pass of the inner `actions` loop. */
  function AddAction(c: Counters, a: Action): Counters {
    if a.actionType == "add_to_cart" then c.(addToCart := c.addToCart + a.count)
    else if a.actionType == "initiate_checkout" then c.(checkout := c.checkout + a.count)
    else if a.actionType in PurchaseTypes then c.(purchase := c.purchase + a.count)
    else c
  }

  function AddActions(c: Counters, actions: seq<Action>): Counters
    decreases |actions|
  {
    if |actions| == 0 then c else AddActions(AddAction(c, actions[0]), actions[1..])
  }

  /** One pass of the inner `action_values` loop. */
  function AddActionValue(c: Counters, v: ActionValue): Counters {
    if v.actionType in PurchaseTypes then c.(purchaseRevenue := c.purchaseRevenue + v.amount)
    else c
  }

  function AddActionValues(c: Counters, values: seq<ActionValue>): Counters
    decreases |values|
  {
    if |values| == 0 then c else AddActionValues(AddActionValue(c, values[0]), values[1..])
  }

  /** One pass of the outer loop over days. */
  function AddDay(c: Counters, d: Day): Counters {
    var c1 := c.(spend := c.spend + d.spend,
                 impressions := c.impressions + d.impressions,
                 clicks := c.clicks + d.clicks);
    AddActionValues(AddActions(c1, d.actions), d.actionValues)
  }

  function AddDays(c: Counters, days: seq<Day>): Counters
    decreases |days|
  {
    if |days| == 0 then c else AddDays(AddDay(c, days[0]), days[1..])
  }

  /** `process_facebook_data`: fold the days into fresh counters. The
      result sums every counter over the days: spend, impressions and
      clicks as reported; `add_to_cart` actions into add-to-cart,
      `initiate_checkout` into checkout, `purchase` and
      `complete_registration` into purchases and their values into
      revenue. */
  function ProcessFacebookData(days: seq<Day>): (c: Counters)
    ensures c == Totals(days)
  {
    AddDaysAddsTotals(Empty, days);
    AddDays(Empty, days)
  }

  /* ---------------------------------------------------------------- */
  /* Reference definition: each counter is a plain sum                  */
  /* ---------------------------------------------------------------- */

  /** The total count of the actions whose type is in `types`. */
  function CountOf(actions: seq<Action>, types: set<string>): int {
    if |actions| == 0 then 0
    else (if actions[0].actionType in types then actions[0].count else 0) + CountOf(actions[1..], types)
  }

  /** The total amount of the action values whose type is in `types`. */
  function AmountOf(values: seq<ActionValue>, types: set<string>): real {
    if |values| == 0 then 0.0
    else (if values[0].actionType in types then values[0].amount else 0.0) + AmountOf(values[1..], types)
  }

  /** What one day contributes to each counter. */
  function DayTotals(d: Day): Counters {
    Counters(
      d.spend,
      d.impressions,
      d.clicks,
      CountOf(d.actions, {"add_to_cart"}),
      CountOf(d.actions, {"initiate_checkout"}),
      CountOf(d.actions, PurchaseTypes),
      AmountOf(d.actionValues, PurchaseTypes))
  }

  /** Each counter summed over all days. */
  function Totals(days: seq<Day>): Counters {
    if |days| == 0 then Empty else DayTotals(days[0]).Plus(Totals(days[1..]))
  }

  /* ---------------------------------------------------------------- */
  /* The fold computes the sums                                         */
  /* ---------------------------------------------------------------- */

  lemma {:induction false} AddActionsCounts(c: Counters, actions: seq<Action>)
    ensures AddActions(c, actions)
         == c.(addToCart := c.addToCart + CountOf(actions, {"add_to_cart"}),
               checkout := c.checkout + CountOf(actions, {"initiate_checkout"}),
               purchase := c.purchase + CountOf(actions, PurchaseTypes))
    decreases |actions|
  {
    if |actions| > 0 {
      AddActionsCounts(AddAction(c, actions[0]), actions[1..]);
    }
  }

  lemma {:induction false} AddActionValuesAmounts(c: Counters, values: seq<ActionValue>)
    ensures AddActionValues(c, values)
         == c.(purchaseRevenue := c.purchaseRevenue + AmountOf(values, PurchaseTypes))
    decreases |values|
  {
    if |values| > 0 {
      AddActionValuesAmounts(AddActionValue(c, values[0]), values[1..]);
    }
  }

  /** One pass of the day loop adds exactly that day's totals. */
  lemma AddDayAddsTotals(c: Counters, d: Day)
    ensures AddDay(c, d) == c.Plus(DayTotals(d))
  {
    var c1 := c.(spend := c.spend + d.spend,
                 impressions := c.impressions + d.impressions,
                 clicks := c.clicks + d.clicks);
    AddActionsCounts(c1, d.actions);
    AddActionValuesAmounts(AddActions(c1, d.actions), d.actionValues);
  }

  lemma {:induction false} AddDaysAddsTotals(c: Counters, days: seq<Day>)
    ensures AddDays(c, days) == c.Plus(Totals(days))
    decreases |days|
  {
    if |days| > 0 {
      AddDayAddsTotals(c, days[0]);
      AddDaysAddsTotals(AddDay(c, days[0]), days[1..]);
    }
  }

  /** Aggregating a range in two parts and adding the parts gives the
      aggregate of the whole range. */
  lemma {:induction false} TotalsSplit(a: seq<Day>, b: seq<Day>)
    ensures Totals(a + b) == Totals(a).Plus(Totals(b))
  {
    if |a| > 0 {
      assert (a + b)[1..] == a[1..] + b;
      TotalsSplit(a[1..], b);
    } else {
      assert a + b == b;
    }
  }

  lemma {:induction false} CountOfIgnores(actions: seq<Action>, a: Action, types: set<string>)
    requires a.actionType !in types
    ensures CountOf(actions + [a], types) == CountOf(actions, types)
  {
    if |actions| > 0 {
      assert (actions + [a])[1..] == actions[1..] + [a];
      CountOfIgnores(actions[1..], a, types);
    }
  }

  lemma {:induction false} AmountOfIgnores(values: seq<ActionValue>, v: ActionValue, types: set<string>)
    requires v.actionType !in types
    ensures AmountOf(values + [v], types) == AmountOf(values, types)
  {
    if |values| > 0 {
      assert (values + [v])[1..] == values[1..] + [v];
      AmountOfIgnores(values[1..], v, types);
    }
  }

  /** An action or action value of any other type changes no counter. */
  lemma UntrackedIgnored(d: Day, a: Action, v: ActionValue)
    requires a.actionType !in {"add_to_cart", "initiate_checkout", "purchase", "complete_registration"}
    requires v.actionType !in PurchaseTypes
    ensures DayTotals(d.(actions := d.actions + [a], actionValues := d.actionValues + [v]))
         == DayTotals(d)
  {
    CountOfIgnores(d.actions, a, {"add_to_cart"});
    CountOfIgnores(d.actions, a, {"initiate_checkout"});
    CountOfIgnores(d.actions, a, PurchaseTypes);
    AmountOfIgnores(d.actionValues, v, PurchaseTypes);
  }

  /* ---------------------------------------------------------------- */
  /* The decision around the request                                    */
  /* ---------------------------------------------------------------- */

  /** What the insights request produced: a transport or decoding failure,
      or a decoded body whose `data` list may be absent. */
  datatype Response = Failed | Received(data: Option<seq<Day>>)

  /** `get_insights` after the request: aggregate a nonempty `data` list,
      otherwise (no list, an empty list, or a failure) the empty counters. */
  function GetInsights(resp: Response): (c: Counters)
    ensures resp.Failed? ==> c == Empty
    ensures resp.Received? && resp.data.None? ==> c == Empty
    ensures resp.Received? && resp.data.Some? ==> c == Totals(resp.data.value)
  {
    match resp
    case Received(Some(days)) =>
      if |days| > 0 then ProcessFacebookData(days) else Empty
    case _ => Empty
  }
}
