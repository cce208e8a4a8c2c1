/**
 The metric catalog of the full dashboard and its derived-metric
 calculator. Raw counters are read from a map keyed by metric key; every
 derived metric is a guarded quotient of two of them, scaled by a fixed
 factor. Values are exact reals, so the calculator's catch-all for failed
 conversions has nothing left to catch and the function is simply total.
 */
module Metrics {
  import opened Wrappers
  import opened Formatting

  /** A raw metric is recorded or fetched; a calculated one is derived on read. */
  datatype Kind = Raw | Calculated

  datatype MetricDef = MetricDef(name: string, kind: Kind, format: Format)

  /** One catalog entry; a catalog is an ordered sequence of them, in the
      insertion order a Python dict keeps. */
  datatype Entry = Entry(key: string, def: MetricDef)

  function CatalogKeys(cat: seq<Entry>): set<string> {
    set i | 0 <= i < |cat| :: cat[i].key
  }

  predicate DistinctKeys(cat: seq<Entry>) {
    forall i, j :: 0 <= i < j < |cat| ==> cat[i].key != cat[j].key
  }

  /** The definition stored under `key`, if any. */
  function Lookup(cat: seq<Entry>, key: string): (r: Option<MetricDef>)
    ensures r.Some? <==> key in CatalogKeys(cat)
    ensures r.Some? ==> Entry(key, r.value) in cat
  {
    if |cat| == 0 then None
    else if cat[0].key == key then Some(cat[0].def)
    else
      var r := Lookup(cat[1..], key);
      assert forall e :: e in cat[1..] ==> e in cat;
      assert CatalogKeys(cat) == {cat[0].key} + CatalogKeys(cat[1..]);
      r
  }

  /** In a catalog with distinct keys, every entry's key looks up to that
      entry's definition. */
  lemma {:induction false} LookupDistinct(cat: seq<Entry>, i: nat)
    requires DistinctKeys(cat) && i < |cat|
    ensures Lookup(cat, cat[i].key) == Some(cat[i].def)
  {
    if i > 0 {
      assert cat[0].key != cat[i].key;
      assert cat[1..][i - 1] == cat[i];
      assert DistinctKeys(cat[1..]) by {
        forall a, b | 0 <= a < b < |cat| - 1
          ensures cat[1..][a].key != cat[1..][b].key
        {
          assert cat[1..][a] == cat[a + 1] && cat[1..][b] == cat[b + 1];
        }
      }
      LookupDistinct(cat[1..], i - 1);
    }
  }

  /** The seven counters that are recorded or fetched. */
  const RawKeys: set<string> :=
    {"spend", "impressions", "clicks", "add_to_cart", "checkout", "purchase", "purchase_revenue"}

  /** The default catalog: seven raw counters, then nine derived metrics. */
  const DefaultMetrics: seq<Entry> := [
    Entry("spend", MetricDef("Spend", Raw, Currency)),
    Entry("impressions", MetricDef("Impressions", Raw, Number)),
    Entry("clicks", MetricDef("Clicks", Raw, Number)),
    Entry("add_to_cart", MetricDef("Add to Cart", Raw, Number)),
    Entry("checkout", MetricDef("Checkout", Raw, Number)),
    Entry("purchase", MetricDef("Purchases", Raw, Number)),
    Entry("purchase_revenue", MetricDef("Purchase Revenue", Raw, Currency)),
    Entry("ctr", MetricDef("CTR", Calculated, Percentage)),
    Entry("cpm", MetricDef("CPM", Calculated, Currency)),
    Entry("cpc", MetricDef("CPC", Calculated, Currency)),
    Entry("atc_rate", MetricDef("Add to Cart Rate", Calculated, Percentage)),
    Entry("checkout_rate", MetricDef("Checkout Rate", Calculated, Percentage)),
    Entry("purchase_rate", MetricDef("Purchase Rate", Calculated, Percentage)),
    Entry("click_to_purchase", MetricDef("Click to Purchase Rate", Calculated, Percentage)),
    Entry("roas", MetricDef("ROAS", Calculated, Ratio)),
    Entry("cost_per_purchase", MetricDef("Cost per Purchase", Calculated, Currency))
  ]

  /** The nine derived metrics the calculator knows. */
  datatype Derived =
    Ctr | Cpm | Cpc | AtcRate | CheckoutRate | PurchaseRate | ClickToPurchase | Roas | CostPerPurchase

  /** The catalog key of a derived metric. */
  function DerivedKey(d: Derived): string {
    match d
    case Ctr => "ctr"
    case Cpm => "cpm"
    case Cpc => "cpc"
    case AtcRate => "atc_rate"
    case CheckoutRate => "checkout_rate"
    case PurchaseRate => "purchase_rate"
    case ClickToPurchase => "click_to_purchase"
    case Roas => "roas"
    case CostPerPurchase => "cost_per_purchase"
  }

  /** The calculator's `if`/`elif` chain over the metric key: which derived
      metric, if any, a key names. It recognises exactly the nine derived
      keys, each as the metric of that key. */
  function Classify(key: string): (r: Option<Derived>)
    ensures forall d :: r == Some(d) <==> key == DerivedKey(d)
  {
    if key == "ctr" then Some(Ctr)
    else if key == "cpm" then Some(Cpm)
    else if key == "cpc" then Some(Cpc)
    else if key == "atc_rate" then Some(AtcRate)
    else if key == "checkout_rate" then Some(CheckoutRate)
    else if key == "purchase_rate" then Some(PurchaseRate)
    else if key == "click_to_purchase" then Some(ClickToPurchase)
    else if key == "roas" then Some(Roas)
    else if key == "cost_per_purchase" then Some(CostPerPurchase)
    else None
  }

  /** `numerator / denominator * scale`, or 0 when the denominator is not
      positive. */
  datatype Formula = Formula(numerator: string, denominator: string, scale: real)

  /** The formula of each derived metric. */
  function FormulaOf(d: Derived): (f: Formula)
    ensures f.numerator in RawKeys && f.denominator in RawKeys
  {
    match d
    case Ctr => Formula("clicks", "impressions", 100.0)
    case Cpm => Formula("spend", "impressions", 1000.0)
    case Cpc => Formula("spend", "clicks", 1.0)
    case AtcRate => Formula("add_to_cart", "clicks", 100.0)
    case CheckoutRate => Formula("checkout", "add_to_cart", 100.0)
    case PurchaseRate => Formula("purchase", "checkout", 100.0)
    case ClickToPurchase => Formula("purchase", "clicks", 100.0)
    case Roas => Formula("purchase_revenue", "spend", 1.0)
    case CostPerPurchase => Formula("spend", "purchase", 1.0)
  }

  /** Reads a counter; an absent key reads as 0 (`dict.get(key, 0)`). */
  function Get(raw: map<string, real>, key: string): real {
    if key in raw then raw[key] else 0.0
  }

  /** What a formula promises of a value: 0 when the denominator is not
      positive, otherwise the value times the denominator is the scaled
      numerator. */
  predicate Satisfies(raw: map<string, real>, f: Formula, r: real) {
    var den := Get(raw, f.denominator);
    && (den <= 0.0 ==> r == 0.0)
    && (den > 0.0 ==> r * den == Get(raw, f.numerator) * f.scale)
  }

  /** One guarded quotient, as each branch of the calculator writes it. */
  function Evaluate(f: Formula, raw: map<string, real>): (r: real)
    ensures Satisfies(raw, f, r)
  {
    var den := Get(raw, f.denominator);
    if den > 0.0 then Get(raw, f.numerator) / den * f.scale else 0.0
  }

  /** `calculate_metric` of the full dashboard: a derived key gets its
      guarded formula, any other key its stored counter (0 if absent). */
  function CalculateMetric(key: string, raw: map<string, real>): (r: real)
    ensures Classify(key).Some? ==> Satisfies(raw, FormulaOf(Classify(key).value), r)
    ensures Classify(key).None? ==> r == Get(raw, key)
  {
    match Classify(key)
    case Some(d) => Evaluate(FormulaOf(d), raw)
    case None => Get(raw, key)
  }

  /** The nine formulas, key by key, each a quotient guarded by a positive
      denominator. */
  lemma CalculatorFormulas(raw: map<string, real>)
    ensures var impressions := Get(raw, "impressions");
      CalculateMetric("ctr", raw)
        == if impressions > 0.0 then Get(raw, "clicks") / impressions * 100.0 else 0.0
    ensures var impressions := Get(raw, "impressions");
      CalculateMetric("cpm", raw)
        == if impressions > 0.0 then Get(raw, "spend") / impressions * 1000.0 else 0.0
    ensures var clicks := Get(raw, "clicks");
      CalculateMetric("cpc", raw)
        == if clicks > 0.0 then Get(raw, "spend") / clicks else 0.0
    ensures var clicks := Get(raw, "clicks");
      CalculateMetric("atc_rate", raw)
        == if clicks > 0.0 then Get(raw, "add_to_cart") / clicks * 100.0 else 0.0
    ensures var addToCart := Get(raw, "add_to_cart");
      CalculateMetric("checkout_rate", raw)
        == if addToCart > 0.0 then Get(raw, "checkout") / addToCart * 100.0 else 0.0
    ensures var checkout := Get(raw, "checkout");
      CalculateMetric("purchase_rate", raw)
        == if checkout > 0.0 then Get(raw, "purchase") / checkout * 100.0 else 0.0
    ensures var clicks := Get(raw, "clicks");
      CalculateMetric("click_to_purchase", raw)
        == if clicks > 0.0 then Get(raw, "purchase") / clicks * 100.0 else 0.0
    ensures var spend := Get(raw, "spend");
      CalculateMetric("roas", raw)
        == if spend > 0.0 then Get(raw, "purchase_revenue") / spend else 0.0
    ensures var purchase := Get(raw, "purchase");
      CalculateMetric("cost_per_purchase", raw)
        == if purchase > 0.0 then Get(raw, "spend") / purchase else 0.0
  {
    assert Classify("ctr") == Some(Ctr) && Classify("cpm") == Some(Cpm);
    assert Classify("cpc") == Some(Cpc) && Classify("atc_rate") == Some(AtcRate);
    assert Classify("checkout_rate") == Some(CheckoutRate);
    assert Classify("purchase_rate") == Some(PurchaseRate);
    assert Classify("click_to_purchase") == Some(ClickToPurchase);
    assert Classify("roas") == Some(Roas) && Classify("cost_per_purchase") == Some(CostPerPurchase);
  }

  /** A formula's value is determined by what it promises: any two values
      satisfying it agree, so the contract of `CalculateMetric` pins its
      result down completely. */
  lemma FormulaDeterminesValue(raw: map<string, real>, f: Formula, r1: real, r2: real)
    requires Satisfies(raw, f, r1) && Satisfies(raw, f, r2)
    ensures r1 == r2
  {
    var den := Get(raw, f.denominator);
    if den > 0.0 {
      assert (r1 - r2) * den == 0.0;
    }
  }

  /** An absent counter reads as 0: adding it with value 0 changes no
      metric. */
  lemma AbsentReadsAsZero(key: string, raw: map<string, real>, missing: string)
    requires missing !in raw
    ensures CalculateMetric(key, raw[missing := 0.0]) == CalculateMetric(key, raw)
  {
    var raw' := raw[missing := 0.0];
    forall k
      ensures Get(raw', k) == Get(raw, k)
    {
    }
  }

  /** With no counters at all, every metric is 0. */
  lemma EmptyCountersGiveZero(key: string)
    ensures CalculateMetric(key, map[]) == 0.0
  {
  }

  /** A derived metric reads nothing but the seven raw counters. */
  lemma DerivedReadsRawOnly(key: string, raw: map<string, real>, other: string, v: real)
    requires Classify(key).Some? && other !in RawKeys
    ensures CalculateMetric(key, raw[other := v]) == CalculateMetric(key, raw)
  {
    var f := FormulaOf(Classify(key).value);
    var raw' := raw[other := v];
    assert Get(raw', f.numerator) == Get(raw, f.numerator);
    assert Get(raw', f.denominator) == Get(raw, f.denominator);
  }

  /** The position of a key in the default catalog, or 16 when it is not
      there. */
  function DefaultPosition(key: string): nat {
    if key == "spend" then 0
    else if key == "impressions" then 1
    else if key == "clicks" then 2
    else if key == "add_to_cart" then 3
    else if key == "checkout" then 4
    else if key == "purchase" then 5
    else if key == "purchase_revenue" then 6
    else if key == "ctr" then 7
    else if key == "cpm" then 8
    else if key == "cpc" then 9
    else if key == "atc_rate" then 10
    else if key == "checkout_rate" then 11
    else if key == "purchase_rate" then 12
    else if key == "click_to_purchase" then 13
    else if key == "roas" then 14
    else if key == "cost_per_purchase" then 15
    else 16
  }

  /** The keys of the default catalog are distinct. */
  lemma DefaultKeysDistinct()
    ensures DistinctKeys(DefaultMetrics)
  {
    forall i | 0 <= i < |DefaultMetrics|
      ensures DefaultPosition(DefaultMetrics[i].key) == i
    {
    }
  }

  /** In the default catalog the calculated entries are exactly the keys
      the calculator derives. */
  lemma DefaultCalculatedAreDerived()
    ensures forall i :: 0 <= i < |DefaultMetrics| ==>
      (DefaultMetrics[i].def.kind == Calculated <==> Classify(DefaultMetrics[i].key).Some?)
  {
  }

  /** In the default catalog the raw entries are exactly the seven
      counters. */
  lemma DefaultRawAreCounters()
    ensures forall i :: 0 <= i < |DefaultMetrics| ==>
      (DefaultMetrics[i].def.kind == Raw <==> DefaultMetrics[i].key in RawKeys)
  {
  }

  /** Every raw counter has an entry in the default catalog. */
  lemma DefaultHasCounters()
    ensures RawKeys <= CatalogKeys(DefaultMetrics)
  {
    var keys := CatalogKeys(DefaultMetrics);
    assert DefaultMetrics[0].key in keys && DefaultMetrics[1].key in keys;
    assert DefaultMetrics[2].key in keys && DefaultMetrics[3].key in keys;
    assert DefaultMetrics[4].key in keys && DefaultMetrics[5].key in keys;
    assert DefaultMetrics[6].key in keys;
  }

  /** Every derived metric has an entry in the default catalog. */
  lemma DefaultHasDerived(d: Derived)
    ensures DerivedKey(d) in CatalogKeys(DefaultMetrics)
  {
    var keys := CatalogKeys(DefaultMetrics);
    match d
    case Ctr => assert DefaultMetrics[7].key in keys;
    case Cpm => assert DefaultMetrics[8].key in keys;
    case Cpc => assert DefaultMetrics[9].key in keys;
    case AtcRate => assert DefaultMetrics[10].key in keys;
    case CheckoutRate => assert DefaultMetrics[11].key in keys;
    case PurchaseRate => assert DefaultMetrics[12].key in keys;
    case ClickToPurchase => assert DefaultMetrics[13].key in keys;
    case Roas => assert DefaultMetrics[14].key in keys;
    case CostPerPurchase => assert DefaultMetrics[15].key in keys;
  }
}
