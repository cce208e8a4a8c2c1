/**
 The metric layer of the smaller sample-data dashboard: four recorded
 counters per week, four derived metrics, and a table of eight formatted
 rows over four fixed weeks. The derived metrics are guarded quotients of
 the same shape as the full dashboard's, and they agree with it once the
 sample's conversions are read as the full dashboard's purchases.
 */
module SimpleApp {
  import opened Wrappers
  import opened Formatting
  import opened Metrics

  /** A week's record must hold all four counters: they are indexed
      without defaults. */
  predicate HasInputs(week: map<string, real>) {
    "spend" in week && "clicks" in week && "impressions" in week && "conversions" in week
  }

  const CtrFormula: Formula := Formula("clicks", "impressions", 100.0)
  const CpcFormula: Formula := Formula("spend", "clicks", 1.0)
  const ConversionRateFormula: Formula := Formula("conversions", "clicks", 100.0)
  const CostPerConversionFormula: Formula := Formula("spend", "conversions", 1.0)

  /** The eight keys of the result. */
  const OutputKeys: set<string> :=
    {"spend", "clicks", "impressions", "conversions", "ctr", "cpc", "conversion_rate", "cost_per_conversion"}

  /** `calculate_metrics`: the four counters passed through, and the four
      derived metrics, each 0 when its denominator is not positive. */
  function CalculateMetrics(week: map<string, real>): (m: map<string, real>)
    requires HasInputs(week)
    ensures m.Keys == OutputKeys
    ensures m["spend"] == week["spend"] && m["clicks"] == week["clicks"]
    ensures m["impressions"] == week["impressions"] && m["conversions"] == week["conversions"]
    ensures Satisfies(week, CtrFormula, m["ctr"])
    ensures Satisfies(week, CpcFormula, m["cpc"])
    ensures Satisfies(week, ConversionRateFormula, m["conversion_rate"])
    ensures Satisfies(week, CostPerConversionFormula, m["cost_per_conversion"])
  {
    map[
      "spend" := week["spend"],
      "clicks" := week["clicks"],
      "impressions" := week["impressions"],
      "conversions" := week["conversions"],
      "ctr" := Evaluate(CtrFormula, week),
      "cpc" := Evaluate(CpcFormula, week),
      "conversion_rate" := Evaluate(ConversionRateFormula, week),
      "cost_per_conversion" := Evaluate(CostPerConversionFormula, week)]
  }

  /** The week read with the full dashboard's counter names: conversions
      become purchases. */
  function AsFullCounters(week: map<string, real>): (raw: map<string, real>)
    requires HasInputs(week)
    ensures raw.Keys == {"spend", "clicks", "impressions", "purchase"}
    ensures raw["purchase"] == week["conversions"]
  {
    map["spend" := week["spend"], "clicks" := week["clicks"],
        "impressions" := week["impressions"], "purchase" := week["conversions"]]
  }

  /** The sample dashboard's four derived metrics are the full dashboard's
      CTR, CPC, click-to-purchase rate and cost per purchase. */
  lemma AgreesWithFullDashboard(week: map<string, real>)
    requires HasInputs(week)
    ensures var m := CalculateMetrics(week);
      var raw := AsFullCounters(week);
      && m["ctr"] == CalculateMetric("ctr", raw)
      && m["cpc"] == CalculateMetric("cpc", raw)
      && m["conversion_rate"] == CalculateMetric("click_to_purchase", raw)
      && m["cost_per_conversion"] == CalculateMetric("cost_per_purchase", raw)
  {
    var m := CalculateMetrics(week);
    var raw := AsFullCounters(week);
    assert Get(raw, "clicks") == Get(week, "clicks") && Get(raw, "impressions") == Get(week, "impressions");
    assert Get(raw, "spend") == Get(week, "spend") && Get(raw, "purchase") == Get(week, "conversions");
    SameQuotient(week, raw, CtrFormula, Ctr, m["ctr"]);
    SameQuotient(week, raw, CpcFormula, Cpc, m["cpc"]);
    SameQuotient(week, raw, ConversionRateFormula, ClickToPurchase, m["conversion_rate"]);
    SameQuotient(week, raw, CostPerConversionFormula, CostPerPurchase, m["cost_per_conversion"]);
  }

  /** A quotient over the sample's counters that reads the same numbers as
      a derived metric's formula over the full counters is that metric. */
  lemma SameQuotient(week: map<string, real>, raw: map<string, real>, f: Formula, d: Derived, r: real)
    requires Satisfies(week, f, r)
    requires Get(week, f.numerator) == Get(raw, FormulaOf(d).numerator)
    requires Get(week, f.denominator) == Get(raw, FormulaOf(d).denominator)
    requires f.scale == FormulaOf(d).scale
    ensures r == CalculateMetric(DerivedKey(d), raw)
  {
    assert Classify(DerivedKey(d)) == Some(d);
    FormulaDeterminesValue(raw, FormulaOf(d), r, CalculateMetric(DerivedKey(d), raw));
  }

  /** One entry of the table's metric list. */
  datatype Listed = Listed(name: string, key: string, format: Format)

  /** The rows of the table, in order. */
  const MetricsList: seq<Listed> := [
    Listed("Spend", "spend", Currency),
    Listed("Impressions", "impressions", Number),
    Listed("Clicks", "clicks", Number),
    Listed("Conversions", "conversions", Number),
    Listed("CTR (%)", "ctr", Percentage),
    Listed("CPC", "cpc", Currency),
    Listed("Conversion Rate (%)", "conversion_rate", Percentage),
    Listed("Cost per Conversion", "cost_per_conversion", Currency)
  ]

  /** The columns of the table, in order. */
  const SampleWeeks: seq<string> := ["Week 1", "Week 2", "Week 3", "Week 4"]

  /** Every listed metric is a key of the calculator's result. */
  lemma ListedKeysAreOutputs()
    ensures forall i :: 0 <= i < |MetricsList| ==> MetricsList[i].key in OutputKeys
  {
  }

  /** The platform's data holds a complete record for week `w`. */
  predicate HasWeek(data: map<string, map<string, real>>, w: string) {
    w in data && HasInputs(data[w])
  }

  /** The platform's data must hold a complete record for each week: the
      weeks are indexed without defaults. */
  predicate HasWeeks(data: map<string, map<string, real>>, weeks: seq<string>) {
    forall j :: 0 <= j < |weeks| ==> HasWeek(data, weeks[j])
  }

  /** A table row: the metric's display name and one text per week, in the
      order of `SampleWeeks`. */
  datatype Row = Row(metric: string, values: seq<string>)

  /** The text of metric `m` in week `w`: its value from the calculator, in
      the table's inline format. */
  function WeekText(data: map<string, map<string, real>>, m: Listed, w: string): string
    requires HasWeek(data, w) && m.key in OutputKeys
  {
    InlineFormat(CalculateMetrics(data[w])[m.key], m.format)
  }

  /** The inner loop: metric `m`'s text for each of `weeks`, in order. */
  function Texts(data: map<string, map<string, real>>, m: Listed, weeks: seq<string>): (r: seq<string>)
    requires HasWeeks(data, weeks) && m.key in OutputKeys
    ensures |r| == |weeks|
    ensures forall j :: 0 <= j < |weeks| ==> r[j] == WeekText(data, m, weeks[j])
  {
    seq(|weeks|, j requires 0 <= j < |weeks| => WeekText(data, m, weeks[j]))
  }

  /** The outer loop over a metric list: one row per entry, in order, with
      the entry's name and its texts. */
  method CreateRows(data: map<string, map<string, real>>, metrics: seq<Listed>, weeks: seq<string>) returns (rows: seq<Row>)
    requires HasWeeks(data, weeks)
    requires forall i :: 0 <= i < |metrics| ==> metrics[i].key in OutputKeys
    ensures |rows| == |metrics|
    ensures forall i :: 0 <= i < |rows| ==>
      rows[i].metric == metrics[i].name && rows[i].values == Texts(data, metrics[i], weeks)
  {
    rows := [];
    var i := 0;
    while i < |metrics|
      invariant 0 <= i <= |metrics| && |rows| == i
      invariant forall a :: 0 <= a < i ==>
        rows[a].metric == metrics[a].name && rows[a].values == Texts(data, metrics[a], weeks)
    {
      rows := rows + [Row(metrics[i].name, Texts(data, metrics[i], weeks))];
      i := i + 1;
    }
  }

  /** `create_metrics_table`: one row per listed metric, in list order,
      holding the metric's name and its inline-formatted value for each of
      the four weeks in order. */
  method CreateMetricsTable(data: map<string, map<string, real>>) returns (rows: seq<Row>)
    requires HasWeeks(data, SampleWeeks)
    ensures |rows| == |MetricsList|
    ensures forall i :: 0 <= i < |rows| ==>
      rows[i].metric == MetricsList[i].name && |rows[i].values| == |SampleWeeks|
    ensures forall i, j :: 0 <= i < |rows| && 0 <= j < |SampleWeeks| ==>
      rows[i].values[j] == WeekText(data, MetricsList[i], SampleWeeks[j])
  {
    ListedKeysAreOutputs();
    rows := CreateRows(data, MetricsList, SampleWeeks);
  }
}
