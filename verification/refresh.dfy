/**
 The refresh of the Facebook table: one insights request per column, each
 result fed to the grid update. The request's outcome per column is a
 parameter, as is whether credentials are set.

 As written, the request helper answers a failed request with the all-zero
 counters, which the update loop cannot tell from real data: the column's
 counters are overwritten with zeros tagged as fetched, and the loop's
 "could not fetch" branch is never taken for a failure. `FetchAsWritten`
 and `RefreshTable` model that code; `FetchIntended` and `RefreshIntended`
 are the corrected fetch, which reports a failed request as nothing
 fetched, and the refresh built on it. The two agree whenever every
 request succeeds.
 */
module Refresh {
  import opened Wrappers
  import opened Metrics
  import opened Insights
  import opened Report

  /** `fetch_facebook_data` as written: nothing without credentials,
      otherwise the insights counters, all zero after a failed request. */
  function FetchAsWritten(hasCredentials: bool, resp: Response): (r: Option<map<string, real>>)
    ensures r.Some? <==> hasCredentials
    ensures r.Some? && resp.Failed? ==> r.value == AsRawMap(Empty)
    ensures r.Some? && resp.Received? ==> r.value == AsRawMap(GetInsights(resp))
  {
    if hasCredentials then Some(AsRawMap(GetInsights(resp))) else None
  }

  /** Corrected fetch, the one the update loop's warning branch expects:
      nothing without credentials or after a failed request, otherwise the
      counters. */
  function FetchIntended(hasCredentials: bool, resp: Response): (r: Option<map<string, real>>)
    ensures r.Some? <==> hasCredentials && resp.Received?
    ensures r.Some? ==> r.value == AsRawMap(GetInsights(resp))
  {
    if hasCredentials && resp.Received? then Some(AsRawMap(GetInsights(resp))) else None
  }

  /** One as-written fetch result per column, in column order. */
  function FetchAllAsWritten(hasCredentials: bool, responses: seq<Response>): (r: seq<Option<map<string, real>>>)
    ensures |r| == |responses|
    ensures forall i :: 0 <= i < |r| ==> r[i] == FetchAsWritten(hasCredentials, responses[i])
  {
    seq(|responses|, i requires 0 <= i < |responses| => FetchAsWritten(hasCredentials, responses[i]))
  }

  /** One corrected fetch result per column, in column order. */
  function FetchAllIntended(hasCredentials: bool, responses: seq<Response>): (r: seq<Option<map<string, real>>>)
    ensures |r| == |responses|
    ensures forall i :: 0 <= i < |r| ==> r[i] == FetchIntended(hasCredentials, responses[i])
  {
    seq(|responses|, i requires 0 <= i < |responses| => FetchIntended(hasCredentials, responses[i]))
  }

  /** `update_facebook_data_from_api` on the Facebook table as written,
      given each column's request outcome. */
  function RefreshTable(t: Table, hasCredentials: bool, responses: seq<Response>): (r: Table)
    requires Wellformed(t) && HasCounters(t) && |responses| == |t.columns|
    ensures Wellformed(r) && SameFrame(r, t) && r.metrics == t.metrics
  {
    ApiUpdate(t, FetchAllAsWritten(hasCredentials, responses))
  }

  /** Corrected refresh: the same update fed by the corrected fetch. */
  function RefreshIntended(t: Table, hasCredentials: bool, responses: seq<Response>): (r: Table)
    requires Wellformed(t) && HasCounters(t) && |responses| == |t.columns|
    ensures Wellformed(r) && SameFrame(r, t) && r.metrics == t.metrics
  {
    ApiUpdate(t, FetchAllIntended(hasCredentials, responses))
  }

  /** The correction only changes what happens after a failed request:
      when every request succeeds, both refreshes give the same table. */
  lemma {:induction false} RefreshAgreesWhenReceived(t: Table, hasCredentials: bool, responses: seq<Response>)
    requires Wellformed(t) && HasCounters(t) && |responses| == |t.columns|
    requires forall i :: 0 <= i < |responses| ==> responses[i].Received?
    ensures RefreshTable(t, hasCredentials, responses) == RefreshIntended(t, hasCredentials, responses)
  {
    var a, b := FetchAllAsWritten(hasCredentials, responses), FetchAllIntended(hasCredentials, responses);
    forall i | 0 <= i < |responses|
      ensures a[i] == b[i]
    {
      assert responses[i].Received?;
    }
    assert a == b;
  }

  /** As written: a failed request for a column (with no later column of
      the same name) overwrites every raw counter of that column with 0.0
      tagged as fetched, whatever was typed in before. */
  lemma {:induction false} FailedFetchZeroesCounters(t: Table, responses: seq<Response>, k: string, j: nat)
    requires Wellformed(t) && HasCounters(t) && |responses| == |t.columns|
    requires j < |t.columns| && k in RawKeys && responses[j].Failed?
    requires forall i :: j < i < |t.columns| ==> t.columns[i].name != t.columns[j].name
    ensures RefreshTable(t, true, responses).cells[k][t.columns[j].name] == Cell(0.0, Api)
  {
    var fetched := FetchAllAsWritten(true, responses);
    assert fetched[j] == Some(AsRawMap(Empty));
    FetchDeliversAll(Empty, k);
    EmptyIsZero(k);
    ApiUpdateCell(t, fetched, k, j);
  }

  /** Corrected: a column whose every request failed keeps all its cells. */
  lemma {:induction false} FailedFetchKeepsColumn(t: Table, responses: seq<Response>, k: string, c: string)
    requires Wellformed(t) && HasCounters(t) && |responses| == |t.columns|
    requires IsCell(t, k, c)
    requires forall i :: 0 <= i < |t.columns| && t.columns[i].name == c ==> responses[i].Failed?
    ensures RefreshIntended(t, true, responses).cells[k][c] == t.cells[k][c]
  {
    var fetched := FetchAllIntended(true, responses);
    forall i | 0 <= i < |t.columns| && t.columns[i].name == c
      ensures !Delivers(fetched[i], k, RawKeyOrder)
    {
      assert fetched[i] == FetchIntended(true, responses[i]);
    }
    ApiUpdateUntouched(t, fetched, k, c);
  }

  /** A received response for a column (with no later column of the same
      name) puts the day-summed counters it reports into that column,
      tagged as fetched. */
  lemma {:induction false} ReceivedFetchWritesTotals(t: Table, responses: seq<Response>, k: string, j: nat)
    requires Wellformed(t) && HasCounters(t) && |responses| == |t.columns|
    requires j < |t.columns| && k in RawKeys && responses[j].Received?
    requires forall i :: j < i < |t.columns| ==> t.columns[i].name != t.columns[j].name
    ensures RefreshTable(t, true, responses).cells[k][t.columns[j].name]
         == Cell(AsRawMap(GetInsights(responses[j]))[k], Api)
  {
    var fetched := FetchAllAsWritten(true, responses);
    assert fetched[j] == Some(AsRawMap(GetInsights(responses[j])));
    FetchDeliversAll(GetInsights(responses[j]), k);
    ApiUpdateCell(t, fetched, k, j);
  }

  /** Without credentials nothing is fetched and the table is unchanged. */
  lemma {:induction false} NoCredentialsNoChange(t: Table, responses: seq<Response>, k: string, c: string)
    requires Wellformed(t) && HasCounters(t) && |responses| == |t.columns|
    requires IsCell(t, k, c)
    ensures RefreshTable(t, false, responses).cells[k][c] == t.cells[k][c]
  {
    var fetched := FetchAllAsWritten(false, responses);
    forall i | 0 <= i < |t.columns| && t.columns[i].name == c
      ensures !Delivers(fetched[i], k, RawKeyOrder)
    {
      assert fetched[i] == None;
    }
    ApiUpdateUntouched(t, fetched, k, c);
  }
}
