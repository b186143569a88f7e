/** The weather client of cities_weather.py (`get_weather`): one request per
    city ID, in order, each answer appended to three parallel columns, and the
    `dt` field of the last answer body returned as the batch timestamp.

    The HTTP exchange is an input: `responses[i]` is the answer to the request
    for `ids[i]`. An answer carries its status code and the fields of its JSON
    body that the client reads. */
module WeatherClient {
  import opened Wrappers
  import opened Seqs

  /** The status code the client treats as success. */
  const HttpOk: int := 200

  /** One HTTP answer: its status code, `weather[0].main`, `clouds.all`, and
      the body's `dt` field, which an error body need not carry. */
  datatype Response = Response(status: int, main: string, cloudsAll: int, dt: Option<int>)

  /** The console report for a failed request: the city ID and the status. */
  datatype Diagnostic = Diagnostic(cityId: int, status: int)

  /** Why the whole call raises instead of returning: no request was made, so
      the last body is unbound; or the last body has no `dt` key. */
  datatype WeatherError = NoResponse | MissingTimestamp

  /** The four values returned, in the source's order: cloud cover, weather
      description, weather main category, and the batch timestamp. */
  datatype WeatherBatch = WeatherBatch(
    cloudCov: seq<Option<int>>,
    weathDesc: seq<Option<string>>,
    weathMain: seq<Option<string>>,
    respTime: int)

  /** The main category recorded for one answer; absent unless it succeeded. */
  function MainOf(resp: Response): Option<string>
  {
    if resp.status == HttpOk then Some(resp.main) else None
  }

  /** The cloud cover recorded for one answer; absent unless it succeeded. */
  function CloudsOf(resp: Response): Option<int>
  {
    if resp.status == HttpOk then Some(resp.cloudsAll) else None
  }

  /** The timestamp returned: the `dt` of the last body processed, whatever
      its status. */
  function LastTimestamp(responses: seq<Response>): Result<int, WeatherError>
  {
    if |responses| == 0 then Failure(NoResponse)
    else match responses[|responses| - 1].dt
      case None => Failure(MissingTimestamp)
      case Some(t) => Success(t)
  }

  /** What a call of `get_weather` yields for these answers. It returns
      exactly when some request was made and the last body has a `dt`, and
      then the timestamp is that `dt`, whether or not the last request
      succeeded. Position i of every column answers the i-th request: a failed
      request leaves the absent marker in all three columns, a successful one
      puts `weather[0].main` in both text columns (the description column is
      filled from the main category, as the source does) and `clouds.all` in
      the cloud column. */
  function WeatherOf(responses: seq<Response>): (r: Result<WeatherBatch, WeatherError>)
    ensures r.Success? <==> |responses| > 0 && responses[|responses| - 1].dt.Some?
    ensures |responses| == 0 ==> r == Failure(NoResponse)
    ensures |responses| > 0 && responses[|responses| - 1].dt.None? ==> r == Failure(MissingTimestamp)
    ensures r.Success? ==>
      && r.value.respTime == responses[|responses| - 1].dt.value
      && |r.value.cloudCov| == |responses| && |r.value.weathDesc| == |responses|
      && |r.value.weathMain| == |responses|
      && forall i :: 0 <= i < |responses| ==>
        if responses[i].status == HttpOk then
          r.value.weathMain[i] == Some(responses[i].main) &&
          r.value.weathDesc[i] == Some(responses[i].main) &&
          r.value.cloudCov[i] == Some(responses[i].cloudsAll)
        else
          r.value.weathMain[i] == None && r.value.weathDesc[i] == None && r.value.cloudCov[i] == None
  {
    match LastTimestamp(responses)
    case Failure(e) => Failure(e)
    case Success(t) =>
      Success(WeatherBatch(CloudColumn(responses), MainColumn(responses), MainColumn(responses), t))
  }

  /** The main-category column: one entry per answer, in request order. */
  function MainColumn(responses: seq<Response>): seq<Option<string>>
  {
    seq(|responses|, i requires 0 <= i < |responses| => MainOf(responses[i]))
  }

  /** The cloud-cover column: one entry per answer, in request order. */
  function CloudColumn(responses: seq<Response>): seq<Option<int>>
  {
    seq(|responses|, i requires 0 <= i < |responses| => CloudsOf(responses[i]))
  }

  /** The diagnostics printed, in request order: one per failed request. */
  function Diagnostics(ids: seq<int>, responses: seq<Response>): seq<Diagnostic>
    requires |ids| == |responses|
  {
    if |ids| == 0 then []
    else
      var n := |ids| - 1;
      Diagnostics(ids[..n], responses[..n]) +
        (if responses[n].status == HttpOk then [] else [Diagnostic(ids[n], responses[n].status)])
  }

  /** The loop of `get_weather`: each pass appends one entry to each column
      and overwrites the last body. The call raises (a Failure) when there was
      no pass or the last body lacks `dt`; the diagnostics are printed before
      that, so `log` is produced in every case. The first clauses say of the
      method's own result what `WeatherOf` promises; the last two tie the
      result and the log to their specification functions. */
  method GetWeather(ids: seq<int>, responses: seq<Response>)
    returns (r: Result<WeatherBatch, WeatherError>, log: seq<Diagnostic>)
    requires |responses| == |ids|
    ensures r.Success? <==> |ids| > 0 && responses[|ids| - 1].dt.Some?
    ensures |ids| == 0 ==> r == Failure(NoResponse)
    ensures |ids| > 0 && responses[|ids| - 1].dt.None? ==> r == Failure(MissingTimestamp)
    ensures r.Success? ==>
      && r.value.respTime == responses[|ids| - 1].dt.value
      && |r.value.cloudCov| == |ids| && |r.value.weathDesc| == |ids| && |r.value.weathMain| == |ids|
      && forall i :: 0 <= i < |ids| ==>
        if responses[i].status == HttpOk then
          r.value.weathMain[i] == Some(responses[i].main) &&
          r.value.weathDesc[i] == Some(responses[i].main) &&
          r.value.cloudCov[i] == Some(responses[i].cloudsAll)
        else
          r.value.weathMain[i] == None && r.value.weathDesc[i] == None && r.value.cloudCov[i] == None
    ensures r == WeatherOf(responses)
    ensures log == Diagnostics(ids, responses)
  {
    var weathMain: seq<Option<string>> := [];
    var weathDesc: seq<Option<string>> := [];
    var cloudCov: seq<Option<int>> := [];
    var respJ: Option<Response> := None;
    log := [];
    var k := 0;
    while k < |ids|
      invariant 0 <= k <= |ids|
      invariant |weathMain| == |weathDesc| == |cloudCov| == k
      invariant forall j :: 0 <= j < k ==> weathMain[j] == MainOf(responses[j])
      invariant forall j :: 0 <= j < k ==> weathDesc[j] == MainOf(responses[j])
      invariant forall j :: 0 <= j < k ==> cloudCov[j] == CloudsOf(responses[j])
      invariant respJ == if k == 0 then None else Some(responses[k - 1])
      invariant log == Diagnostics(ids[..k], responses[..k])
    {
      var response := responses[k];
      respJ := Some(response);
      if response.status == HttpOk {
        weathMain := weathMain + [Some(response.main)];
        weathDesc := weathDesc + [Some(response.main)];
        cloudCov := cloudCov + [Some(response.cloudsAll)];
      } else {
        log := log + [Diagnostic(ids[k], response.status)];
        weathMain := weathMain + [None];
        weathDesc := weathDesc + [None];
        cloudCov := cloudCov + [None];
      }
      assert ids[..k + 1][..k] == ids[..k];
      assert responses[..k + 1][..k] == responses[..k];
      k := k + 1;
    }
    assert ids[..k] == ids && responses[..k] == responses;
    assert weathMain == MainColumn(responses) && weathDesc == MainColumn(responses);
    assert cloudCov == CloudColumn(responses);
    match respJ {
      case None =>
        r := Failure(NoResponse);
      case Some(last) =>
        match last.dt {
          case None => r := Failure(MissingTimestamp);
          case Some(t) => r := Success(WeatherBatch(cloudCov, weathDesc, weathMain, t));
        }
    }
  }

  /** The (city ID, status) pair of every request, in request order. */
  function StatusReports(ids: seq<int>, responses: seq<Response>): seq<Diagnostic>
    requires |ids| == |responses|
  {
    seq(|ids|, i requires 0 <= i < |ids| => Diagnostic(ids[i], responses[i].status))
  }

  /** The pair reports a failed request. */
  predicate Failed(d: Diagnostic)
  {
    d.status != HttpOk
  }

  /** A diagnostic is printed for exactly the failed requests, one for each,
      in request order. */
  lemma {:induction false} DiagnosticsReportFailures(ids: seq<int>, responses: seq<Response>)
    requires |ids| == |responses|
    ensures forall d :: d in Diagnostics(ids, responses) <==>
      exists i :: 0 <= i < |ids| && responses[i].status != HttpOk &&
        d == Diagnostic(ids[i], responses[i].status)
    ensures |Diagnostics(ids, responses)| == FailureCount(responses)
    ensures Diagnostics(ids, responses) == Filter(Failed, StatusReports(ids, responses))
  {
    if |ids| > 0 {
      var n := |ids| - 1;
      DiagnosticsReportFailures(ids[..n], responses[..n]);
      assert StatusReports(ids, responses) ==
        StatusReports(ids[..n], responses[..n]) + [Diagnostic(ids[n], responses[n].status)];
      FilterAppend(Failed, StatusReports(ids[..n], responses[..n]), Diagnostic(ids[n], responses[n].status));
      forall d ensures d in Diagnostics(ids, responses) <==>
        exists i :: 0 <= i < |ids| && responses[i].status != HttpOk &&
          d == Diagnostic(ids[i], responses[i].status)
      {
        if d in Diagnostics(ids[..n], responses[..n]) {
          var i :| 0 <= i < n && responses[..n][i].status != HttpOk &&
            d == Diagnostic(ids[..n][i], responses[..n][i].status);
          assert responses[i].status != HttpOk && d == Diagnostic(ids[i], responses[i].status);
        }
        if exists i :: 0 <= i < |ids| && responses[i].status != HttpOk && d == Diagnostic(ids[i], responses[i].status) {
          var i :| 0 <= i < |ids| && responses[i].status != HttpOk &&
            d == Diagnostic(ids[i], responses[i].status);
          if i < n {
            assert responses[..n][i] == responses[i] && ids[..n][i] == ids[i];
          }
        }
      }
    }
  }

  /** The number of failed requests. */
  function FailureCount(responses: seq<Response>): nat
  {
    if |responses| == 0 then 0
    else
      var n := |responses| - 1;
      FailureCount(responses[..n]) + (if responses[n].status == HttpOk then 0 else 1)
  }
}
