/** The mapping from HTTP client events to what the upload page shows,
    inside `uploadVideoWithProgress`: upload progress becomes a percentage,
    the final response becomes the server's answer, anything else a zero
    progress record. */
module UploadProgress {
  import opened Wrappers
  import opened Contracts

  /** The kinds of `HttpEvent` the client can emit; `total` is absent when
      the browser does not know the size. */
  datatype HttpEvent =
    | Sent
    | UploadProgress(loaded: nat, total: Option<nat>)
    | ResponseHeader
    | DownloadProgress(loaded: nat, total: Option<nat>)
    | Response(body: VideoUploadResult)
    | User

  datatype Progress = Progress(loaded: int, total: int, percentage: int)

  /** What the stream emits per event. */
  datatype Update = ProgressUpdate(progress: Progress) | Finished(result: VideoUploadResult)

  /** `Math.round`: to the nearest integer, halves upwards. */
  function JsRound(x: real): (n: int)
    ensures n as real - 0.5 <= x < n as real + 0.5
  {
    (x + 0.5).Floor
  }

  /** A total counts only when present and non-zero (JavaScript truthiness). */
  predicate Truthy(total: Option<nat>) {
    total.Some? && total.value != 0
  }

  function Percentage(loaded: nat, total: nat): int
    requires total > 0
  {
    JsRound(100.0 * loaded as real / total as real)
  }

  /** The `map` over the event stream. */
  function ToUpdate(event: HttpEvent): (u: Update)
    ensures event.Response? <==> u.Finished?
    ensures event.Response? ==> u.result == event.body
    ensures event.UploadProgress? ==> u.progress.loaded == event.loaded
    ensures event.UploadProgress? && Truthy(event.total) ==>
              && u.progress.total == event.total.value
              && (u.progress.percentage as real - 0.5) * (event.total.value as real) <= 100.0 * (event.loaded as real)
              && 100.0 * (event.loaded as real) < (u.progress.percentage as real + 0.5) * (event.total.value as real)
    ensures event.UploadProgress? && !Truthy(event.total) ==> u.progress == Progress(event.loaded, event.loaded, 0)
    ensures !event.UploadProgress? && !event.Response? ==> u == ProgressUpdate(Progress(0, 0, 0))
  {
    match event
    case UploadProgress(loaded, total) =>
      if Truthy(total) then
        var pct := Percentage(loaded, total.value);
        ScaledRounding(loaded, total.value);
        ProgressUpdate(Progress(loaded, total.value, pct))
      else ProgressUpdate(Progress(loaded, loaded, 0))
    case Response(body) => Finished(body)
    case _ => ProgressUpdate(Progress(0, 0, 0))
  }

  /** The rounding bound of `Percentage`, cleared of the division. */
  lemma {:induction false} ScaledRounding(loaded: nat, total: nat)
    requires total > 0
    ensures var pct := Percentage(loaded, total);
            && (pct as real - 0.5) * (total as real) <= 100.0 * (loaded as real)
            && 100.0 * (loaded as real) < (pct as real + 0.5) * (total as real)
  {
    var t := total as real;
    var l := 100.0 * (loaded as real);
    var x := l / t;
    assert x * t == l;
    BoundTimes(x, l, t, Percentage(loaded, total));
  }

  /** A rounding bound on a quotient, multiplied back out. */
  lemma {:induction false} BoundTimes(x: real, l: real, t: real, n: int)
    requires t > 0.0 && x * t == l
    requires n as real - 0.5 <= x < n as real + 0.5
    ensures (n as real - 0.5) * t <= l < (n as real + 0.5) * t
  {
    MulLe(n as real - 0.5, x, t);
    MulLt(x, n as real + 0.5, t);
  }

  lemma {:induction false} MulLe(a: real, b: real, c: real)
    requires a <= b && c > 0.0
    ensures a * c <= b * c
  {
  }

  lemma {:induction false} MulLt(a: real, b: real, c: real)
    requires a < b && c > 0.0
    ensures a * c < b * c
  {
  }

  /** While the upload is in progress the percentage stays within 0..100,
      and a finished upload shows exactly 100. */
  lemma {:induction false} PercentageBounds(loaded: nat, total: nat)
    requires 0 < total && loaded <= total
    ensures 0 <= Percentage(loaded, total) <= 100
    ensures loaded == total ==> Percentage(loaded, total) == 100
  {
    var x := 100.0 * loaded as real / total as real;
    assert x * total as real == 100.0 * loaded as real;
    if x > 100.0 {
      MulLt(100.0, x, total as real);
    }
    if x < 0.0 {
      MulLt(x, 0.0, total as real);
    }
    assert 0.0 <= x <= 100.0;
    if loaded == total {
      assert x == 100.0 * total as real / total as real;
      assert x == 100.0;
      assert JsRound(100.0) == 100;
    }
  }

  /** More bytes sent never shows a smaller percentage. */
  lemma {:induction false} PercentageMonotone(a: nat, b: nat, total: nat)
    requires 0 < total && a <= b
    ensures Percentage(a, total) <= Percentage(b, total)
  {
    var x := 100.0 * a as real / total as real;
    var y := 100.0 * b as real / total as real;
    assert x * total as real == 100.0 * a as real;
    assert y * total as real == 100.0 * b as real;
    if x > y {
      MulLt(y, x, total as real);
    }
  }
}
