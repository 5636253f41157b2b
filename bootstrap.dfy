/**
 * The self-injection bootstrap (SelfInjectThread): InitializeXamlDiagnosticsEx
 * succeeds at most once per calling thread, so every attempt runs on a fresh
 * thread with a fresh endpoint name "VisualDiagConnection<N>", for N = 1, 2, ...
 * up to 60 attempts, stopping at the first success. Both plugins carry the
 * same loop.
 */
module Bootstrap {
  import opened Xaml

  const MAX_ATTEMPTS: nat := 60
  const ENDPOINT_PREFIX: WString := "VisualDiagConnection"

  function DigitChar(d: nat): (c: char)
    requires d < 10
    ensures '0' <= c <= '9'
  {
    "0123456789"[d]
  }

  function DigitValue(c: char): nat {
    if '0' <= c <= '9' then (c as int - '0' as int) as nat else 0
  }

  /** wsprintfW's "%d" for a non-negative value. */
  function DecimalString(n: nat): (s: WString)
    ensures |s| >= 1
    ensures forall i :: 0 <= i < |s| ==> '0' <= s[i] <= '9'
  {
    if n < 10 then [DigitChar(n)] else DecimalString(n / 10) + [DigitChar(n % 10)]
  }

  /** Reads a string of decimal digits back as a number. */
  function ParseDecimal(s: WString): nat
    decreases |s|
  {
    if s == [] then 0 else ParseDecimal(s[..|s| - 1]) * 10 + DigitValue(s[|s| - 1])
  }

  lemma {:induction false} ParseDecimalString(n: nat)
    ensures ParseDecimal(DecimalString(n)) == n
  {
    var s := DecimalString(n);
    if n < 10 {
      assert s[..|s| - 1] == [];
    } else {
      assert s[..|s| - 1] == DecimalString(n / 10);
      ParseDecimalString(n / 10);
    }
  }

  /** The endpoint name of the attempt numbered `attempt`. */
  function EndpointName(attempt: nat): (name: WString)
    ensures |name| > |ENDPOINT_PREFIX| && name[..|ENDPOINT_PREFIX|] == ENDPOINT_PREFIX
    ensures name[|ENDPOINT_PREFIX|..] == DecimalString(attempt)
  {
    ENDPOINT_PREFIX + DecimalString(attempt)
  }

  /** Different attempts never reuse an endpoint name. */
  lemma EndpointNamesDistinct(a: nat, b: nat)
    ensures EndpointName(a) == EndpointName(b) ==> a == b
  {
    if EndpointName(a) == EndpointName(b) {
      var k := |ENDPOINT_PREFIX|;
      assert EndpointName(a)[k..] == DecimalString(a);
      assert EndpointName(b)[k..] == DecimalString(b);
      ParseDecimalString(a);
      ParseDecimalString(b);
    }
  }

  /** How one attempt went: the worker thread could not be created, or the call returned. */
  datatype Attempt = NoThread | Returned(succeeded: bool)

  predicate Succeeds(a: Attempt) {
    a.Returned? && a.succeeded
  }

  /** The endpoint names passed to InitializeXamlDiagnosticsEx over the given attempts. */
  function Calls(attempts: seq<Attempt>): seq<WString>
    decreases |attempts|
  {
    if attempts == [] then []
    else
      var n := |attempts|;
      Calls(attempts[..n - 1]) + (if attempts[n - 1].NoThread? then [] else [EndpointName(n)])
  }

  lemma CallsStep(outcomes: seq<Attempt>, m: nat)
    requires m < |outcomes|
    ensures Calls(outcomes[..m + 1])
      == Calls(outcomes[..m]) + (if outcomes[m].NoThread? then [] else [EndpointName(m + 1)])
  {
    assert outcomes[..m + 1][..m] == outcomes[..m];
  }

  /** Every call over a run of attempts names one of those attempts, and at most one call per attempt. */
  lemma {:induction false} CallsNameAttempts(attempts: seq<Attempt>)
    ensures |Calls(attempts)| <= |attempts|
    ensures forall i :: 0 <= i < |Calls(attempts)| ==>
      exists k :: 1 <= k <= |attempts| && Calls(attempts)[i] == EndpointName(k)
    decreases |attempts|
  {
    if attempts != [] {
      var n := |attempts|;
      CallsNameAttempts(attempts[..n - 1]);
      var prev := Calls(attempts[..n - 1]);
      forall i | 0 <= i < |Calls(attempts)|
        ensures exists k :: 1 <= k <= n && Calls(attempts)[i] == EndpointName(k)
      {
        if i < |prev| {
          assert Calls(attempts)[i] == prev[i];
          var k :| 1 <= k <= n - 1 && prev[i] == EndpointName(k);
        } else {
          assert Calls(attempts)[i] == EndpointName(n);
        }
      }
    }
  }

  /** No endpoint name is used twice. */
  lemma {:induction false} CallsDistinct(attempts: seq<Attempt>)
    ensures forall i, j :: 0 <= i < j < |Calls(attempts)| ==> Calls(attempts)[i] != Calls(attempts)[j]
    decreases |attempts|
  {
    if attempts != [] {
      var n := |attempts|;
      var prev := Calls(attempts[..n - 1]);
      CallsDistinct(attempts[..n - 1]);
      CallsNameAttempts(attempts[..n - 1]);
      forall i, j | 0 <= i < j < |Calls(attempts)|
        ensures Calls(attempts)[i] != Calls(attempts)[j]
      {
        if j >= |prev| {
          var k :| 1 <= k <= n - 1 && prev[i] == EndpointName(k);
          EndpointNamesDistinct(k, n);
        }
      }
    }
  }

  /** When every worker thread starts, the N-th call uses "VisualDiagConnection<N>". */
  lemma {:induction false} CallsNumbered(attempts: seq<Attempt>)
    requires forall i :: 0 <= i < |attempts| ==> attempts[i].Returned?
    ensures |Calls(attempts)| == |attempts|
    ensures forall i :: 0 <= i < |attempts| ==> Calls(attempts)[i] == EndpointName(i + 1)
    decreases |attempts|
  {
    if attempts != [] {
      CallsNumbered(attempts[..|attempts| - 1]);
    }
  }

  /**
   * One pass of the retry loop's body, for the attempt numbered made + 1: the
   * endpoint name is formatted, and when the worker thread starts it calls
   * InitializeXamlDiagnosticsEx with that name and reports the result.
   */
  method RunAttempt(outcomes: seq<Attempt>, made: nat, calls: seq<WString>) returns (after: seq<WString>, ok: bool)
    requires made < |outcomes| && calls == Calls(outcomes[..made])
    ensures after == Calls(outcomes[..made + 1])
    ensures ok <==> Succeeds(outcomes[made])
  {
    CallsStep(outcomes, made);
    var name := EndpointName(made + 1);
    after, ok := calls, false;
    if outcomes[made].Returned? {
      after := calls + [name];
      ok := outcomes[made].succeeded;
    }
  }

  /**
   * The retry loop. `resolved` says whether Windows.UI.Xaml.dll loaded and
   * exported InitializeXamlDiagnosticsEx; `outcomes[i]` is how attempt i + 1
   * would go. Returns whether registration succeeded, the endpoint names of
   * the calls made and the number of attempts made.
   */
  method SelfInjectThread(resolved: bool, outcomes: seq<Attempt>)
    returns (succeeded: bool, calls: seq<WString>, made: nat)
    requires |outcomes| >= MAX_ATTEMPTS
    ensures !resolved ==> !succeeded && calls == [] && made == 0
    ensures resolved ==> 1 <= made <= MAX_ATTEMPTS
    ensures calls == Calls(outcomes[..made])
    ensures forall i :: 0 <= i < made - 1 ==> !Succeeds(outcomes[i])
    ensures succeeded <==> made > 0 && Succeeds(outcomes[made - 1])
    ensures resolved && !succeeded ==> made == MAX_ATTEMPTS
  {
    succeeded, calls, made := false, [], 0;
    if !resolved {
      return;
    }
    while made < MAX_ATTEMPTS && !succeeded
      invariant made <= MAX_ATTEMPTS
      invariant calls == Calls(outcomes[..made])
      invariant forall i :: 0 <= i < made - 1 ==> !Succeeds(outcomes[i])
      invariant succeeded <==> made > 0 && Succeeds(outcomes[made - 1])
    {
      calls, succeeded := RunAttempt(outcomes, made, calls);
      made := made + 1;
    }
  }
}
