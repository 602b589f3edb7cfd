/**
 * Services/SynchronizationBackgroundService.cs: the hourly run loop and the
 * pass it runs. A pass authenticates, adds the missing software to Ekialis,
 * runs the characteristic phase (a stub that always answers zero) and paints
 * the obsolete software red. Each phase catches its own failures and the pass
 * body catches everything else, so only the creation of the service scope
 * can make a pass end with an exception.
 */
module BackgroundService {
  import opened Text
  import opened Collections
  import opened Records
  import opened Snapshots
  import opened Phases

  /** The `(reussis, echecs)` tuple of the add and marking phases. */
  datatype Counts = Counts(succeeded: nat, failed: nat)

  /** The answer of the add or the marking phase when it raises. */
  const PhaseFailed: Counts := Counts(0, 1)

  /** Phase 1: the manual add, answering only its two counters, and `(0, 1)` when it raises. */
  method SynchroniserVersEkialis(f: Fetch, accept: nat -> bool) returns (counts: Counts, calls: seq<Call>)
    ensures f.FetchRaised? ==> counts == PhaseFailed && calls == []
    ensures f.Fetched? ==>
              && AddsListed(MissingInEkialis(f.components, f.items), calls)
              && counts.succeeded == ToEkialisCounters(f.components, f.items, accept).succeeded
              && counts.failed == ToEkialisCounters(f.components, f.items, accept).failed
    ensures f.Fetched? ==> counts.succeeded + counts.failed == |MissingInEkialis(f.components, f.items)|
  {
    if f.FetchRaised? {
      return PhaseFailed, [];
    }
    var summary;
    summary, calls := AddMissingToEkialis(f.components, f.items, accept);
    counts := Counts(summary.succeeded, summary.failed);
  }

  /**
   * Phase 2 is a stub: it reads nothing, calls nothing and answers
   * `(0, 0, 0)`. Its handler, which would answer `(0, 0, 1)`, cannot be reached.
   */
  method SynchroniserCaracteristiques() returns (tally: Tally, calls: seq<Call>)
    ensures tally == Tally(0, 0, 0) && calls == []
  {
    return Tally(0, 0, 0), [];
  }

  /**
   * The obsolete list of the background marking phase, built in a single loop
   * that tests the SharePoint names while it reads the components.
   */
  method CollectObsolete(comps: seq<EkComponent>, spNames: set<string>) returns (list: seq<EkSoftware>)
    ensures list == Filter(EkialisSoftware(comps), ObsoleteIn(spNames))
  {
    list := [];
    for i := 0 to |comps|
      invariant list == Filter(EkialisSoftware(comps[..i]), ObsoleteIn(spNames))
    {
      var c := comps[i];
      EkialisSoftwareSnoc(comps, i);
      if c.classId != "1" {
        assert EkialisSoftware(comps[..i + 1]) == EkialisSoftware(comps[..i]);
        continue;
      }
      var name := Trim(c.name);
      if c.id > 0 && name != [] {
        FilterSnoc(EkialisSoftware(comps[..i]), EkSoftware(c.id, name, c.color), ObsoleteIn(spNames));
        if ToLower(name) !in spNames {
          list := list + [EkSoftware(c.id, name, c.color)];
        }
      } else {
        assert EkialisSoftware(comps[..i + 1]) == EkialisSoftware(comps[..i]);
      }
    }
    assert comps[..|comps|] == comps;
  }

  /** Phase 3: the obsolete software is painted red; `(0, 1)` when it raises. */
  method MarquerObsoletesRouge(f: Fetch, accept: nat -> bool) returns (counts: Counts, calls: seq<Call>)
    ensures f.FetchRaised? ==> counts == PhaseFailed && calls == []
    ensures f.Fetched? ==>
              && calls == ColorCalls(Obsolete(f.components, f.items))
              && counts.succeeded == MarkCounters(f.components, f.items, accept).succeeded
              && counts.failed == MarkCounters(f.components, f.items, accept).failed
    ensures f.Fetched? ==> counts.succeeded + counts.failed == |Obsolete(f.components, f.items)|
  {
    if f.FetchRaised? {
      return PhaseFailed, [];
    }
    var nomsSharePoint := SharePointNames(f.items);
    var logicielsObsoletes := CollectObsolete(f.components, nomsSharePoint);
    var reussis, echecs;
    reussis, echecs, calls := PaintRed(logicielsObsoletes, accept);
    counts := Counts(reussis, echecs);
  }

  /** The add calls for a list of missing items: one per item, in order, under its raw Title. */
  function AddCalls(missing: seq<SpItem>): (r: seq<Call>)
    ensures AddsListed(missing, r)
  {
    seq(|missing|, k requires 0 <= k < |missing| => AddEkialisItem(RawTitle(missing[k]), missing[k]))
  }

  /** The add calls of a phase are determined by its missing items. */
  lemma AddsListedDetermined(missing: seq<SpItem>, calls: seq<Call>)
    requires AddsListed(missing, calls)
    ensures calls == AddCalls(missing)
  {
  }

  /**
   * The remote writes of one pass: none without a scope or a login;
   * otherwise the adds of the missing items, then the colour calls of the
   * obsolete software, each phase writing nothing when its read raises.
   */
  function PassCalls(scopeCreated: bool, authenticated: bool, f1: Fetch, f3: Fetch): seq<Call> {
    if !scopeCreated || !authenticated then []
    else
      (if f1.Fetched? then AddCalls(MissingInEkialis(f1.components, f1.items)) else [])
      + (if f3.Fetched? then ColorCalls(Obsolete(f3.components, f3.items)) else [])
  }

  /** How a pass ends: normally, or with an exception escaping it. */
  datatype PassOutcome = Returned | Escaped

  /** What one pass logs: the counters of its three phases, or an authentication failure. */
  datatype PassReport = NotAuthenticated | Report(toEkialis: Counts, characteristics: Tally, marking: Counts) | NoReport

  /**
   * One pass. `scopeCreated` says whether the service scope could be built,
   * `authenticated` is the answer of the Ekialis login, `f1` and `f3` what the
   * add and the marking phases read, `a1` and `a3` the answers to their writes.
   */
  method PerformSynchronization(scopeCreated: bool, authenticated: bool, f1: Fetch, f3: Fetch,
                                a1: nat -> bool, a3: nat -> bool)
    returns (outcome: PassOutcome, report: PassReport, calls: seq<Call>, ghost adds: seq<Call>, ghost paints: seq<Call>)
    ensures outcome == (if scopeCreated then Returned else Escaped)
    ensures !scopeCreated ==> report == NoReport && calls == []
    ensures scopeCreated && !authenticated ==> report == NotAuthenticated && calls == []
    ensures scopeCreated && authenticated ==>
              && report.Report?
              && report.characteristics == Tally(0, 0, 0)
              && calls == adds + paints
              && (f1.FetchRaised? ==> report.toEkialis == PhaseFailed && adds == [])
              && (f1.Fetched? ==> AddsListed(MissingInEkialis(f1.components, f1.items), adds)
                                  && report.toEkialis.succeeded + report.toEkialis.failed == |MissingInEkialis(f1.components, f1.items)|)
              && (f3.FetchRaised? ==> report.marking == PhaseFailed && paints == [])
              && (f3.Fetched? ==> paints == ColorCalls(Obsolete(f3.components, f3.items))
                                  && report.marking.succeeded + report.marking.failed == |Obsolete(f3.components, f3.items)|)
    ensures calls == PassCalls(scopeCreated, authenticated, f1, f3)
  {
    adds, paints := [], [];
    if !scopeCreated {
      return Escaped, NoReport, [], adds, paints;
    }
    if !authenticated {
      return Returned, NotAuthenticated, [], adds, paints;
    }
    report, calls, adds, paints := RunPhases(f1, f3, a1, a3);
    if f1.Fetched? {
      AddsListedDetermined(MissingInEkialis(f1.components, f1.items), adds);
    }
    outcome := Returned;
  }

  /** The three phases of an authenticated pass, in order. */
  method RunPhases(f1: Fetch, f3: Fetch, a1: nat -> bool, a3: nat -> bool)
    returns (report: PassReport, calls: seq<Call>, ghost adds: seq<Call>, ghost paints: seq<Call>)
    ensures report.Report? && report.characteristics == Tally(0, 0, 0)
    ensures calls == adds + paints
    ensures f1.FetchRaised? ==> report.toEkialis == PhaseFailed && adds == []
    ensures f1.Fetched? ==> AddsListed(MissingInEkialis(f1.components, f1.items), adds)
                            && report.toEkialis.succeeded + report.toEkialis.failed == |MissingInEkialis(f1.components, f1.items)|
    ensures f3.FetchRaised? ==> report.marking == PhaseFailed && paints == []
    ensures f3.Fetched? ==> paints == ColorCalls(Obsolete(f3.components, f3.items))
                            && report.marking.succeeded + report.marking.failed == |Obsolete(f3.components, f3.items)|
  {
    var ajoutsEkialis, c1 := SynchroniserVersEkialis(f1, a1);
    var miseAJour, c2 := SynchroniserCaracteristiques();
    var marquage, c3 := MarquerObsoletesRouge(f3, a3);
    adds, paints := c1, c3;
    calls := c1 + c3;
    report := Report(ajoutsEkialis, miseAJour, marquage);
  }

  /** The wait, in minutes, after a pass: one hour after a normal end, ten minutes after an exception. */
  function NextDelay(outcome: PassOutcome): (minutes: nat)
    ensures outcome.Returned? <==> minutes == 60
    ensures outcome.Escaped? <==> minutes == 10
  {
    match outcome
    case Returned => 60
    case Escaped => 10
  }

  /** The remote writes of the first `n` passes, pass after pass. */
  function AllCalls(n: nat, scope: nat -> bool, auth: nat -> bool, f1: nat -> Fetch, f3: nat -> Fetch): seq<Call> {
    if n == 0 then []
    else AllCalls(n - 1, scope, auth, f1, f3) + PassCalls(scope(n - 1), auth(n - 1), f1(n - 1), f3(n - 1))
  }

  /** The writes of `n + 1` passes: those of `n` passes, then those of pass `n`. */
  lemma AllCallsStep(n: nat, scope: nat -> bool, auth: nat -> bool, f1: nat -> Fetch, f3: nat -> Fetch, c: seq<Call>)
    requires c == PassCalls(scope(n), auth(n), f1(n), f3(n))
    ensures AllCalls(n + 1, scope, auth, f1, f3) == AllCalls(n, scope, auth, f1, f3) + c
  {
  }

  /** The writes of earlier passes come first: those of `n` passes begin the writes of `m >= n` passes. */
  lemma {:induction false} EarlierPassesFirst(n: nat, m: nat, scope: nat -> bool, auth: nat -> bool,
                                              f1: nat -> Fetch, f3: nat -> Fetch)
    requires n <= m
    ensures AllCalls(n, scope, auth, f1, f3) <= AllCalls(m, scope, auth, f1, f3)
    decreases m - n
  {
    if n < m {
      EarlierPassesFirst(n, m - 1, scope, auth, f1, f3);
    }
  }

  /** Passes that cannot build their scope or log in write nothing. */
  lemma {:induction false} NoLoginNoWrite(n: nat, scope: nat -> bool, auth: nat -> bool, f1: nat -> Fetch, f3: nat -> Fetch)
    requires forall k :: 0 <= k < n ==> !scope(k) || !auth(k)
    ensures AllCalls(n, scope, auth, f1, f3) == []
  {
    if n > 0 {
      NoLoginNoWrite(n - 1, scope, auth, f1, f3);
    }
  }

  /** One pass, as the run loop sees it: how it ends and what it writes. */
  method RunPass(scopeCreated: bool, authenticated: bool, f1: Fetch, f3: Fetch, a1: nat -> bool, a3: nat -> bool)
    returns (outcome: PassOutcome, calls: seq<Call>)
    ensures outcome == (if scopeCreated then Returned else Escaped)
    ensures calls == PassCalls(scopeCreated, authenticated, f1, f3)
  {
    var report;
    ghost var adds, paints;
    outcome, report, calls, adds, paints := PerformSynchronization(scopeCreated, authenticated, f1, f3, a1, a3);
  }

  /** One turn of the run loop: the pass's outcome and the wait it asks for. */
  datatype Turn = Turn(outcome: PassOutcome, delay: nat)

  /** The turn of a pass: it returns, and waits an hour, exactly when its scope is built; otherwise it escapes and waits ten minutes. */
  function TurnOf(scopeCreated: bool): (t: Turn)
    ensures t.delay == NextDelay(t.outcome)
    ensures t.outcome.Returned? <==> scopeCreated
  {
    var outcome := if scopeCreated then Returned else Escaped;
    Turn(outcome, NextDelay(outcome))
  }

  /** Turn k of `turns` is the turn of pass k. */
  ghost predicate TurnsOf(turns: seq<Turn>, scope: nat -> bool) {
    forall k :: 0 <= k < |turns| ==> turns[k] == TurnOf(scope(k))
  }

  lemma TurnsStep(turns: seq<Turn>, scope: nat -> bool, t: Turn)
    requires TurnsOf(turns, scope) && t == TurnOf(scope(|turns|))
    ensures TurnsOf(turns + [t], scope)
  {
  }

  /** How the loop stops: the cancelled hourly wait is caught and breaks the loop; a cancelled retry wait raises out of it. */
  datatype Ending = Stopped | CancelledInRetry

  /** The passes of the run loop, each followed by its wait. */
  method RunPasses(stop: nat, scope: nat -> bool, auth: nat -> bool, f1: nat -> Fetch, f3: nat -> Fetch,
                   a1: nat -> nat -> bool, a3: nat -> nat -> bool)
    returns (turns: seq<Turn>, calls: seq<Call>)
    ensures |turns| == stop && TurnsOf(turns, scope)
    ensures calls == AllCalls(stop, scope, auth, f1, f3)
  {
    turns, calls := [], [];
    var passes := 0;
    while passes < stop
      invariant passes <= stop && |turns| == passes
      invariant TurnsOf(turns, scope)
      invariant calls == AllCalls(passes, scope, auth, f1, f3)
      decreases stop - passes
    {
      var outcome, c := RunPass(scope(passes), auth(passes), f1(passes), f3(passes), a1(passes), a3(passes));
      AllCallsStep(passes, scope, auth, f1, f3, c);
      calls := calls + c;
      var t := Turn(outcome, NextDelay(outcome));
      TurnsStep(turns, scope, t);
      turns := turns + [t];
      passes := passes + 1;
    }
  }

  /**
   * The run loop `ExecuteAsync`. Cancellation is requested once `stop`
   * passes have started: it is seen at the loop test, or cuts short the
   * wait that follows pass `stop - 1`. Pass k's inputs are `scope(k)`,
   * `auth(k)`, `f1(k)`, `f3(k)`, `a1(k)` and `a3(k)`; `calls` is every remote
   * write in order, pass after pass.
   */
  method ExecuteAsync(stop: nat, scope: nat -> bool, auth: nat -> bool, f1: nat -> Fetch, f3: nat -> Fetch,
                      a1: nat -> nat -> bool, a3: nat -> nat -> bool)
    returns (turns: seq<Turn>, ending: Ending, calls: seq<Call>)
    ensures |turns| == stop
    ensures forall k :: 0 <= k < stop ==> turns[k] == TurnOf(scope(k))
    ensures ending == (if stop > 0 && !scope(stop - 1) then CancelledInRetry else Stopped)
    ensures calls == AllCalls(stop, scope, auth, f1, f3)
  {
    turns, calls := RunPasses(stop, scope, auth, f1, f3, a1, a3);
    // the wait after the last pass is cut short by the cancellation
    if stop > 0 && turns[stop - 1].outcome == Escaped {
      ending := CancelledInRetry;
    } else {
      ending := Stopped;
    }
  }
}
