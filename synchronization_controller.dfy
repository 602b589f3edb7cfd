/**
 * The manual full synchronisation of Controllers/SynchronizationController.cs:
 * authentication, then the three phases in a fixed order, each reading both
 * registries afresh. The add phase has no handler of its own, so a failure
 * while reading for it ends the action with 500; the other two phases catch
 * their failures and answer a fixed summary.
 */
module SynchronizationController {
  import opened Collections
  import opened Records
  import opened Snapshots
  import opened Phases

  /** The `phases` object of the response. */
  datatype FullReport = FullReport(toEkialis: AddSummary, characteristics: CharSummary, marking: MarkSummary)

  /** What the characteristic phase answers when its body raises. */
  const CharacteristicsFailed: CharSummary := CharSummary(0, 0, 0, 1)

  /** What the marking phase answers when its body raises. */
  const MarkingFailed: MarkSummary := MarkSummary(0, 0, 0, 0, 1)

  /** Phase 1; `None` is the exception that escapes to the action's handler. */
  method SynchroniserVersEkialis(f: Fetch, accept: nat -> bool) returns (result: Option<AddSummary>, calls: seq<Call>)
    ensures f.FetchRaised? ==> result == None && calls == []
    ensures f.Fetched? ==>
              && result == Some(ToEkialisCounters(f.components, f.items, accept))
              && AddsListed(MissingInEkialis(f.components, f.items), calls)
  {
    if f.FetchRaised? {
      return None, [];
    }
    var summary;
    summary, calls := AddMissingToEkialis(f.components, f.items, accept);
    result := Some(summary);
  }

  /** Phase 2. */
  method SynchroniserCaracteristiques(f: Fetch, accept: nat -> bool) returns (summary: CharSummary, calls: seq<Call>)
    ensures f.FetchRaised? ==> summary == CharacteristicsFailed && calls == []
    ensures f.Fetched? ==>
              var ek := EkialisRegistry(f.components); var sp := SharePointRegistry(f.items);
              && multiset(calls) == multiset(Planned(ek, sp))
              && summary == CharCounters(ek, sp, calls, accept)
  {
    if f.FetchRaised? {
      return CharacteristicsFailed, [];
    }
    var order;
    summary, order, calls := SyncCharacteristics(f.components, f.items, accept);
  }

  /** Phase 3. */
  method MarquerObsoletesRouge(f: Fetch, accept: nat -> bool) returns (summary: MarkSummary, calls: seq<Call>)
    ensures f.FetchRaised? ==> summary == MarkingFailed && calls == []
    ensures f.Fetched? ==>
              calls == ColorCalls(Obsolete(f.components, f.items)) && summary == MarkCounters(f.components, f.items, accept)
  {
    if f.FetchRaised? {
      return MarkingFailed, [];
    }
    summary, calls := MarkObsoleteRed(f.components, f.items, accept);
  }

  /**
   * The action. `authenticated` is the answer of the Ekialis login, `f1`,
   * `f2`, `f3` what each phase reads, `a1`, `a2`, `a3` the answers to each
   * phase's remote writes. The calls of the three phases are issued in phase
   * order: `calls == adds + writes + paints`.
   */
  method SynchronisationComplete(authenticated: bool, f1: Fetch, f2: Fetch, f3: Fetch,
                                 a1: nat -> bool, a2: nat -> bool, a3: nat -> bool)
    returns (answer: Answer<FullReport>, calls: seq<Call>, ghost adds: seq<Call>, ghost writes: seq<Call>, ghost paints: seq<Call>)
    ensures !authenticated ==> answer == Unauthorized && calls == []
    ensures authenticated && f1.FetchRaised? ==> answer == ServerError && calls == []
    ensures authenticated && f1.Fetched? ==>
              && answer.Ok?
              && calls == adds + writes + paints
              && answer.body.toEkialis == ToEkialisCounters(f1.components, f1.items, a1)
              && AddsListed(MissingInEkialis(f1.components, f1.items), adds)
              && (f2.FetchRaised? ==> answer.body.characteristics == CharacteristicsFailed && writes == [])
              && (f2.Fetched? ==>
                    multiset(writes) == multiset(Planned(EkialisRegistry(f2.components), SharePointRegistry(f2.items)))
                    && answer.body.characteristics == CharCounters(EkialisRegistry(f2.components), SharePointRegistry(f2.items), writes, a2))
              && (f3.FetchRaised? ==> answer.body.marking == MarkingFailed && paints == [])
              && (f3.Fetched? ==>
                    paints == ColorCalls(Obsolete(f3.components, f3.items))
                    && answer.body.marking == MarkCounters(f3.components, f3.items, a3))
  {
    adds, writes, paints := [], [], [];
    if !authenticated {
      return Unauthorized, [], adds, writes, paints;
    }
    var toEkialisResult, a := SynchroniserVersEkialis(f1, a1);
    adds := a;
    if toEkialisResult.None? {
      return ServerError, [], [], [], [];
    }
    var caracteristiquesResult, w := SynchroniserCaracteristiques(f2, a2);
    var marquageResult, p := MarquerObsoletesRouge(f3, a3);
    writes, paints := w, p;
    calls := a + w + p;
    answer := Ok(FullReport(toEkialisResult.value, caracteristiquesResult, marquageResult));
  }
}
