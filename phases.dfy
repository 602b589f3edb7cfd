/**
 * The convergence loops of the reconciliation engine, over the snapshots of
 * module Snapshots. Every remote write is answered by the oracle `accept`:
 * `accept(k)` is the success flag returned by the k-th remote call of the
 * phase (numbered from 0). Each loop returns the calls it made, in order,
 * and the counters of its response.
 */
module Phases {
  import opened Text
  import opened Collections
  import opened FieldMapping
  import opened Records
  import opened Snapshots

  // =========================================================== add to Ekialis

  /** The key an item is looked up by when deciding whether it is missing: its raw Title, lower-cased, NOT trimmed. */
  function TitleKey(item: SpItem): string {
    ToLower(RawTitle(item))
  }

  /** The `Where` predicate of "missing in Ekialis". */
  function NotInEkialis(names: set<string>): SpItem -> bool {
    (item: SpItem) => TitleKey(item) !in names
  }

  /** `logicielsManquants`: the SharePoint software whose raw lower-cased title is not an Ekialis name. */
  function MissingInEkialis(comps: seq<EkComponent>, items: seq<SpItem>): seq<SpItem> {
    Filter(SharePointSoftware(items), NotInEkialis(EkialisNames(comps)))
  }

  /** The counters of a transfer: the two totals, the number of missing entries, and the add outcomes. */
  datatype AddSummary = AddSummary(totalSharePoint: nat, totalEkialis: nat, missing: nat, succeeded: nat, failed: nat)

  /** The response of SharePoint -> Ekialis: every missing item is tried once, and each try succeeds or fails. */
  function ToEkialisCounters(comps: seq<EkComponent>, items: seq<SpItem>, accept: nat -> bool): (s: AddSummary)
    ensures s.missing == |MissingInEkialis(comps, items)| <= s.totalSharePoint
    ensures s.succeeded + s.failed == s.missing
  {
    var missing := MissingInEkialis(comps, items);
    AddSummary(|SharePointSoftware(items)|, |EkialisNames(comps)|, |missing|,
               Accepted(accept, |missing|), |missing| - Accepted(accept, |missing|))
  }

  /** `calls[k]` adds the item `missing[k]` under its raw Title, for every k. */
  ghost predicate AddsListed(missing: seq<SpItem>, calls: seq<Call>) {
    |calls| == |missing| &&
    forall k :: 0 <= k < |calls| ==> calls[k] == AddEkialisItem(RawTitle(missing[k]), missing[k])
  }

  lemma AddsStep(missing: seq<SpItem>, calls: seq<Call>, i: nat)
    requires i < |missing| && AddsListed(missing[..i], calls)
    ensures AddsListed(missing[..i + 1], calls + [AddEkialisItem(RawTitle(missing[i]), missing[i])])
  {
  }

  /**
   * SharePoint -> Ekialis: one `AddItemToEkialisAsync(Title, item)` per
   * missing item, in list order, with the counters of the response.
   */
  method AddMissingToEkialis(comps: seq<EkComponent>, items: seq<SpItem>, accept: nat -> bool)
    returns (summary: AddSummary, calls: seq<Call>)
    ensures AddsListed(MissingInEkialis(comps, items), calls)
    ensures summary == ToEkialisCounters(comps, items, accept)
  {
    var names := CollectEkialisNames(comps);
    var software := CollectSharePointSoftware(items);
    var missing := Filter(software, NotInEkialis(names));
    var ajoutsReussis, ajoutsEchecs;
    ajoutsReussis, ajoutsEchecs, calls := AddEachToEkialis(missing, accept);
    summary := AddSummary(|software|, |names|, |missing|, ajoutsReussis, ajoutsEchecs);
  }

  /** The loop of the transfer: each missing item is added in list order. */
  method AddEachToEkialis(missing: seq<SpItem>, accept: nat -> bool) returns (succeeded: nat, failed: nat, calls: seq<Call>)
    ensures AddsListed(missing, calls)
    ensures succeeded == Accepted(accept, |missing|) && failed == |missing| - succeeded
  {
    succeeded, failed := 0, 0;
    calls := [];
    for i := 0 to |missing|
      invariant AddsListed(missing[..i], calls)
      invariant succeeded == Accepted(accept, i) && failed == i - succeeded
    {
      var logiciel := missing[i];
      var nomLogiciel := RawTitle(logiciel);
      AddsStep(missing, calls, i);
      calls := calls + [AddEkialisItem(nomLogiciel, logiciel)];
      var success := accept(i);
      if success {
        succeeded := succeeded + 1;
      } else {
        failed := failed + 1;
      }
    }
    assert missing[..|missing|] == missing;
  }

  /** An item is missing exactly when it has a non-blank title whose raw lower case is not an Ekialis name. */
  lemma MissingInEkialisIff(comps: seq<EkComponent>, items: seq<SpItem>, item: SpItem)
    ensures item in MissingInEkialis(comps, items) <==>
              item in items && "Title" in item && !IsBlank(item["Title"])
              && ToLower(item["Title"]) !in EkialisNames(comps)
  {
    FilterMember(SharePointSoftware(items), NotInEkialis(EkialisNames(comps)), item);
    FilterMember(items, HasTitle, item);
    if "Title" in item {
      TrimMeaning(item["Title"]);
    }
  }

  /** Lower-casing keeps white space where it is. */
  lemma ToLowerKeepsEdges(s: string)
    requires s != []
    ensures IsWhiteSpace(ToLower(s)[0]) <==> IsWhiteSpace(s[0])
    ensures IsWhiteSpace(ToLower(s)[|s| - 1]) <==> IsWhiteSpace(s[|s| - 1])
  {
    ToLowerMeaning(s);
  }

  /**
   * A SharePoint title with white space at either end never matches an
   * Ekialis name, because names are trimmed and the title is not: such an
   * item is always reported missing, even when its trimmed form exists.
   */
  lemma PaddedTitleIsMissing(comps: seq<EkComponent>, items: seq<SpItem>, item: SpItem)
    requires item in items && "Title" in item && !IsBlank(item["Title"])
    requires IsWhiteSpace(item["Title"][0]) || IsWhiteSpace(item["Title"][|item["Title"]| - 1])
    ensures item in MissingInEkialis(comps, items)
  {
    var title := item["Title"];
    ToLowerKeepsEdges(title);
    var key := ToLower(title);
    if key in EkialisNames(comps) {
      var c :| c in comps && Named(c) && Normalize(c.name) == key;
      NormalizeMeaning(c.name);
      assert false;
    }
    MissingInEkialisIff(comps, items, item);
  }

  /** For a title without white space at its ends, the raw test agrees with the normalised one. */
  lemma TrimmedTitleIsComparedNormalised(comps: seq<EkComponent>, item: SpItem)
    requires "Title" in item && Trim(item["Title"]) == item["Title"]
    ensures TitleKey(item) == Normalize(item["Title"])
  {
  }

  // ===================================================== characteristics

  /** The Ekialis value must be written: it is absent, or differs (ordinally) from the SharePoint value. */
  predicate Needed(entry: EkEntry, ch: string, value: string) {
    ch !in entry.values || entry.values[ch].current != value
  }

  /** The call that writes a SharePoint value: an update when Ekialis has the characteristic, an add otherwise. */
  function ActionFor(key: string, entry: EkEntry, ch: string, value: string): (c: Call)
    ensures (c.UpdateCharacteristic? || c.AddCharacteristic?) && c.software == key && c.characteristic == ch
    ensures c.value == value && c.componentId == entry.componentId
  {
    if ch in entry.values then
      var v := entry.values[ch];
      UpdateCharacteristic(key, ch, v.valueId, value, entry.componentId, v.characteristicId)
    else
      AddCharacteristic(key, entry.componentId, ch, value)
  }

  /** The calls for the fields `chs` of the common key `key`. */
  function PlannedFields(ek: map<string, EkEntry>, sp: map<string, map<string, string>>, key: string, chs: set<string>): set<Call> {
    set ch | key in ek && key in sp && ch in chs && ch in sp[key] && Needed(ek[key], ch, sp[key][ch])
      :: ActionFor(key, ek[key], ch, sp[key][ch])
  }

  /** The calls for the common keys in `keys`. */
  function PlannedKeys(ek: map<string, EkEntry>, sp: map<string, map<string, string>>, keys: set<string>): set<Call> {
    set key, ch | key in keys && key in ek && key in sp && ch in sp[key] && Needed(ek[key], ch, sp[key][ch])
      :: ActionFor(key, ek[key], ch, sp[key][ch])
  }

  /** Every write the characteristic phase makes: one per SharePoint field of a common key whose Ekialis value must change. */
  function Planned(ek: map<string, EkEntry>, sp: map<string, map<string, string>>): set<Call> {
    PlannedKeys(ek, sp, ek.Keys * sp.Keys)
  }

  /** The counters of the characteristic phase. */
  datatype Tally = Tally(modified: nat, added: nat, errors: nat)

  /** The positions of the accepted calls that update an existing characteristic. */
  ghost function AcceptedUpdates(calls: seq<Call>, accept: nat -> bool): set<int> {
    set k | 0 <= k < |calls| && accept(k) && calls[k].UpdateCharacteristic?
  }

  /** The positions of the accepted calls that add a characteristic. */
  ghost function AcceptedAdds(calls: seq<Call>, accept: nat -> bool): set<int> {
    set k | 0 <= k < |calls| && accept(k) && !calls[k].UpdateCharacteristic?
  }

  /** One call more adds its own position to at most one of the two sets. */
  lemma AcceptedStep(calls: seq<Call>, accept: nat -> bool)
    requires calls != []
    ensures var k := |calls| - 1;
            |AcceptedUpdates(calls, accept)|
              == |AcceptedUpdates(calls[..k], accept)| + (if accept(k) && calls[k].UpdateCharacteristic? then 1 else 0)
    ensures var k := |calls| - 1;
            |AcceptedAdds(calls, accept)|
              == |AcceptedAdds(calls[..k], accept)| + (if accept(k) && !calls[k].UpdateCharacteristic? then 1 else 0)
  {
    var k := |calls| - 1;
    var u, a := AcceptedUpdates(calls[..k], accept), AcceptedAdds(calls[..k], accept);
    assert k !in u && k !in a;
    if accept(k) && calls[k].UpdateCharacteristic? {
      assert AcceptedUpdates(calls, accept) == u + {k};
    } else {
      assert AcceptedUpdates(calls, accept) == u;
    }
    if accept(k) && !calls[k].UpdateCharacteristic? {
      assert AcceptedAdds(calls, accept) == a + {k};
    } else {
      assert AcceptedAdds(calls, accept) == a;
    }
  }

  /**
   * `caracteristiquesModifiees`, `caracteristiquesAjoutees`, `erreurs` after the calls `calls`:
   * the accepted updates, the accepted adds and the refused calls.
   */
  function TallyOf(calls: seq<Call>, accept: nat -> bool): (t: Tally)
    ensures t.modified + t.added + t.errors == |calls|
    ensures t.modified + t.added == Accepted(accept, |calls|)
  {
    if calls == [] then Tally(0, 0, 0)
    else
      var k := |calls| - 1;
      var t := TallyOf(calls[..k], accept);
      if !accept(k) then t.(errors := t.errors + 1)
      else if calls[k].UpdateCharacteristic? then t.(modified := t.modified + 1)
      else t.(added := t.added + 1)
  }

  /** `caracteristiquesModifiees` counts the accepted updates and `caracteristiquesAjoutees` the accepted adds. */
  lemma {:induction false} TallySplit(calls: seq<Call>, accept: nat -> bool)
    ensures TallyOf(calls, accept).modified == |AcceptedUpdates(calls, accept)|
    ensures TallyOf(calls, accept).added == |AcceptedAdds(calls, accept)|
  {
    if calls != [] {
      TallySplit(calls[..|calls| - 1], accept);
      AcceptedStep(calls, accept);
    }
  }

  /** The response of the characteristic phase. */
  datatype CharSummary = CharSummary(common: nat, modified: nat, added: nat, errors: nat)

  /** The response after the writes `calls` to the common keys of `ek` and `sp`: every write is counted once. */
  function CharCounters(ek: map<string, EkEntry>, sp: map<string, map<string, string>>, calls: seq<Call>, accept: nat -> bool): (s: CharSummary)
    ensures s.common == |ek.Keys * sp.Keys|
    ensures s.modified + s.added + s.errors == |calls|
    ensures s.modified + s.added == Accepted(accept, |calls|)
  {
    var t := TallyOf(calls, accept);
    CharSummary(|ek.Keys * sp.Keys|, t.modified, t.added, t.errors)
  }

  /**
   * The response's split: the accepted updates are the modified characteristics,
   * the accepted adds the added ones, and the refused calls the errors.
   */
  lemma CharCountersSplit(ek: map<string, EkEntry>, sp: map<string, map<string, string>>, calls: seq<Call>, accept: nat -> bool)
    ensures CharCounters(ek, sp, calls, accept).modified == |AcceptedUpdates(calls, accept)|
    ensures CharCounters(ek, sp, calls, accept).added == |AcceptedAdds(calls, accept)|
    ensures CharCounters(ek, sp, calls, accept).errors == |calls| - Accepted(accept, |calls|)
  {
    TallySplit(calls, accept);
  }

  lemma PlannedFieldsStep(ek: map<string, EkEntry>, sp: map<string, map<string, string>>, key: string, chs: set<string>, ch: string)
    requires key in ek && key in sp && ch in sp[key]
    ensures PlannedFields(ek, sp, key, chs + {ch})
         == PlannedFields(ek, sp, key, chs)
            + (if Needed(ek[key], ch, sp[key][ch]) then {ActionFor(key, ek[key], ch, sp[key][ch])} else {})
  {
  }

  lemma PlannedKeysStep(ek: map<string, EkEntry>, sp: map<string, map<string, string>>, keys: set<string>, key: string)
    requires key in ek && key in sp
    ensures PlannedKeys(ek, sp, keys + {key}) == PlannedKeys(ek, sp, keys) + PlannedFields(ek, sp, key, sp[key].Keys)
  {
  }

  /** Calls planned for other keys, or for other fields of the same key, are different calls. */
  lemma PlannedDisjoint(ek: map<string, EkEntry>, sp: map<string, map<string, string>>,
                        keys: set<string>, key: string, chs: set<string>, ch: string)
    requires key in ek && key in sp && ch in sp[key]
    requires key !in keys && ch !in chs
    ensures ActionFor(key, ek[key], ch, sp[key][ch]) !in PlannedKeys(ek, sp, keys) + PlannedFields(ek, sp, key, chs)
  {
  }

  /** The calls planned for the keys `done` and the fields `seen` of the key being visited. */
  function Progress(ek: map<string, EkEntry>, sp: map<string, map<string, string>>,
                    done: set<string>, key: string, seen: set<string>): set<Call> {
    PlannedKeys(ek, sp, done) + PlannedFields(ek, sp, key, seen)
  }

  /** Visiting one more field appends its call exactly when the value must be written. */
  lemma FieldStep(ek: map<string, EkEntry>, sp: map<string, map<string, string>>,
                  done: set<string>, key: string, seen: set<string>, ch: string, calls: seq<Call>)
    requires key in ek && key in sp && ch in sp[key] && key !in done && ch !in seen
    requires multiset(calls) == multiset(Progress(ek, sp, done, key, seen))
    ensures Needed(ek[key], ch, sp[key][ch]) ==>
              multiset(calls + [ActionFor(key, ek[key], ch, sp[key][ch])]) == multiset(Progress(ek, sp, done, key, seen + {ch}))
    ensures !Needed(ek[key], ch, sp[key][ch]) ==> multiset(calls) == multiset(Progress(ek, sp, done, key, seen + {ch}))
  {
    PlannedFieldsStep(ek, sp, key, seen, ch);
    PlannedDisjoint(ek, sp, done, key, seen, ch);
    if Needed(ek[key], ch, sp[key][ch]) {
      ListingStep(calls, Progress(ek, sp, done, key, seen), ActionFor(key, ek[key], ch, sp[key][ch]));
    }
  }

  /** Once every field of a key is visited, the key is done. */
  lemma KeyStep(ek: map<string, EkEntry>, sp: map<string, map<string, string>>,
                done: set<string>, key: string, calls: seq<Call>)
    requires key in ek && key in sp
    requires multiset(calls) == multiset(Progress(ek, sp, done, key, sp[key].Keys))
    ensures multiset(calls) == multiset(PlannedKeys(ek, sp, done + {key}))
  {
    PlannedKeysStep(ek, sp, done, key);
  }

  /** The inner loop over the SharePoint fields of one common key. */
  method ReconcileFields(ek: map<string, EkEntry>, sp: map<string, map<string, string>>, key: string,
                         ghost done: set<string>, calls0: seq<Call>)
    returns (calls: seq<Call>)
    requires key in ek && key in sp && key !in done
    requires multiset(calls0) == multiset(PlannedKeys(ek, sp, done))
    ensures multiset(calls) == multiset(PlannedKeys(ek, sp, done + {key}))
  {
    var entry := ek[key];
    var champs := sp[key];
    calls := calls0;
    var todo := champs.Keys;
    ghost var seen: set<string> := {};
    assert Progress(ek, sp, done, key, seen) == PlannedKeys(ek, sp, done);
    while todo != {}
      invariant seen + todo == champs.Keys && seen !! todo
      invariant multiset(calls) == multiset(Progress(ek, sp, done, key, seen))
      decreases |todo|
    {
      var nomCaracteristique :| nomCaracteristique in todo;
      var valeurSharePoint := champs[nomCaracteristique];
      FieldStep(ek, sp, done, key, seen, nomCaracteristique, calls);
      if nomCaracteristique in entry.values {
        var existing := entry.values[nomCaracteristique];
        if existing.current != valeurSharePoint {
          calls := calls + [UpdateCharacteristic(key, nomCaracteristique, existing.valueId, valeurSharePoint,
                                                 entry.componentId, existing.characteristicId)];
        }
      } else {
        calls := calls + [AddCharacteristic(key, entry.componentId, nomCaracteristique, valeurSharePoint)];
      }
      VisitStep(seen, todo, champs.Keys, nomCaracteristique);
      seen := seen + {nomCaracteristique};
      todo := todo - {nomCaracteristique};
    }
    KeyStep(ek, sp, done, key, calls);
  }

  /**
   * The loop over the common keys: every planned write is made exactly once
   * (the calls are a permutation of `Planned`), `order` lists each common key
   * once, and the counters are the tally of the oracle's answers.
   */
  method ReconcileCharacteristics(ek: map<string, EkEntry>, sp: map<string, map<string, string>>, accept: nat -> bool)
    returns (summary: CharSummary, order: seq<string>, calls: seq<Call>)
    ensures multiset(order) == multiset(ek.Keys * sp.Keys)
    ensures multiset(calls) == multiset(Planned(ek, sp))
    ensures summary == CharCounters(ek, sp, calls, accept)
  {
    var logicielsCommuns := ek.Keys * sp.Keys;
    var todo := logicielsCommuns;
    ghost var done: set<string> := {};
    calls := [];
    order := [];
    while todo != {}
      invariant done + todo == logicielsCommuns && done !! todo
      invariant multiset(order) == multiset(done)
      invariant multiset(calls) == multiset(PlannedKeys(ek, sp, done))
      decreases |todo|
    {
      var nomLogiciel :| nomLogiciel in todo;
      calls := ReconcileFields(ek, sp, nomLogiciel, done, calls);
      ListingStep(order, done, nomLogiciel);
      VisitStep(done, todo, logicielsCommuns, nomLogiciel);
      order := order + [nomLogiciel];
      done := done + {nomLogiciel};
      todo := todo - {nomLogiciel};
    }
    assert done == logicielsCommuns;
    var t := CountOutcomes(calls, accept);
    summary := CharSummary(|logicielsCommuns|, t.modified, t.added, t.errors);
  }

  /** The three counters, incremented call by call as the loop above does. */
  method CountOutcomes(calls: seq<Call>, accept: nat -> bool) returns (t: Tally)
    ensures t == TallyOf(calls, accept)
  {
    var modifiees, ajoutees, erreurs := 0, 0, 0;
    for k := 0 to |calls|
      invariant Tally(modifiees, ajoutees, erreurs) == TallyOf(calls[..k], accept)
    {
      assert calls[..k + 1][..k] == calls[..k];
      var success := accept(k);
      if calls[k].UpdateCharacteristic? {
        if success { modifiees := modifiees + 1; } else { erreurs := erreurs + 1; }
      } else {
        if success { ajoutees := ajoutees + 1; } else { erreurs := erreurs + 1; }
      }
    }
    assert calls[..|calls|] == calls;
    t := Tally(modifiees, ajoutees, erreurs);
  }

  /** The whole characteristic phase: both snapshots, then the reconciliation of the common keys. */
  method SyncCharacteristics(comps: seq<EkComponent>, items: seq<SpItem>, accept: nat -> bool)
    returns (summary: CharSummary, order: seq<string>, calls: seq<Call>)
    ensures multiset(order) == multiset(EkialisRegistry(comps).Keys * SharePointRegistry(items).Keys)
    ensures multiset(calls) == multiset(Planned(EkialisRegistry(comps), SharePointRegistry(items)))
    ensures summary == CharCounters(EkialisRegistry(comps), SharePointRegistry(items), calls, accept)
  {
    var ek := CollectEkialisRegistry(comps);
    var sp := CollectSharePointRegistry(items);
    summary, order, calls := ReconcileCharacteristics(ek, sp, accept);
  }

  /**
   * The per-field rule, for a SharePoint field `ch` of a common key: an equal
   * value makes no call, a different one makes exactly the update call, and
   * an absent one makes exactly the add call.
   */
  lemma PerFieldRule(ek: map<string, EkEntry>, sp: map<string, map<string, string>>, key: string, ch: string)
    requires key in ek && key in sp && ch in sp[key]
    ensures var entry := ek[key]; var value := sp[key][ch];
      && (ch in entry.values && entry.values[ch].current == value ==>
            forall c :: c in Planned(ek, sp) ==> !(c.software == key && c.characteristic == ch))
      && (ch in entry.values && entry.values[ch].current != value ==>
            UpdateCharacteristic(key, ch, entry.values[ch].valueId, value, entry.componentId,
                                 entry.values[ch].characteristicId) in Planned(ek, sp))
      && (ch !in entry.values ==> AddCharacteristic(key, entry.componentId, ch, value) in Planned(ek, sp))
  {
    var entry := ek[key];
    var value := sp[key][ch];
    if Needed(entry, ch, value) {
      assert ActionFor(key, entry, ch, value) in Planned(ek, sp);
    }
  }

  /** Only common keys are written to, and only with their own SharePoint values. */
  lemma PlannedTouchesOnlyCommonKeys(ek: map<string, EkEntry>, sp: map<string, map<string, string>>, c: Call)
    requires c in Planned(ek, sp)
    ensures (c.UpdateCharacteristic? || c.AddCharacteristic?)
    ensures c.software in ek && c.software in sp && c.characteristic in sp[c.software]
    ensures c.value == sp[c.software][c.characteristic] && c.componentId == ek[c.software].componentId
  {
  }

  /** Ekialis already agrees with SharePoint on every field of every common key. */
  predicate Converged(ek: map<string, EkEntry>, sp: map<string, map<string, string>>) {
    forall key, ch :: key in ek && key in sp && ch in sp[key] ==>
      ch in ek[key].values && ek[key].values[ch].current == sp[key][ch]
  }

  /** Nothing is written exactly when Ekialis already agrees with SharePoint. */
  lemma NothingPlannedIffConverged(ek: map<string, EkEntry>, sp: map<string, map<string, string>>)
    ensures Planned(ek, sp) == {} <==> Converged(ek, sp)
  {
    if !Converged(ek, sp) {
      var key, ch :| key in ek && key in sp && ch in sp[key] && Needed(ek[key], ch, sp[key][ch]);
      assert ActionFor(key, ek[key], ch, sp[key][ch]) in Planned(ek, sp);
    }
  }

  /** The values of one component once every write for it has succeeded; a created value gets ids 0. */
  function Merge(values: map<string, EkValue>, fields: map<string, string>): map<string, EkValue> {
    map ch | ch in values.Keys + fields.Keys ::
      if ch in fields then
        (if ch in values then values[ch].(current := fields[ch]) else EkValue(0, fields[ch], 0))
      else values[ch]
  }

  /** The Ekialis registry once every planned write has succeeded: SharePoint's values win on the common keys. */
  function AfterSync(ek: map<string, EkEntry>, sp: map<string, map<string, string>>): map<string, EkEntry> {
    map key | key in ek ::
      if key in sp then EkEntry(ek[key].componentId, Merge(ek[key].values, sp[key])) else ek[key]
  }

  /** After a fully successful phase, a second phase has nothing left to write. */
  lemma SyncIsIdempotent(ek: map<string, EkEntry>, sp: map<string, map<string, string>>)
    ensures Converged(AfterSync(ek, sp), sp)
    ensures Planned(AfterSync(ek, sp), sp) == {}
  {
    NothingPlannedIffConverged(AfterSync(ek, sp), sp);
  }

  /** Later SharePoint fields never undo earlier ones: a successful phase keeps every Ekialis value SharePoint does not mention. */
  lemma SyncKeepsUnmentionedValues(ek: map<string, EkEntry>, sp: map<string, map<string, string>>, key: string, ch: string)
    requires key in ek && ch in ek[key].values && (key !in sp || ch !in sp[key])
    ensures key in AfterSync(ek, sp) && ch in AfterSync(ek, sp)[key].values
    ensures AfterSync(ek, sp)[key].values[ch] == ek[key].values[ch]
  {
  }

  // ================================================================ marking

  /** The colour obsolete software is painted. */
  const Red: string := "FF0000"

  /** A colour is already red when its upper case is "FF0000". */
  predicate IsRed(color: string) {
    ToUpper(color) == Red
  }

  /** The `Where` predicate of "obsolete": the lower-cased (trimmed) name is not a SharePoint name. */
  function ObsoleteIn(spNames: set<string>): EkSoftware -> bool {
    (l: EkSoftware) => ToLower(l.name) !in spNames
  }

  /** `logicielsObsoletes`, in Ekialis order. */
  function Obsolete(comps: seq<EkComponent>, items: seq<SpItem>): seq<EkSoftware> {
    Filter(EkialisSoftware(comps), ObsoleteIn(SharePointNames(items)))
  }

  /** The colour calls for an obsolete list: one `SetColor(id, "FF0000")` per entry not already red, in order. */
  function ColorCalls(obsolete: seq<EkSoftware>): (r: seq<Call>)
    ensures |r| <= |obsolete|
  {
    if obsolete == [] then []
    else
      var l := obsolete[|obsolete| - 1];
      ColorCalls(obsolete[..|obsolete| - 1]) + (if IsRed(l.color) then [] else [SetColor(l.id, Red)])
  }

  /** The number of obsolete entries already red. */
  function AlreadyRed(obsolete: seq<EkSoftware>): (n: nat)
    ensures n + |ColorCalls(obsolete)| == |obsolete|
  {
    if obsolete == [] then 0
    else AlreadyRed(obsolete[..|obsolete| - 1]) + (if IsRed(obsolete[|obsolete| - 1].color) then 1 else 0)
  }

  /** The response of the marking phase. */
  datatype MarkSummary = MarkSummary(totalEkialis: nat, totalSharePoint: nat, obsolete: nat, succeeded: nat, failed: nat)

  /**
   * The counters of the marking phase: an entry already red is a success
   * without a call, and every colour call succeeds or fails.
   */
  function MarkCounters(comps: seq<EkComponent>, items: seq<SpItem>, accept: nat -> bool): (s: MarkSummary)
    ensures s.obsolete == |Obsolete(comps, items)| <= s.totalEkialis
    ensures s.succeeded + s.failed == s.obsolete
    ensures s.succeeded >= AlreadyRed(Obsolete(comps, items))
  {
    var obsolete := Obsolete(comps, items);
    var n := |ColorCalls(obsolete)|;
    MarkSummary(|EkialisSoftware(comps)|, |SharePointNames(items)|, |obsolete|,
                AlreadyRed(obsolete) + Accepted(accept, n), n - Accepted(accept, n))
  }

  /**
   * Paints the obsolete entries of a list red: an entry already red counts
   * as a success without a call; any other gets one colour call.
   */
  method PaintRed(obsolete: seq<EkSoftware>, accept: nat -> bool) returns (succeeded: nat, failed: nat, calls: seq<Call>)
    ensures calls == ColorCalls(obsolete)
    ensures succeeded == AlreadyRed(obsolete) + Accepted(accept, |calls|)
    ensures failed == |calls| - Accepted(accept, |calls|)
    ensures succeeded + failed == |obsolete|
  {
    succeeded, failed := 0, 0;
    calls := [];
    for i := 0 to |obsolete|
      invariant calls == ColorCalls(obsolete[..i])
      invariant succeeded == AlreadyRed(obsolete[..i]) + Accepted(accept, |calls|)
      invariant failed == |calls| - Accepted(accept, |calls|)
    {
      assert obsolete[..i + 1][..i] == obsolete[..i];
      var logiciel := obsolete[i];
      if ToUpper(logiciel.color) == Red {
        succeeded := succeeded + 1;
        continue;
      }
      var success := accept(|calls|);
      calls := calls + [SetColor(logiciel.id, Red)];
      if success {
        succeeded := succeeded + 1;
      } else {
        failed := failed + 1;
      }
    }
    assert obsolete[..|obsolete|] == obsolete;
  }

  /** The marking phase: both snapshots, the obsolete list, then the painting. */
  method MarkObsoleteRed(comps: seq<EkComponent>, items: seq<SpItem>, accept: nat -> bool)
    returns (summary: MarkSummary, calls: seq<Call>)
    ensures calls == ColorCalls(Obsolete(comps, items))
    ensures summary == MarkCounters(comps, items, accept)
  {
    var nomsSharePoint := SharePointNames(items);
    var logicielsEkialis := CollectEkialisSoftware(comps);
    var logicielsObsoletes := Filter(logicielsEkialis, ObsoleteIn(nomsSharePoint));
    var reussis, echecs;
    reussis, echecs, calls := PaintRed(logicielsObsoletes, accept);
    summary := MarkSummary(|logicielsEkialis|, |nomsSharePoint|, |logicielsObsoletes|, reussis, echecs);
  }

  /**
   * A software component with a positive id and a non-blank name is obsolete
   * exactly when its lower-cased trimmed name is not a SharePoint name, and
   * every obsolete entry comes from such a component.
   */
  lemma ObsoleteIff(comps: seq<EkComponent>, items: seq<SpItem>, c: EkComponent)
    ensures c in comps && IsSoftware(c) && c.id > 0 && !IsBlank(c.name) ==>
              (SoftwareOf(c) in Obsolete(comps, items) <==> Normalize(c.name) !in SharePointNames(items))
    ensures forall l :: l in Obsolete(comps, items) ==>
              exists d :: d in comps && Markable(d) && l == SoftwareOf(d) && Normalize(d.name) !in SharePointNames(items)
  {
    TrimMeaning(c.name);
    EkialisSoftwareMember(comps, c);
    FilterMember(EkialisSoftware(comps), ObsoleteIn(SharePointNames(items)), SoftwareOf(c));
    forall l | l in Obsolete(comps, items)
      ensures exists d :: d in comps && Markable(d) && l == SoftwareOf(d) && Normalize(d.name) !in SharePointNames(items)
    {
      FilterMember(EkialisSoftware(comps), ObsoleteIn(SharePointNames(items)), l);
      var d :| d in comps && Markable(d) && l == SoftwareOf(d);
    }
  }

  /** Every colour call paints an obsolete entry that is not already red, and the calls follow the list. */
  lemma {:induction false} ColorCallsMeaning(obsolete: seq<EkSoftware>)
    ensures forall c :: c in ColorCalls(obsolete) ==>
              exists l :: l in obsolete && !IsRed(l.color) && c == SetColor(l.id, Red)
    ensures (forall l :: l in obsolete ==> IsRed(l.color)) <==> ColorCalls(obsolete) == []
  {
    if obsolete != [] {
      var init := obsolete[..|obsolete| - 1];
      ColorCallsMeaning(init);
      assert obsolete == init + [obsolete[|obsolete| - 1]];
    }
  }

  /** "FF0000" is its own upper case, so it counts as red. */
  lemma RedIsRed()
    ensures IsRed(Red)
  {
    ToUpperMeaning(Red);
    assert ToUpper(Red) == Red;
  }

  /** The obsolete list once every colour call has succeeded. */
  function Painted(obsolete: seq<EkSoftware>): (r: seq<EkSoftware>)
    ensures |r| == |obsolete|
    ensures forall k :: 0 <= k < |r| ==> r[k] == obsolete[k].(color := Red)
  {
    if obsolete == [] then []
    else Painted(obsolete[..|obsolete| - 1]) + [obsolete[|obsolete| - 1].(color := Red)]
  }

  /** Marking again after a fully successful marking makes no call: the phase is idempotent. */
  lemma RepaintMakesNoCall(obsolete: seq<EkSoftware>)
    ensures ColorCalls(Painted(obsolete)) == []
  {
    RedIsRed();
    ColorCallsMeaning(Painted(obsolete));
  }

  // ====================================================== add to SharePoint

  /** The Ekialis keys with no SharePoint title of the same normalised form. */
  function MissingInSharePoint(comps: seq<EkComponent>, items: seq<SpItem>): set<string> {
    EkialisCatalogue(comps).Keys - SharePointNames(items)
  }

  /** The response of Ekialis -> SharePoint: every missing key is tried once, and each try succeeds or fails. */
  function ToSharePointCounters(comps: seq<EkComponent>, items: seq<SpItem>, accept: nat -> bool): (s: AddSummary)
    ensures s.missing == |MissingInSharePoint(comps, items)| <= s.totalEkialis
    ensures s.succeeded + s.failed == s.missing
  {
    var missing := MissingInSharePoint(comps, items);
    AddSummary(|SharePointNames(items)|, |EkialisCatalogue(comps)|, |missing|,
               Accepted(accept, |missing|), |missing| - Accepted(accept, |missing|))
  }

  /** A key is missing in SharePoint exactly when it is an Ekialis name and not a SharePoint name. */
  lemma MissingInSharePointIff(comps: seq<EkComponent>, items: seq<SpItem>, key: string)
    ensures key in MissingInSharePoint(comps, items) <==>
              key in EkialisNames(comps) && key !in SharePointNames(items)
  {
    CatalogueKeysAreNames(comps);
  }

  /** `calls[k]` sends the key `order[k]` with its catalogue entry, for every k. */
  ghost predicate SendsListed(cat: map<string, map<string, string>>, order: seq<string>, calls: seq<Call>) {
    |calls| == |order| &&
    forall k :: 0 <= k < |calls| ==> order[k] in cat && calls[k] == AddSharePointItem(order[k], cat[order[k]])
  }

  lemma SendsStep(cat: map<string, map<string, string>>, order: seq<string>, calls: seq<Call>, key: string)
    requires SendsListed(cat, order, calls) && key in cat
    ensures SendsListed(cat, order + [key], calls + [AddSharePointItem(key, cat[key])])
  {
  }

  /**
   * Ekialis -> SharePoint: one `AddItemToSharePointAsync(key, characteristics)`
   * per missing key, each key once; the name sent is the lower-cased key.
   */
  method AddMissingToSharePoint(comps: seq<EkComponent>, items: seq<SpItem>, accept: nat -> bool)
    returns (summary: AddSummary, order: seq<string>, calls: seq<Call>)
    ensures multiset(order) == multiset(MissingInSharePoint(comps, items))
    ensures SendsListed(EkialisCatalogue(comps), order, calls)
    ensures summary == ToSharePointCounters(comps, items, accept)
  {
    var logicielsEkialis := CollectEkialisCatalogue(comps);
    var nomsSharePoint := SharePointNames(items);
    var ajoutsReussis, ajoutsEchecs;
    ajoutsReussis, ajoutsEchecs, order, calls := AddEach(logicielsEkialis, logicielsEkialis.Keys - nomsSharePoint, accept);
    summary := AddSummary(|nomsSharePoint|, |logicielsEkialis|, |logicielsEkialis.Keys - nomsSharePoint|,
                          ajoutsReussis, ajoutsEchecs);
  }

  /** The loop of the transfer: every key of `missing` is sent once, with its catalogue entry. */
  method AddEach(cat: map<string, map<string, string>>, missing: set<string>, accept: nat -> bool)
    returns (succeeded: nat, failed: nat, order: seq<string>, calls: seq<Call>)
    requires missing <= cat.Keys
    ensures multiset(order) == multiset(missing) && |order| == |missing|
    ensures SendsListed(cat, order, calls)
    ensures succeeded == Accepted(accept, |missing|) && failed == |missing| - succeeded
  {
    var todo := missing;
    succeeded, failed := 0, 0;
    ghost var done: set<string> := {};
    order, calls := [], [];
    while todo != {}
      invariant done + todo == missing && done !! todo
      invariant multiset(order) == multiset(done) && |order| == |done|
      invariant SendsListed(cat, order, calls)
      invariant succeeded == Accepted(accept, |calls|) && failed == |calls| - succeeded
      decreases |todo|
    {
      var nomOriginal :| nomOriginal in todo;
      var success := accept(|calls|);
      SendsStep(cat, order, calls, nomOriginal);
      calls := calls + [AddSharePointItem(nomOriginal, cat[nomOriginal])];
      if success {
        succeeded := succeeded + 1;
      } else {
        failed := failed + 1;
      }
      ListingStep(order, done, nomOriginal);
      VisitStep(done, todo, missing, nomOriginal);
      order := order + [nomOriginal];
      done := done + {nomOriginal};
      todo := todo - {nomOriginal};
    }
    assert done == missing;
  }
}
