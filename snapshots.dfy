/**
 * The normalised snapshots that every copy of the reconciliation engine
 * rebuilds from the two registries before comparing them. Each snapshot is a
 * specification function over the fetched records, and a method whose loop
 * builds it the way the controllers' `foreach` loops do; the method's
 * postcondition ties the two together.
 *
 * Keys are normalised names: `ToLower(Trim(name))`.
 */
module Snapshots {
  import opened Text
  import opened Collections
  import opened FieldMapping
  import opened Records

  // ---------------------------------------------------------------- names

  /** The text of an item's Title, "" when the item has none. */
  function RawTitle(item: SpItem): string {
    if "Title" in item then item["Title"] else ""
  }

  /** `nomsEkialis`: the normalised names of the software components whose name is not blank. */
  function EkialisNames(comps: seq<EkComponent>): set<string> {
    set c | c in comps && Named(c) :: Normalize(c.name)
  }

  /** A component is named software when it is of class "1" and its name is not blank. */
  predicate Named(c: EkComponent) {
    IsSoftware(c) && Trim(c.name) != []
  }

  lemma EkialisNamesSnoc(comps: seq<EkComponent>, c: EkComponent)
    ensures EkialisNames(comps + [c])
         == EkialisNames(comps) + (if Named(c) then {Normalize(c.name)} else {})
  {
  }

  /** The Ekialis name loop of the add-to-Ekialis phase. */
  method CollectEkialisNames(comps: seq<EkComponent>) returns (names: set<string>)
    ensures names == EkialisNames(comps)
  {
    names := {};
    for i := 0 to |comps|
      invariant names == EkialisNames(comps[..i])
    {
      assert comps[..i + 1] == comps[..i] + [comps[i]];
      EkialisNamesSnoc(comps[..i], comps[i]);
      var c := comps[i];
      if c.classId == "1" {
        var nom := Trim(c.name);
        if nom != [] {
          names := names + {ToLower(nom)};
        }
      }
    }
    assert comps[..|comps|] == comps;
  }

  /**
   * The name set holds exactly the normalised names of the software
   * components with a non-blank name; each of them is a non-empty key that
   * normalisation leaves unchanged.
   */
  lemma EkialisNamesAreKeys(comps: seq<EkComponent>, n: string)
    ensures n in EkialisNames(comps) <==>
              exists c :: c in comps && IsSoftware(c) && !IsBlank(c.name) && Normalize(c.name) == n
    ensures n in EkialisNames(comps) ==> n != [] && Normalize(n) == n
  {
    if n in EkialisNames(comps) {
      var c :| c in comps && Named(c) && Normalize(c.name) == n;
      TrimMeaning(c.name);
      NormalizeIdempotent(c.name);
    }
    if exists c :: c in comps && IsSoftware(c) && !IsBlank(c.name) && Normalize(c.name) == n {
      var c :| c in comps && IsSoftware(c) && !IsBlank(c.name) && Normalize(c.name) == n;
      TrimMeaning(c.name);
    }
  }

  /** `nomsSharePoint`: the normalised titles of the SharePoint items whose title is not blank. */
  function SharePointNames(items: seq<SpItem>): set<string> {
    set item | item in items && HasTitle(item) :: Normalize(item["Title"])
  }

  /** The SharePoint names are the normalised non-blank titles; each is a non-empty key that normalisation leaves unchanged. */
  lemma SharePointNamesAreKeys(items: seq<SpItem>, n: string)
    ensures n in SharePointNames(items) <==>
              exists item :: item in items && "Title" in item && !IsBlank(item["Title"]) && Normalize(item["Title"]) == n
    ensures n in SharePointNames(items) ==> n != [] && Normalize(n) == n
  {
    if n in SharePointNames(items) {
      var item :| item in items && HasTitle(item) && Normalize(item["Title"]) == n;
      TrimMeaning(item["Title"]);
      NormalizeIdempotent(item["Title"]);
    }
    if exists item :: item in items && "Title" in item && !IsBlank(item["Title"]) && Normalize(item["Title"]) == n {
      var item :| item in items && "Title" in item && !IsBlank(item["Title"]) && Normalize(item["Title"]) == n;
      TrimMeaning(item["Title"]);
    }
  }

  // ------------------------------------------------------- SharePoint items

  /** An item counts as software when it has a Title that is not blank. */
  predicate HasTitle(item: SpItem) {
    "Title" in item && Trim(item["Title"]) != []
  }

  /** `logicielsSharePoint` of the add-to-Ekialis phase: the items with a title, in order, each copied whole. */
  function SharePointSoftware(items: seq<SpItem>): seq<SpItem> {
    Filter(items, HasTitle)
  }

  /** The SharePoint loop of the add-to-Ekialis phase. */
  method CollectSharePointSoftware(items: seq<SpItem>) returns (software: seq<SpItem>)
    ensures software == SharePointSoftware(items)
  {
    software := [];
    for i := 0 to |items|
      invariant software == Filter(items[..i], HasTitle)
    {
      assert items[..i + 1] == items[..i] + [items[i]];
      FilterSnoc(items[..i], items[i], HasTitle);
      var item := items[i];
      if "Title" in item {
        var title := Trim(item["Title"]);
        if title != [] {
          // `logiciel[field.Key] = field.Value ?? ""` copies every field unchanged.
          var logiciel: SpItem := map k | k in item :: item[k];
          assert logiciel == item;
          software := software + [logiciel];
        }
      }
    }
    assert items[..|items|] == items;
  }

  // ------------------------------------------- Ekialis list of the marking phase

  /** `(id, name, currentColor)` of the marking phase; `name` is trimmed. */
  datatype EkSoftware = EkSoftware(id: int, name: string, color: string)

  /** The components the marking phase looks at: software, a positive id, a name that is not blank. */
  predicate Markable(c: EkComponent) {
    IsSoftware(c) && c.id > 0 && Trim(c.name) != []
  }

  function SoftwareOf(c: EkComponent): EkSoftware {
    EkSoftware(c.id, Trim(c.name), c.color)
  }

  /** `logicielsEkialis` of the marking phase, in component order, duplicates kept. */
  function EkialisSoftware(comps: seq<EkComponent>): (r: seq<EkSoftware>)
    ensures |r| <= |comps|
    ensures forall k :: 0 <= k < |r| ==> r[k].id > 0 && r[k].name != []
  {
    if comps == [] then []
    else
      var c := comps[|comps| - 1];
      EkialisSoftware(comps[..|comps| - 1]) + (if Markable(c) then [SoftwareOf(c)] else [])
  }

  /** The marking list grows by one component at a time. */
  lemma EkialisSoftwareSnoc(comps: seq<EkComponent>, i: nat)
    requires i < |comps|
    ensures EkialisSoftware(comps[..i + 1])
         == EkialisSoftware(comps[..i]) + (if Markable(comps[i]) then [SoftwareOf(comps[i])] else [])
  {
    assert comps[..i + 1][..i] == comps[..i];
  }

  /** An entry of the marking list comes from a markable component, and every markable component has one. */
  lemma {:induction false} EkialisSoftwareMember(comps: seq<EkComponent>, c: EkComponent)
    ensures c in comps && Markable(c) ==> SoftwareOf(c) in EkialisSoftware(comps)
    ensures forall l :: l in EkialisSoftware(comps) ==> exists d :: d in comps && Markable(d) && l == SoftwareOf(d)
  {
    if comps != [] {
      var init := comps[..|comps| - 1];
      EkialisSoftwareMember(init, c);
      assert comps == init + [comps[|comps| - 1]];
    }
  }

  /** The Ekialis loop of the marking phase. */
  method CollectEkialisSoftware(comps: seq<EkComponent>) returns (list: seq<EkSoftware>)
    ensures list == EkialisSoftware(comps)
  {
    list := [];
    for i := 0 to |comps|
      invariant list == EkialisSoftware(comps[..i])
    {
      assert comps[..i + 1][..i] == comps[..i];
      var c := comps[i];
      if c.classId != "1" {
        continue;
      }
      var name := Trim(c.name);
      if c.id > 0 && name != [] {
        list := list + [EkSoftware(c.id, name, c.color)];
      }
    }
    assert comps[..|comps|] == comps;
  }

  // ------------------------------------ Ekialis registry of the characteristic phase

  /** `(valueId, currentValue, characteristicId)` of one characteristic. */
  datatype EkValue = EkValue(valueId: int, current: string, characteristicId: int)

  /** `(id, characteristics)` of one component. */
  datatype EkEntry = EkEntry(componentId: int, values: map<string, EkValue>)

  /** A characteristic is synchronised when it is mapped and both of its ids are positive. */
  predicate Synchronisable(ch: EkCharacteristic) {
    IsCharacteristicMapped(ch.name) && ch.valueId > 0 && ch.id > 0
  }

  /** The characteristics of one component, by name; a later duplicate overwrites an earlier one. */
  function ValuesOf(chars: seq<EkCharacteristic>): (r: map<string, EkValue>)
    ensures forall n :: n in r ==> IsCharacteristicMapped(n) && r[n].valueId > 0 && r[n].characteristicId > 0
  {
    if chars == [] then map[]
    else
      var ch := chars[|chars| - 1];
      var m := ValuesOf(chars[..|chars| - 1]);
      if Synchronisable(ch) then m[ch.name := EkValue(ch.valueId, ch.valueText, ch.id)] else m
  }

  /** A component enters the registry when it is software, its name is not blank and its id is not 0. */
  predicate Registered(c: EkComponent) {
    IsSoftware(c) && Trim(c.name) != [] && c.id != 0
  }

  /** `logicielsEkialis` of the characteristic phase, keyed by normalised name; a later duplicate overwrites. */
  function EkialisRegistry(comps: seq<EkComponent>): (r: map<string, EkEntry>)
    ensures forall k :: k in r ==> r[k].componentId != 0
  {
    if comps == [] then map[]
    else
      var c := comps[|comps| - 1];
      var m := EkialisRegistry(comps[..|comps| - 1]);
      if Registered(c) then m[Normalize(c.name) := EkEntry(c.id, ValuesOf(c.characteristics))] else m
  }

  /** The registry's keys are the normalised names of the registered components. */
  lemma {:induction false} EkialisRegistryKeys(comps: seq<EkComponent>)
    ensures EkialisRegistry(comps).Keys == set c | c in comps && Registered(c) :: Normalize(c.name)
  {
    if comps != [] {
      var init := comps[..|comps| - 1];
      EkialisRegistryKeys(init);
      assert comps == init + [comps[|comps| - 1]];
    }
  }

  /** Of two characteristics with the same name, the registry keeps the last one admitted. */
  lemma {:induction false} ValuesLastWins(chars: seq<EkCharacteristic>, k: nat)
    requires k < |chars| && Synchronisable(chars[k])
    requires forall j :: k < j < |chars| ==> !(Synchronisable(chars[j]) && chars[j].name == chars[k].name)
    ensures chars[k].name in ValuesOf(chars)
    ensures ValuesOf(chars)[chars[k].name] == EkValue(chars[k].valueId, chars[k].valueText, chars[k].id)
  {
    if k < |chars| - 1 {
      var init := chars[..|chars| - 1];
      ValuesLastWins(init, k);
    }
  }

  /** Of two components with the same normalised name, the registry keeps the last one registered. */
  lemma {:induction false} RegistryLastWins(comps: seq<EkComponent>, k: nat)
    requires k < |comps| && Registered(comps[k])
    requires forall j :: k < j < |comps| ==> !(Registered(comps[j]) && Normalize(comps[j].name) == Normalize(comps[k].name))
    ensures Normalize(comps[k].name) in EkialisRegistry(comps)
    ensures EkialisRegistry(comps)[Normalize(comps[k].name)] == EkEntry(comps[k].id, ValuesOf(comps[k].characteristics))
  {
    if k < |comps| - 1 {
      var init := comps[..|comps| - 1];
      RegistryLastWins(init, k);
    }
  }

  /** The inner loop over a component's characteristics. */
  method CollectValues(chars: seq<EkCharacteristic>) returns (values: map<string, EkValue>)
    ensures values == ValuesOf(chars)
  {
    values := map[];
    for i := 0 to |chars|
      invariant values == ValuesOf(chars[..i])
    {
      assert chars[..i + 1][..i] == chars[..i];
      var ch := chars[i];
      if IsCharacteristicMapped(ch.name) && ch.valueId > 0 && ch.id > 0 {
        values := values[ch.name := EkValue(ch.valueId, ch.valueText, ch.id)];
      }
    }
    assert chars[..|chars|] == chars;
  }

  /** The Ekialis loop of the characteristic phase. */
  method CollectEkialisRegistry(comps: seq<EkComponent>) returns (registry: map<string, EkEntry>)
    ensures registry == EkialisRegistry(comps)
  {
    registry := map[];
    for i := 0 to |comps|
      invariant registry == EkialisRegistry(comps[..i])
    {
      assert comps[..i + 1][..i] == comps[..i];
      var c := comps[i];
      if c.classId != "1" {
        continue;
      }
      var nom := Trim(c.name);
      if nom == [] || c.id == 0 {
        continue;
      }
      var values := CollectValues(c.characteristics);
      registry := registry[ToLower(nom) := EkEntry(c.id, values)];
    }
    assert comps[..|comps|] == comps;
  }

  // --------------------------------- SharePoint registry of the characteristic phase

  /** A field of an item takes part when it is a mapped column other than Title and its trimmed value is not empty. */
  predicate FieldCounts(item: SpItem, f: string)
    requires f in item
  {
    f != "Title" && IsFieldMapped(f) && Trim(item[f]) != []
  }

  /** Every value of an item, trimmed. */
  function TrimmedValues(item: SpItem): (r: SpItem)
    ensures r.Keys == item.Keys
  {
    map f | f in item :: Trim(item[f])
  }

  /**
   * `champs` restricted to the columns in `fs`, for trimmed values `vals` and
   * a table `toColumn` from characteristic to column: characteristic name ->
   * value of its column, when that column is not Title and its value is not empty.
   */
  function FieldsWith(vals: SpItem, fs: set<string>, toColumn: map<string, string>): map<string, string> {
    map ch | ch in toColumn && toColumn[ch] in fs && toColumn[ch] in vals && toColumn[ch] != "Title" && vals[toColumn[ch]] != []
      :: vals[toColumn[ch]]
  }

  /** `champs` restricted to the columns in `fs`. */
  function FieldsOver(item: SpItem, fs: set<string>): map<string, string> {
    FieldsWith(TrimmedValues(item), fs, EkialisToSharePoint)
  }

  /** `champs` of one SharePoint item. */
  function FieldsOf(item: SpItem): map<string, string> {
    FieldsOver(item, item.Keys)
  }

  /** For any pair of mutually inverse tables, one more column adds its characteristic when it counts, and nothing else. */
  lemma FieldsWithStep(vals: SpItem, seen: set<string>, f: string, toColumn: map<string, string>, toCharacteristic: map<string, string>)
    requires f in vals
    requires forall g :: g in toCharacteristic ==> toCharacteristic[g] in toColumn && toColumn[toCharacteristic[g]] == g
    requires forall c :: c in toColumn ==> toColumn[c] in toCharacteristic && toCharacteristic[toColumn[c]] == c
    ensures FieldsWith(vals, seen + {f}, toColumn)
         == if f in toCharacteristic && f != "Title" && vals[f] != []
            then FieldsWith(vals, seen, toColumn)[toCharacteristic[f] := vals[f]]
            else FieldsWith(vals, seen, toColumn)
  {
    var before := FieldsWith(vals, seen, toColumn);
    var after := FieldsWith(vals, seen + {f}, toColumn);
    var expected := if f in toCharacteristic && f != "Title" && vals[f] != []
                    then before[toCharacteristic[f] := vals[f]] else before;
    forall c
      ensures (c in after) == (c in expected)
      ensures c in after ==> after[c] == expected[c]
    {
    }
  }

  /** Looking at one more column adds its characteristic when the column counts, and nothing else. */
  lemma FieldsOverStep(item: SpItem, seen: set<string>, f: string)
    requires f in item
    ensures FieldsOver(item, seen + {f})
         == if FieldCounts(item, f) then FieldsOver(item, seen)[GetEkialisCharacteristic(f).value := Trim(item[f])]
            else FieldsOver(item, seen)
  {
    TablesAreInverse();
    var vals := TrimmedValues(item);
    assert vals[f] == Trim(item[f]);
    FieldsWithStep(vals, seen, f, EkialisToSharePoint, SharePointToEkialis);
  }

  /**
   * Every column that counts puts its trimmed value under the characteristic
   * it is mapped to, and `champs` holds nothing else.
   */
  lemma FieldsOfMeaning(item: SpItem, f: string, ch: string)
    ensures f in item && FieldCounts(item, f) ==>
              SharePointToEkialis[f] in FieldsOf(item) && FieldsOf(item)[SharePointToEkialis[f]] == Trim(item[f])
    ensures ch in FieldsOf(item) ==>
              IsCharacteristicMapped(ch) && GetSharePointField(ch).value in item
              && FieldCounts(item, GetSharePointField(ch).value)
  {
    if f in item && FieldCounts(item, f) {
      var c := GetEkialisCharacteristic(f).value;
      assert EkialisToSharePoint[c] == f;
    }
  }

  /**
   * The inner loop over the fields of one SharePoint item. Trimming is pure,
   * so the values are trimmed up front and the loop reads them.
   */
  method CollectFields(item: SpItem) returns (champs: map<string, string>)
    ensures champs == FieldsOf(item)
  {
    var vals := TrimmedValues(item);
    champs := CollectTrimmedFields(vals);
  }

  /** The loop over the (trimmed) fields of one item, in whatever order the dictionary yields them. */
  method CollectTrimmedFields(vals: SpItem) returns (champs: map<string, string>)
    ensures champs == FieldsWith(vals, vals.Keys, EkialisToSharePoint)
  {
    TablesAreInverse();
    champs := map[];
    var todo := vals.Keys;
    ghost var seen: set<string> := {};
    assert FieldsWith(vals, seen, EkialisToSharePoint) == map[];
    while todo != {}
      invariant seen + todo == vals.Keys
      invariant champs == FieldsWith(vals, seen, EkialisToSharePoint)
      decreases |todo|
    {
      var f :| f in todo;
      FieldsWithStep(vals, seen, f, EkialisToSharePoint, SharePointToEkialis);
      if f != "Title" && IsFieldMapped(f) {
        var valeur := vals[f];
        if valeur != [] {
          var caracteristique := GetEkialisCharacteristic(f);
          if caracteristique.Some? && caracteristique.value != [] {
            champs := champs[caracteristique.value := valeur];
          }
        }
      }
      seen := seen + {f};
      todo := todo - {f};
    }
    assert seen == vals.Keys;
  }

  /** `logicielsSharePoint` of the characteristic phase, keyed by normalised title; a later duplicate overwrites. */
  function SharePointRegistry(items: seq<SpItem>): map<string, map<string, string>> {
    if items == [] then map[]
    else
      var item := items[|items| - 1];
      var m := SharePointRegistry(items[..|items| - 1]);
      if HasTitle(item) then m[Normalize(item["Title"]) := FieldsOf(item)] else m
  }

  /** The registry's keys are the normalised titles of the items with a title. */
  lemma {:induction false} SharePointRegistryKeys(items: seq<SpItem>)
    ensures SharePointRegistry(items).Keys == set item | item in items && HasTitle(item) :: Normalize(item["Title"])
  {
    if items != [] {
      var init := items[..|items| - 1];
      SharePointRegistryKeys(init);
      assert items == init + [items[|items| - 1]];
    }
  }

  /** The SharePoint loop of the characteristic phase. */
  method CollectSharePointRegistry(items: seq<SpItem>) returns (registry: map<string, map<string, string>>)
    ensures registry == SharePointRegistry(items)
  {
    registry := map[];
    for i := 0 to |items|
      invariant registry == SharePointRegistry(items[..i])
    {
      assert items[..i + 1][..i] == items[..i];
      var item := items[i];
      if "Title" !in item {
        continue;
      }
      var title := Trim(item["Title"]);
      if title == [] {
        continue;
      }
      var champs := CollectFields(item);
      registry := registry[ToLower(title) := champs];
    }
    assert items[..|items|] == items;
  }

  // ------------------------------------------ Ekialis catalogue of the Ekialis-to-SharePoint transfer

  /** A characteristic is copied to SharePoint when its value and name are not blank and its name is mapped. */
  predicate Exportable(ch: EkCharacteristic) {
    !IsBlank(ch.valueText) && !IsBlank(ch.name) && IsCharacteristicMapped(ch.name)
  }

  /** The characteristics of one component, name -> untrimmed value. */
  function CatalogueValues(chars: seq<EkCharacteristic>): (r: map<string, string>)
    ensures forall n :: n in r ==> IsCharacteristicMapped(n) && !IsBlank(r[n])
  {
    if chars == [] then map[]
    else
      var ch := chars[|chars| - 1];
      var m := CatalogueValues(chars[..|chars| - 1]);
      if Exportable(ch) then m[ch.name := ch.valueText] else m
  }

  /** `logicielsEkialis` of the Ekialis-to-SharePoint transfer: every software component with a non-blank name, no id test. */
  function EkialisCatalogue(comps: seq<EkComponent>): map<string, map<string, string>> {
    if comps == [] then map[]
    else
      var c := comps[|comps| - 1];
      var m := EkialisCatalogue(comps[..|comps| - 1]);
      if Named(c) then m[Normalize(c.name) := CatalogueValues(c.characteristics)] else m
  }

  /** The catalogue's keys are exactly the add-to-Ekialis name set. */
  lemma {:induction false} CatalogueKeysAreNames(comps: seq<EkComponent>)
    ensures EkialisCatalogue(comps).Keys == EkialisNames(comps)
  {
    if comps != [] {
      var init := comps[..|comps| - 1];
      CatalogueKeysAreNames(init);
      assert comps == init + [comps[|comps| - 1]];
      EkialisNamesSnoc(init, comps[|comps| - 1]);
    }
  }

  /** Every characteristic of a catalogue entry is a mapped one. */
  lemma {:induction false} CatalogueValuesAreMapped(comps: seq<EkComponent>, key: string)
    requires key in EkialisCatalogue(comps)
    ensures forall ch :: ch in EkialisCatalogue(comps)[key] ==> IsCharacteristicMapped(ch)
  {
    var init := comps[..|comps| - 1];
    if key in EkialisCatalogue(init) {
      CatalogueValuesAreMapped(init, key);
    }
  }

  method CollectCatalogueValues(chars: seq<EkCharacteristic>) returns (values: map<string, string>)
    ensures values == CatalogueValues(chars)
  {
    values := map[];
    for i := 0 to |chars|
      invariant values == CatalogueValues(chars[..i])
    {
      assert chars[..i + 1][..i] == chars[..i];
      var ch := chars[i];
      if !IsBlank(ch.valueText) && !IsBlank(ch.name) {
        if IsCharacteristicMapped(ch.name) {
          values := values[ch.name := ch.valueText];
        }
      }
    }
    assert chars[..|chars|] == chars;
  }

  /** The Ekialis loop of the Ekialis-to-SharePoint transfer. */
  method CollectEkialisCatalogue(comps: seq<EkComponent>) returns (catalogue: map<string, map<string, string>>)
    ensures catalogue == EkialisCatalogue(comps)
  {
    catalogue := map[];
    for i := 0 to |comps|
      invariant catalogue == EkialisCatalogue(comps[..i])
    {
      assert comps[..i + 1][..i] == comps[..i];
      var c := comps[i];
      if c.classId != "1" {
        continue;
      }
      var nom := Trim(c.name);
      if nom == [] {
        continue;
      }
      var values := CollectCatalogueValues(c.characteristics);
      catalogue := catalogue[ToLower(nom) := values];
    }
    assert comps[..|comps|] == comps;
  }
}
