/**
 * Controllers/EkialisController.cs: the report of the software with their
 * characteristics. The known characteristics become an id -> name
 * dictionary (a repeated id makes the build raise); every component of
 * class "1" gives one entry, its name untrimmed, with a label
 * "name (value)" per characteristic whose value is not blank, the name
 * looked up by id or "Inconnu (id)"; the entries are sorted by name, and
 * entries of one name keep their input order.
 */
module EkialisController {
  import opened Text
  import opened Collections
  import opened Records

  /** One known characteristic, as `GetCharacteristicsAsync` returns it. */
  datatype CharacteristicDef = CharacteristicDef(id: int, name: string)

  /** One entry of the report. */
  datatype Logiciel = Logiciel(nomAppli: string, caracteristiques: seq<string>)

  /** The ids of the known characteristics, in order. */
  function Ids(defs: seq<CharacteristicDef>): (r: seq<int>)
    ensures |r| == |defs|
  {
    seq(|defs|, k requires 0 <= k < |defs| => defs[k].id)
  }

  /** No two known characteristics share an id. */
  predicate DistinctIds(defs: seq<CharacteristicDef>) {
    UniqueIds(Ids(defs))
  }

  lemma DistinctIdsMeaning(defs: seq<CharacteristicDef>)
    ensures DistinctIds(defs) <==> forall i, j :: 0 <= i < j < |defs| ==> defs[i].id != defs[j].id
  {
    var ids := Ids(defs);
    assert forall k :: 0 <= k < |defs| ==> ids[k] == defs[k].id;
  }

  /** The id -> name dictionary of the known characteristics, later ones overriding earlier ones. */
  function NameById(defs: seq<CharacteristicDef>): (m: map<int, string>)
    ensures m.Keys == set k | 0 <= k < |defs| :: defs[k].id
  {
    if defs == [] then map[]
    else
      var init := defs[..|defs| - 1];
      var m := NameById(init);
      assert forall k :: 0 <= k < |init| ==> init[k] == defs[k];
      m[defs[|defs| - 1].id := defs[|defs| - 1].name]
  }

  /** With unique ids, the dictionary maps every known id to its own name. */
  lemma {:induction false} NameByIdLookup(defs: seq<CharacteristicDef>)
    requires DistinctIds(defs)
    ensures forall k :: 0 <= k < |defs| ==> NameById(defs)[defs[k].id] == defs[k].name
  {
    if defs != [] {
      var init := defs[..|defs| - 1];
      DistinctIdsMeaning(defs);
      DistinctIdsMeaning(init);
      assert DistinctIds(init) by {
        assert forall k :: 0 <= k < |init| ==> init[k] == defs[k];
      }
      NameByIdLookup(init);
      forall k | 0 <= k < |defs| - 1
        ensures NameById(defs)[defs[k].id] == defs[k].name
      {
        assert defs[k].id != defs[|defs| - 1].id;
        assert init[k] == defs[k];
      }
    }
  }

  /** `characteristics.ToDictionary(c => c.Id, c => c.Name)`: `None` is the exception raised on a repeated id. */
  method ToDictionary(defs: seq<CharacteristicDef>) returns (r: Option<map<int, string>>)
    ensures r.None? <==> !DistinctIds(defs)
    ensures r.Some? ==> r.value == NameById(defs)
  {
    var dict: map<int, string> := map[];
    for i := 0 to |defs|
      invariant DistinctIds(defs[..i])
      invariant dict == NameById(defs[..i])
    {
      var d := defs[i];
      assert defs[..i + 1][..i] == defs[..i];
      DistinctIdsMeaning(defs[..i]);
      DistinctIdsMeaning(defs[..i + 1]);
      DistinctIdsMeaning(defs);
      if d.id in dict {
        var j :| 0 <= j < i && defs[..i][j].id == d.id;
        assert defs[j].id == defs[i].id;
        return None;
      }
      dict := dict[d.id := d.name];
      assert DistinctIds(defs[..i + 1]) by {
        forall j | 0 <= j < i
          ensures defs[j].id != d.id
        {
          assert defs[..i][j] == defs[j];
        }
      }
    }
    assert defs[..|defs|] == defs;
    return Some(dict);
  }

  /** `string.IsNullOrWhiteSpace(valeur)` fails: the characteristic gets a label. */
  predicate HasValue(ch: EkCharacteristic) {
    !IsBlank(ch.value)
  }

  /** The name of a characteristic: looked up by id, or "Inconnu (id)". */
  function CharacteristicName(id: int, dict: map<int, string>): string {
    if id in dict then dict[id] else "Inconnu (" + IntToString(id) + ")"
  }

  /** `$"{nomCarac} ({valeur})"`. */
  function Label(ch: EkCharacteristic, dict: map<int, string>): string {
    CharacteristicName(ch.refId, dict) + " (" + ch.value + ")"
  }

  /** The labels of a component: one per characteristic with a value, in order. */
  function Labels(chars: seq<EkCharacteristic>, dict: map<int, string>): (r: seq<string>)
    ensures |r| == |Filter(chars, HasValue)|
  {
    var kept := Filter(chars, HasValue);
    seq(|kept|, k requires 0 <= k < |kept| => Label(kept[k], dict))
  }

  /** The entry of one component. */
  function Entry(c: EkComponent, dict: map<int, string>): Logiciel {
    Logiciel(c.name, Labels(c.characteristics, dict))
  }

  /** The entries of the software components, in input order. */
  function Entries(comps: seq<EkComponent>, dict: map<int, string>): (r: seq<Logiciel>)
    ensures |r| == |Filter(comps, IsSoftware)|
  {
    var software := Filter(comps, IsSoftware);
    seq(|software|, k requires 0 <= k < |software| => Entry(software[k], dict))
  }

  /** One more characteristic adds its label exactly when its value is not blank. */
  lemma LabelsSnoc(chars: seq<EkCharacteristic>, ch: EkCharacteristic, dict: map<int, string>)
    ensures Labels(chars + [ch], dict) == Labels(chars, dict) + (if HasValue(ch) then [Label(ch, dict)] else [])
  {
    FilterSnoc(chars, ch, HasValue);
  }

  /** One more component adds its entry exactly when it is software; repeated names are kept. */
  lemma EntriesSnoc(comps: seq<EkComponent>, c: EkComponent, dict: map<int, string>)
    ensures Entries(comps + [c], dict) == Entries(comps, dict) + (if IsSoftware(c) then [Entry(c, dict)] else [])
  {
    FilterSnoc(comps, c, IsSoftware);
  }

  /** The inner loop: the labels of one component's characteristics. */
  method CollectLabels(chars: seq<EkCharacteristic>, dict: map<int, string>) returns (caracteristiques: seq<string>)
    ensures caracteristiques == Labels(chars, dict)
  {
    caracteristiques := [];
    for i := 0 to |chars|
      invariant caracteristiques == Labels(chars[..i], dict)
    {
      var caract := chars[i];
      LabelsSnoc(chars[..i], caract, dict);
      assert chars[..i + 1] == chars[..i] + [caract];
      if !IsBlank(caract.value) {
        var nomCarac := if caract.refId in dict then dict[caract.refId] else "Inconnu (" + IntToString(caract.refId) + ")";
        caracteristiques := caracteristiques + [nomCarac + " (" + caract.value + ")"];
      }
    }
    assert chars[..|chars|] == chars;
  }

  /** The outer loop: one entry per software component. */
  method CollectEntries(comps: seq<EkComponent>, dict: map<int, string>) returns (logiciels: seq<Logiciel>)
    ensures logiciels == Entries(comps, dict)
  {
    logiciels := [];
    for i := 0 to |comps|
      invariant logiciels == Entries(comps[..i], dict)
    {
      var item := comps[i];
      EntriesSnoc(comps[..i], item, dict);
      assert comps[..i + 1] == comps[..i] + [item];
      if item.classId != "1" {
        continue;
      }
      var caracteristiques := CollectLabels(item.characteristics, dict);
      logiciels := logiciels + [Logiciel(item.name, caracteristiques)];
    }
    assert comps[..|comps|] == comps;
  }

  /** The sort key, `NOM_APPLI`. */
  function NomAppli(l: Logiciel): string {
    l.nomAppli
  }

  /**
   * `GetLogicielsAvecCaracteristiques`. `authenticated` is the answer of the
   * login, `defs` the known characteristics (empty when their fetch fails),
   * `components` the parsed components array, `None` when parsing raised.
   */
  method GetLogicielsAvecCaracteristiques(authenticated: bool, defs: seq<CharacteristicDef>,
                                          components: Option<seq<EkComponent>>)
    returns (answer: Answer<seq<Logiciel>>)
    ensures !authenticated <==> answer.Unauthorized?
    ensures authenticated && (!DistinctIds(defs) || components.None?) <==> answer.ServerError?
    ensures answer.Ok? ==>
              && multiset(answer.body) == multiset(Entries(components.value, NameById(defs)))
              && SortedBy(answer.body, NomAppli)
              && forall v :: WithKey(answer.body, NomAppli, v) == WithKey(Entries(components.value, NameById(defs)), NomAppli, v)
  {
    if !authenticated {
      return Unauthorized;
    }
    var characDict := ToDictionary(defs);
    if characDict.None? {
      return ServerError;
    }
    if components.None? {
      return ServerError;
    }
    var logiciels := CollectEntries(components.value, characDict.value);
    var sorted := SortBy(logiciels, NomAppli);
    forall v
      ensures WithKey(sorted, NomAppli, v) == WithKey(logiciels, NomAppli, v)
    {
      SortByStable(logiciels, NomAppli, v);
    }
    return Ok(sorted);
  }

  /** A known id is named by its own characteristic; an unknown one is "Inconnu (id)". */
  lemma CharacteristicNames(defs: seq<CharacteristicDef>, id: int)
    requires DistinctIds(defs)
    ensures forall k :: 0 <= k < |defs| && defs[k].id == id ==> CharacteristicName(id, NameById(defs)) == defs[k].name
    ensures (forall k :: 0 <= k < |defs| ==> defs[k].id != id) ==>
              CharacteristicName(id, NameById(defs)) == "Inconnu (" + IntToString(id) + ")"
  {
    NameByIdLookup(defs);
  }

  /** A component whose characteristics are all blank is listed with no label. */
  lemma BlankValuesGiveNoLabel(chars: seq<EkCharacteristic>, dict: map<int, string>)
    requires forall k :: 0 <= k < |chars| ==> IsBlank(chars[k].value)
    ensures Labels(chars, dict) == []
  {
    var kept := Filter(chars, HasValue);
    if kept != [] {
      FilterMember(chars, HasValue, kept[0]);
    }
  }
}
