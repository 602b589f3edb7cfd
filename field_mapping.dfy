/**
 * The static SharePoint field <-> Ekialis characteristic table
 * (Models/FieldMapping.cs). The tables are constants; the predicates consult
 * the dictionaries only, never the two lists.
 */
module FieldMapping {
  import opened Collections

  const DomaineMetier: string := "GEN-Domaine métier [Pôle NGE]"
  const Referent: string := "ACTEUR-Resp.Appli [Référent]"
  const Description: string := "GEN-Description [Rôle]"
  const Editeur: string := "GEN-Editeur"

  /** SharePoint column -> Ekialis characteristic; field_9 has no counterpart. */
  const SharePointToEkialis: map<string, string> :=
    map["field_1" := DomaineMetier, "field_2" := Referent, "field_3" := Description, "field_6" := Editeur]

  /** Ekialis characteristic -> SharePoint column. */
  const EkialisToSharePoint: map<string, string> :=
    map[DomaineMetier := "field_1", Referent := "field_2", Description := "field_3", Editeur := "field_6"]

  const MappedSharePointFields: seq<string> := ["Title", "field_1", "field_2", "field_3", "field_6", "field_9"]

  const MappedEkialisCharacteristics: seq<string> := [DomaineMetier, Referent, Description, Editeur]

  function IsFieldMapped(sharePointField: string): (r: bool)
    ensures r <==> sharePointField in {"field_1", "field_2", "field_3", "field_6"}
  {
    sharePointField in SharePointToEkialis
  }

  function IsCharacteristicMapped(characteristic: string): (r: bool)
    ensures r <==> characteristic in {DomaineMetier, Referent, Description, Editeur}
  {
    characteristic in EkialisToSharePoint
  }

  /** The characteristic a SharePoint column feeds; None (C# null) when the column is unmapped. */
  function GetEkialisCharacteristic(sharePointField: string): (r: Option<string>)
    ensures r.Some? <==> IsFieldMapped(sharePointField)
    ensures r.Some? ==> IsCharacteristicMapped(r.value) && EkialisToSharePoint[r.value] == sharePointField
    ensures r.Some? ==> r.value != []
  {
    if sharePointField in SharePointToEkialis then Some(SharePointToEkialis[sharePointField]) else None
  }

  /** The SharePoint column a characteristic is written to; None (C# null) when it is unmapped. */
  function GetSharePointField(characteristic: string): (r: Option<string>)
    ensures r.Some? <==> IsCharacteristicMapped(characteristic)
    ensures r.Some? ==> IsFieldMapped(r.value) && SharePointToEkialis[r.value] == characteristic
  {
    if characteristic in EkialisToSharePoint then Some(EkialisToSharePoint[characteristic]) else None
  }

  /** The lookups are mutual inverses, in both directions. */
  lemma LookupsAreInverse(f: string, c: string)
    ensures IsFieldMapped(f) ==> GetSharePointField(GetEkialisCharacteristic(f).value) == Some(f)
    ensures IsCharacteristicMapped(c) ==> GetEkialisCharacteristic(GetSharePointField(c).value) == Some(c)
  {
  }

  /** Each table undoes the other, stated over every key. */
  lemma TablesAreInverse()
    ensures forall f :: f in SharePointToEkialis ==>
              SharePointToEkialis[f] in EkialisToSharePoint && EkialisToSharePoint[SharePointToEkialis[f]] == f
    ensures forall c :: c in EkialisToSharePoint ==>
              EkialisToSharePoint[c] in SharePointToEkialis && SharePointToEkialis[EkialisToSharePoint[c]] == c
  {
  }

  /** The mapping has exactly the four pairs field_1, field_2, field_3, field_6. */
  lemma FourPairs()
    ensures SharePointToEkialis.Keys == {"field_1", "field_2", "field_3", "field_6"}
    ensures |SharePointToEkialis| == 4 && |EkialisToSharePoint| == 4
  {
  }

  /** Each table's values are exactly the other table's keys. */
  lemma ValuesAreKeys()
    ensures EkialisToSharePoint.Keys == SharePointToEkialis.Values
    ensures SharePointToEkialis.Keys == EkialisToSharePoint.Values
  {
    TablesAreInverse();
    forall v | v in SharePointToEkialis.Values ensures v in EkialisToSharePoint {
      var k :| k in SharePointToEkialis && SharePointToEkialis[k] == v;
    }
    forall v | v in EkialisToSharePoint.Values ensures v in SharePointToEkialis {
      var k :| k in EkialisToSharePoint && EkialisToSharePoint[k] == v;
    }
    forall c | c in EkialisToSharePoint ensures c in SharePointToEkialis.Values {
      assert SharePointToEkialis[EkialisToSharePoint[c]] == c;
    }
    forall f | f in SharePointToEkialis ensures f in EkialisToSharePoint.Values {
      assert EkialisToSharePoint[SharePointToEkialis[f]] == f;
    }
  }

  /** "Title" and "field_9" are listed as mapped fields, yet the predicate says they are not mapped. */
  lemma ListedButNotMapped()
    ensures "Title" in MappedSharePointFields && !IsFieldMapped("Title")
    ensures "field_9" in MappedSharePointFields && !IsFieldMapped("field_9")
    ensures forall f :: f in MappedSharePointFields && IsFieldMapped(f) ==> f in SharePointToEkialis
  {
  }

  /** The list of mapped characteristics holds exactly the keys of the reverse table, once each. */
  lemma CharacteristicListIsKeySet()
    ensures (set c | c in MappedEkialisCharacteristics) == EkialisToSharePoint.Keys
    ensures |MappedEkialisCharacteristics| == |EkialisToSharePoint|
    ensures forall c :: c in MappedEkialisCharacteristics <==> IsCharacteristicMapped(c)
  {
  }
}
