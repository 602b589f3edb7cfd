/**
 * The data handling of Services/SharePointRestService.cs: the projection of
 * list items onto the configured fields (`GetSelectedFieldsAsync`), the
 * property filter of `GetListItemsAsync`, and the payload and failure
 * short-circuits of `AddItemToSharePointAsync`. What the SharePoint server
 * answers is a parameter of each operation.
 */
module SharePointRestService {
  import opened Text
  import opened Collections
  import opened FieldMapping
  import opened Records

  // ================================================== GetSelectedFieldsAsync

  /** Every piece of a list, trimmed. */
  function TrimAll(parts: seq<string>): (r: seq<string>)
    ensures |r| == |parts|
  {
    seq(|parts|, k requires 0 <= k < |parts| => Trim(parts[k]))
  }

  /**
   * The configured field names: the list split on ',' with each name
   * trimmed. `None` is the exception raised, before any request, for an
   * absent or blank list.
   */
  function SelectedFields(fieldList: Option<string>): (r: Option<seq<string>>)
    ensures r.None? <==> fieldList.None? || IsBlank(fieldList.value)
  {
    if fieldList.None? || IsBlank(fieldList.value) then None
    else Some(TrimAll(Split(fieldList.value, ',')))
  }

  /** One name per comma-separated piece, none holding a comma, none with white space at an end. */
  lemma SelectedFieldsMeaning(fieldList: string)
    requires !IsBlank(fieldList)
    ensures var fs := SelectedFields(Some(fieldList)).value;
      && |fs| == |Split(fieldList, ',')|
      && (forall k :: 0 <= k < |fs| ==> ',' !in fs[k] && Trim(fs[k]) == fs[k])
      && Join(",", Split(fieldList, ',')) == fieldList
  {
    var parts := Split(fieldList, ',');
    var fs := SelectedFields(Some(fieldList)).value;
    forall k | 0 <= k < |fs|
      ensures ',' !in fs[k] && Trim(fs[k]) == fs[k]
    {
      TrimIdempotent(parts[k]);
      assert fs[k] == Trim(parts[k]);
      assert forall i :: 0 <= i < |fs[k]| ==> fs[k][i] in parts[k] by {
        TrimSubsequence(parts[k]);
      }
    }
    JoinSplit(fieldList, ',');
  }

  /** One result item: every selected field, with "" for a field the item lacks. */
  function Project(item: map<string, string>, fields: seq<string>): (r: SpItem)
  {
    if fields == [] then map[]
    else
      var f := fields[|fields| - 1];
      Project(item, fields[..|fields| - 1])[f := if f in item then item[f] else ""]
  }

  /** A projected item has exactly the selected keys, each with the item's value or "". */
  lemma {:induction false} ProjectMeaning(item: map<string, string>, fields: seq<string>)
    ensures Project(item, fields).Keys == set f | f in fields
    ensures forall f :: f in fields ==> Project(item, fields)[f] == (if f in item then item[f] else "")
  {
    if fields != [] {
      var init := fields[..|fields| - 1];
      ProjectMeaning(item, init);
      assert fields == init + [fields[|fields| - 1]];
    }
  }

  /** What the list endpoint answered: a failure status, or a body whose `d.results` may be absent. */
  datatype ItemsResponse = NotSuccess | Success(results: Option<seq<map<string, string>>>)

  /** The projection of every result item, in order. */
  function ProjectAll(items: seq<map<string, string>>, fields: seq<string>): (r: seq<SpItem>)
    ensures |r| == |items|
  {
    if items == [] then []
    else ProjectAll(items[..|items| - 1], fields) + [Project(items[|items| - 1], fields)]
  }

  /** `ProjectAll` projects each item at its own position. */
  lemma {:induction false} ProjectAllPointwise(items: seq<map<string, string>>, fields: seq<string>)
    ensures forall k :: 0 <= k < |items| ==> ProjectAll(items, fields)[k] == Project(items[k], fields)
  {
    if items != [] {
      ProjectAllPointwise(items[..|items| - 1], fields);
    }
  }

  /** The inner loop of `GetSelectedFieldsAsync`: one result item's dictionary. */
  method ProjectItem(item: map<string, string>, selectedFields: seq<string>) returns (dict: SpItem)
    ensures dict == Project(item, selectedFields)
  {
    dict := map[];
    for j := 0 to |selectedFields|
      invariant dict == Project(item, selectedFields[..j])
    {
      assert selectedFields[..j + 1][..j] == selectedFields[..j];
      var field := selectedFields[j];
      dict := dict[field := if field in item then item[field] else ""];
    }
    assert selectedFields[..|selectedFields|] == selectedFields;
  }

  /**
   * `GetSelectedFieldsAsync`. `None` is the exception for a blank field list;
   * a failure status or a body without results gives the empty list.
   */
  method GetSelectedFields(fieldList: Option<string>, response: ItemsResponse) returns (r: Option<seq<SpItem>>)
    ensures r.None? <==> SelectedFields(fieldList).None?
    ensures r.Some? && (response.NotSuccess? || response.results.None?) ==> r.value == []
    ensures r.Some? && response.Success? && response.results.Some? ==>
              r.value == ProjectAll(response.results.value, SelectedFields(fieldList).value)
  {
    var selected := SelectedFields(fieldList);
    if selected.None? {
      return None;
    }
    var selectedFields := selected.value;
    var results: seq<SpItem> := [];
    if response.Success? && response.results.Some? {
      var items := response.results.value;
      for i := 0 to |items|
        invariant results == ProjectAll(items[..i], selectedFields)
      {
        assert items[..i + 1][..i] == items[..i];
        var dict := ProjectItem(items[i], selectedFields);
        results := results + [dict];
      }
      assert items[..|items|] == items;
    }
    return Some(results);
  }

  // ====================================================== GetListItemsAsync

  /** One JSON property of a list item, its value already rendered as text. */
  datatype Property = Property(name: string, value: string)

  /** Metadata properties are dropped: those starting with "__", and "odata.type". */
  predicate KeepProperty(name: string) {
    !StartsWith(name, "__") && name != "odata.type"
  }

  /** The dictionary of one list item: its kept properties, a later one of the same name winning. */
  function KeptProperties(props: seq<Property>): (r: map<string, string>)
    ensures forall n :: n in r ==> KeepProperty(n)
  {
    if props == [] then map[]
    else
      var p := props[|props| - 1];
      var m := KeptProperties(props[..|props| - 1]);
      if KeepProperty(p.name) then m[p.name := p.value] else m
  }

  /** The keys are exactly the kept property names. */
  lemma {:induction false} KeptPropertiesKeys(props: seq<Property>)
    ensures KeptProperties(props).Keys == set p | p in props && KeepProperty(p.name) :: p.name
  {
    if props != [] {
      var init := props[..|props| - 1];
      KeptPropertiesKeys(init);
      assert props == init + [props[|props| - 1]];
    }
  }

  /** What the items endpoint answered. */
  datatype ListResponse = ListNotSuccess | ListSuccess(results: Option<seq<seq<Property>>>)

  /** The filtered dictionaries of every result item, in order. */
  function KeptAll(items: seq<seq<Property>>): (r: seq<map<string, string>>)
    ensures |r| == |items|
  {
    if items == [] then []
    else KeptAll(items[..|items| - 1]) + [KeptProperties(items[|items| - 1])]
  }

  /** `GetListItemsAsync`: a failure status or a body without results gives the empty list. */
  method GetListItems(response: ListResponse) returns (items: seq<map<string, string>>)
    ensures response.ListNotSuccess? || response.results.None? ==> items == []
    ensures response.ListSuccess? && response.results.Some? ==> items == KeptAll(response.results.value)
  {
    items := [];
    if response.ListNotSuccess? || response.results.None? {
      return;
    }
    var results := response.results.value;
    for i := 0 to |results|
      invariant items == KeptAll(results[..i])
    {
      assert results[..i + 1][..i] == results[..i];
      var props := results[i];
      var itemDict := map[];
      for j := 0 to |props|
        invariant itemDict == KeptProperties(props[..j])
      {
        assert props[..j + 1][..j] == props[..j];
        var prop := props[j];
        if !StartsWith(prop.name, "__") && prop.name != "odata.type" {
          itemDict := itemDict[prop.name := prop.value];
        }
      }
      assert props[..|props|] == props;
      items := items + [itemDict];
    }
    assert results[..|results|] == results;
  }

  /** No metadata property survives, and every other property does. */
  lemma NoMetadataKept(props: seq<Property>, n: string)
    ensures n in KeptProperties(props) ==> !StartsWith(n, "__") && n != "odata.type"
    ensures (exists p :: p in props && p.name == n) && KeepProperty(n) ==> n in KeptProperties(props)
  {
    KeptPropertiesKeys(props);
  }

  // ================================================= AddItemToSharePointAsync

  /** The body POSTed to the list: its `__metadata.type` and its fields. */
  datatype Payload = Payload(itemType: string, fields: map<string, string>)

  /** The SharePoint columns fed by the characteristics `seen` of `chars`. */
  function MappedOver(chars: map<string, string>, seen: set<string>): map<string, string> {
    map f | f in SharePointToEkialis && SharePointToEkialis[f] in seen && SharePointToEkialis[f] in chars
      :: chars[SharePointToEkialis[f]]
  }

  /** The payload's fields: Title, then each characteristic that has a column, under that column. */
  function PayloadFields(name: string, chars: map<string, string>): map<string, string> {
    MappedOver(chars, chars.Keys)["Title" := name]
  }

  /** `fields` is the payload built once the characteristics `seen` have been visited. */
  ghost predicate FilledOver(name: string, chars: map<string, string>, seen: set<string>, fields: map<string, string>) {
    fields == MappedOver(chars, seen)["Title" := name]
  }

  /** Visiting one more characteristic writes its column when it has one, and nothing otherwise. */
  lemma FillStep(name: string, chars: map<string, string>, seen: set<string>, k: string, fields: map<string, string>)
    requires k in chars && FilledOver(name, chars, seen, fields)
    ensures var f := GetSharePointField(k);
      FilledOver(name, chars, seen + {k}, if f.Some? && f.value != [] then fields[f.value := chars[k]] else fields)
  {
    TablesAreInverse();
    var f := GetSharePointField(k);
    if f.Some? {
      assert f.value != "Title";
      assert MappedOver(chars, seen + {k}) == MappedOver(chars, seen)[f.value := chars[k]];
    } else {
      assert MappedOver(chars, seen + {k}) == MappedOver(chars, seen);
    }
  }

  /** One turn of the loop that fills the payload: the characteristic's value goes under its column, if it has one. */
  method WriteField(name: string, chars: map<string, string>, ghost seen: set<string>, key: string, fields: map<string, string>)
    returns (next: map<string, string>)
    requires key in chars && FilledOver(name, chars, seen, fields)
    ensures FilledOver(name, chars, seen + {key}, next)
  {
    FillStep(name, chars, seen, key, fields);
    next := fields;
    var sharePointField := GetSharePointField(key);
    if sharePointField.Some? && sharePointField.value != [] {
      next := next[sharePointField.value := chars[key]];
    }
  }

  /** The loop that fills the payload: Title first, then each characteristic that has a column. */
  method BuildFields(name: string, chars: map<string, string>) returns (fields: map<string, string>)
    ensures fields == PayloadFields(name, chars)
  {
    fields := map["Title" := name];
    var todo := chars.Keys;
    ghost var seen: set<string> := {};
    assert MappedOver(chars, seen) == map[];
    while todo != {}
      invariant seen + todo == chars.Keys && seen !! todo
      invariant FilledOver(name, chars, seen, fields)
      decreases |todo|
    {
      var key :| key in todo;
      fields := WriteField(name, chars, seen, key, fields);
      VisitStep(seen, todo, chars.Keys, key);
      seen := seen + {key};
      todo := todo - {key};
    }
  }

  /** How the call ended once the body was built: the POST answered success, a failure, or raised. */
  datatype PostOutcome = Posted | Refused | Raised

  /**
   * `AddItemToSharePointAsync`. `itemType` and `digest` are what the two
   * preliminary requests returned ("" when they failed). An empty item type
   * or digest answers false without a POST; otherwise the payload is sent
   * and the call succeeds exactly when the POST does.
   */
  method AddItemToSharePoint(name: string, chars: map<string, string>, itemType: string, digest: string, post: PostOutcome)
    returns (success: bool, sent: Option<Payload>)
    ensures itemType == [] || digest == [] ==> !success && sent == None
    ensures itemType != [] && digest != [] ==>
              sent == Some(Payload(itemType, PayloadFields(name, chars))) && (success <==> post == Posted)
  {
    if itemType == [] {
      return false, None;
    }
    var fields := BuildFields(name, chars);
    if digest == [] {
      return false, None;
    }
    sent := Some(Payload(itemType, fields));
    success := post == Posted;
  }

  /**
   * The payload holds Title and, for every characteristic with a SharePoint
   * column, its value under that column; nothing else.
   */
  lemma PayloadMeaning(name: string, chars: map<string, string>)
    ensures "Title" in PayloadFields(name, chars) && PayloadFields(name, chars)["Title"] == name
    ensures forall k :: k in chars && IsCharacteristicMapped(k) ==>
              EkialisToSharePoint[k] in PayloadFields(name, chars) && PayloadFields(name, chars)[EkialisToSharePoint[k]] == chars[k]
    ensures forall f :: f in PayloadFields(name, chars) ==> f == "Title" || IsFieldMapped(f)
  {
    TablesAreInverse();
  }

  /** Characteristics without a column are silently dropped: with none mapped, only Title is written. */
  lemma UnmappedAreDropped(name: string, chars: map<string, string>)
    requires forall k :: k in chars ==> !IsCharacteristicMapped(k)
    ensures PayloadFields(name, chars) == map["Title" := name]
  {
    TablesAreInverse();
    assert MappedOver(chars, chars.Keys) == map[];
  }
}
