/**
 * The records both registries hand to the reconciliation code, once their
 * JSON has been read: an absent or null string is "" and an absent or null
 * integer 0, which is what the `?.ToString() ?? ""` and `?.ToObject<int>() ?? 0`
 * chains of the controllers produce. Also the remote calls the code issues.
 */
module Records {

  /** One element of a component's `characteristics` array. */
  datatype EkCharacteristic = EkCharacteristic(
    name: string,       // "name"
    valueText: string,  // "characteristicValue"."value"
    valueId: int,       // "characteristicValue"."id"
    id: int,            // "id"
    value: string,      // "value", read by the Ekialis report
    refId: int)         // "characteristic"."id", read by the Ekialis report

  /** One element of the Ekialis components array; `classId` is "componentClass"."id" as text. */
  datatype EkComponent = EkComponent(
    classId: string,
    id: int,
    name: string,
    color: string,
    characteristics: seq<EkCharacteristic>)

  /** Only components of class "1" are software. */
  predicate IsSoftware(c: EkComponent) {
    c.classId == "1"
  }

  /** A SharePoint list item as `GetSelectedFieldsAsync` returns it: field name -> text. */
  type SpItem = map<string, string>

  /** The flattened component of Models/EkialisModels.cs, in the declaration order of its properties. */
  datatype ComponentFlat = ComponentFlat(
    id: int,
    name: string,
    icon: string,
    color: string,
    componentClassId: int,
    componentClassName: string,
    componentStatusId: int,
    componentStatusName: string,
    company: int,
    characteristicsCount: int,
    sourceRelationsCount: int)

  /**
   * A remote write. `software` in the two characteristic calls is the
   * normalised name of the component the call is made for; it is not sent.
   */
  datatype Call =
    | AddEkialisItem(name: string, fields: SpItem)                       // AddItemToEkialisAsync
    | UpdateCharacteristic(software: string, characteristic: string, valueId: int,
                           value: string, componentId: int, characteristicId: int)
    | AddCharacteristic(software: string, componentId: int, characteristic: string, value: string)
    | SetColor(componentId: int, color: string)                          // UpdateComponentColorAsync
    | AddSharePointItem(name: string, characteristics: map<string, string>) // AddItemToSharePointAsync

  /**
   * What one phase reads from both registries, or the exception raised on the
   * way: parsing the components array, converting or indexing a field of one
   * of its elements (an `id` that is null, not an integer or outside 32 bits;
   * an element that is not an object), or reading the SharePoint list. A
   * failed Ekialis read answers "[]", so it arrives as no components.
   */
  datatype Fetch = Fetched(components: seq<EkComponent>, items: seq<SpItem>) | FetchRaised

  /** The HTTP answer of a controller action: 200 with a body, 401, 400, or 500. */
  datatype Answer<T> = Ok(body: T) | Unauthorized | BadRequest | ServerError
}
