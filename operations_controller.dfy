/**
 * Controllers/OperationsController.cs: the four one-way operations (each
 * behind the Ekialis login and a handler that answers 500 on any exception),
 * and the import of an Excel sheet into the SharePoint list.
 */
module OperationsController {
  import opened Text
  import opened Collections
  import opened FieldMapping
  import opened Records
  import opened Snapshots
  import opened Phases
  import opened SharePointRestService

  // ====================================================== sharepoint-vers-ekialis

  /** One entry of `logicielsAjoutes`: the title and every other field of the item. */
  datatype Added = Added(nom: string, champs: map<string, string>)

  /** The fields of an item other than Title. */
  function WithoutTitle(item: SpItem): map<string, string> {
    map k | k in item && k != "Title" :: item[k]
  }

  /** `logicielsAjoutes`: one entry per missing item, in order, whether or not its add succeeded. */
  function AddedList(missing: seq<SpItem>): (r: seq<Added>)
    ensures |r| == |missing|
  {
    seq(|missing|, k requires 0 <= k < |missing| => Added(RawTitle(missing[k]), WithoutTitle(missing[k])))
  }

  /** The response of SharePoint -> Ekialis. */
  datatype ToEkialisResponse = ToEkialisResponse(summary: AddSummary, logicielsAjoutes: seq<Added>)

  /**
   * `SharePointVersEkialis`. `f` is what the two reads returned; a read that
   * raises (including the exception for a blank field list) answers 500.
   */
  method SharePointVersEkialis(authenticated: bool, f: Fetch, accept: nat -> bool)
    returns (answer: Answer<ToEkialisResponse>, calls: seq<Call>)
    ensures !authenticated ==> answer == Unauthorized && calls == []
    ensures authenticated && f.FetchRaised? ==> answer == ServerError && calls == []
    ensures authenticated && f.Fetched? ==>
              var missing := MissingInEkialis(f.components, f.items);
              && AddsListed(missing, calls)
              && answer == Ok(ToEkialisResponse(ToEkialisCounters(f.components, f.items, accept), AddedList(missing)))
  {
    if !authenticated {
      return Unauthorized, [];
    }
    if f.FetchRaised? {
      return ServerError, [];
    }
    var summary;
    summary, calls := AddMissingToEkialis(f.components, f.items, accept);
    var logicielsManquants := MissingInEkialis(f.components, f.items);
    answer := Ok(ToEkialisResponse(summary, AddedList(logicielsManquants)));
  }

  /**
   * Each reported entry names its item by its raw title and carries every
   * other field of the item; a failed add is reported like a successful one.
   */
  lemma AddedListMeaning(comps: seq<EkComponent>, items: seq<SpItem>, k: nat)
    requires k < |MissingInEkialis(comps, items)|
    ensures var item := MissingInEkialis(comps, items)[k];
      var entry := AddedList(MissingInEkialis(comps, items))[k];
      && "Title" in item
      && entry.nom == item["Title"]
      && entry.champs.Keys + {"Title"} == item.Keys
      && "Title" !in entry.champs
      && (forall f :: f in entry.champs ==> entry.champs[f] == item[f])
  {
    var missing := MissingInEkialis(comps, items);
    var item := missing[k];
    MissingInEkialisIff(comps, items, item);
  }

  // ====================================================== ekialis-vers-sharepoint

  /** One entry of `logicielsAjoutes`: the lower-cased name and the characteristics sent. */
  datatype Sent = Sent(nom: string, caracteristiques: map<string, string>)

  /** The report of a list of SharePoint add calls, in the same order. */
  function SentList(calls: seq<Call>): (r: seq<Sent>)
    ensures |r| == |calls|
  {
    seq(|calls|, k requires 0 <= k < |calls| =>
      match calls[k]
      case AddSharePointItem(name, chars) => Sent(name, chars)
      case _ => Sent([], map[]))
  }

  /** The response of Ekialis -> SharePoint. */
  datatype ToSharePointResponse = ToSharePointResponse(summary: AddSummary, logicielsAjoutes: seq<Sent>)

  /** `EkialisVersSharePoint`; `order` is the order in which the missing keys were tried. */
  method EkialisVersSharePoint(authenticated: bool, f: Fetch, accept: nat -> bool)
    returns (answer: Answer<ToSharePointResponse>, calls: seq<Call>, ghost order: seq<string>)
    ensures !authenticated ==> answer == Unauthorized && calls == []
    ensures authenticated && f.FetchRaised? ==> answer == ServerError && calls == []
    ensures authenticated && f.Fetched? ==>
              && multiset(order) == multiset(MissingInSharePoint(f.components, f.items))
              && SendsListed(EkialisCatalogue(f.components), order, calls)
              && answer == Ok(ToSharePointResponse(ToSharePointCounters(f.components, f.items, accept), SentList(calls)))
  {
    order := [];
    if !authenticated {
      return Unauthorized, [], order;
    }
    if f.FetchRaised? {
      return ServerError, [], order;
    }
    var summary, o;
    summary, o, calls := AddMissingToSharePoint(f.components, f.items, accept);
    order := o;
    answer := Ok(ToSharePointResponse(summary, SentList(calls)));
  }

  /**
   * Each reported entry is a missing key with its catalogue entry, and every
   * characteristic of that entry reaches SharePoint under its column.
   */
  lemma TransferWritesEveryCharacteristic(comps: seq<EkComponent>, order: seq<string>, calls: seq<Call>, k: nat)
    requires SendsListed(EkialisCatalogue(comps), order, calls) && k < |calls|
    ensures var cat := EkialisCatalogue(comps);
      var entry := SentList(calls)[k];
      && entry == Sent(order[k], cat[order[k]])
      && forall ch :: ch in entry.caracteristiques ==>
           IsCharacteristicMapped(ch)
           && EkialisToSharePoint[ch] in PayloadFields(entry.nom, entry.caracteristiques)
           && PayloadFields(entry.nom, entry.caracteristiques)[EkialisToSharePoint[ch]] == entry.caracteristiques[ch]
  {
    var cat := EkialisCatalogue(comps);
    assert calls[k] == AddSharePointItem(order[k], cat[order[k]]);
    var entry := SentList(calls)[k];
    CatalogueValuesAreMapped(comps, order[k]);
    PayloadMeaning(entry.nom, entry.caracteristiques);
  }

  // ================================================= synchroniser-caracteristiques

  /** `SynchroniserCaracteristiques`: the characteristic phase behind the login and the 500 handler. */
  method SynchroniserCaracteristiques(authenticated: bool, f: Fetch, accept: nat -> bool)
    returns (answer: Answer<CharSummary>, calls: seq<Call>, ghost order: seq<string>)
    ensures !authenticated ==> answer == Unauthorized && calls == []
    ensures authenticated && f.FetchRaised? ==> answer == ServerError && calls == []
    ensures authenticated && f.Fetched? ==>
              var ek := EkialisRegistry(f.components); var sp := SharePointRegistry(f.items);
              && multiset(order) == multiset(ek.Keys * sp.Keys)
              && multiset(calls) == multiset(Planned(ek, sp))
              && answer == Ok(CharCounters(ek, sp, calls, accept))
  {
    order := [];
    if !authenticated {
      return Unauthorized, [], order;
    }
    if f.FetchRaised? {
      return ServerError, [], order;
    }
    var summary, o;
    summary, o, calls := SyncCharacteristics(f.components, f.items, accept);
    order := o;
    answer := Ok(summary);
  }

  // ====================================================== marquer-obsoletes-rouge

  /** One entry of `logicielsMarques`. */
  datatype Marked = Marked(id: int, nom: string, ancienneCouleur: string, nouvelleCouleur: string)

  /** `logicielsMarques`: every obsolete entry, in order, with its old colour and red as its new one. */
  function MarkedList(obsolete: seq<EkSoftware>): (r: seq<Marked>)
    ensures |r| == |obsolete|
  {
    seq(|obsolete|, k requires 0 <= k < |obsolete| =>
      Marked(obsolete[k].id, obsolete[k].name, obsolete[k].color, Red))
  }

  /** The response of the marking operation. */
  datatype MarkResponse = MarkResponse(summary: MarkSummary, logicielsMarques: seq<Marked>)

  /** `MarquerObsoletesRouge`. */
  method MarquerObsoletesRouge(authenticated: bool, f: Fetch, accept: nat -> bool)
    returns (answer: Answer<MarkResponse>, calls: seq<Call>)
    ensures !authenticated ==> answer == Unauthorized && calls == []
    ensures authenticated && f.FetchRaised? ==> answer == ServerError && calls == []
    ensures authenticated && f.Fetched? ==>
              var obsolete := Obsolete(f.components, f.items);
              && calls == ColorCalls(obsolete)
              && answer == Ok(MarkResponse(MarkCounters(f.components, f.items, accept), MarkedList(obsolete)))
  {
    if !authenticated {
      return Unauthorized, [];
    }
    if f.FetchRaised? {
      return ServerError, [];
    }
    var summary;
    summary, calls := MarkObsoleteRed(f.components, f.items, accept);
    answer := Ok(MarkResponse(summary, MarkedList(Obsolete(f.components, f.items))));
  }

  /**
   * The report lists every obsolete entry as turned red, including those
   * already red, which get no call: the report holds as many entries as
   * there are calls plus entries already red.
   */
  lemma MarkedListCoversAlreadyRed(obsolete: seq<EkSoftware>)
    ensures |MarkedList(obsolete)| == |ColorCalls(obsolete)| + AlreadyRed(obsolete)
    ensures forall k :: 0 <= k < |obsolete| ==>
              MarkedList(obsolete)[k].nouvelleCouleur == Red && MarkedList(obsolete)[k].id == obsolete[k].id
  {
  }

  // ====================================================== ParseExcelFile

  /** `columnMapping`: Excel header -> SharePoint field. */
  const ColumnMapping: map<string, string> := map[
    "APPLICATION" := "Title",
    "APPLICATION " := "Title",
    "FOURNISSEUR" := "field_6",
    "SERVICE/ENTITE" := "field_1",
    "ROLE" := "field_3",
    "PRIX" := "field_8",
    "Référent NGE" := "field_2",
    "Contact Commercial - Nom, Prénom" := "field_13",
    "Contact Commercial - Téléphone" := "field_15",
    "Contact Commercial - Mail" := "field_14",
    "LIEN EDITEUR (Présentation Solution)" := "field_25",
    "Pérénité Solution" := "field_27"]

  /** The headers of the first row: cell position -> trimmed text, for every non-empty cell. */
  function Headers(cells: seq<string>): (r: map<int, string>)
    ensures forall j :: j in r ==> 0 <= j < |cells|
  {
    if cells == [] then map[]
    else
      var j := |cells| - 1;
      var m := Headers(cells[..j]);
      if cells[j] != [] then m[j := Trim(cells[j])] else m
  }

  /** The column the cell at position `j` feeds, if its header is a known one. */
  predicate MappedCell(headers: map<int, string>, j: int) {
    j in headers && headers[j] in ColumnMapping
  }

  /** One data row: SharePoint field -> trimmed cell text, a later cell of the same field winning. */
  function ParseRow(headers: map<int, string>, cells: seq<string>): (r: map<string, string>)
    ensures forall f :: f in r ==> f in ColumnMapping.Values
  {
    if cells == [] then map[]
    else
      var j := |cells| - 1;
      var m := ParseRow(headers, cells[..j]);
      if MappedCell(headers, j) then m[ColumnMapping[headers[j]] := Trim(cells[j])] else m
  }

  /** `hasData`: some cell under a known header is not empty (before trimming). */
  function RowHasData(headers: map<int, string>, cells: seq<string>): bool {
    if cells == [] then false
    else
      var j := |cells| - 1;
      RowHasData(headers, cells[..j]) || (MappedCell(headers, j) && cells[j] != [])
  }

  /** A data row is kept when it has data and a non-empty (trimmed) Title. */
  predicate KeptRow(headers: map<int, string>, cells: seq<string>) {
    RowHasData(headers, cells) && "Title" in ParseRow(headers, cells) && ParseRow(headers, cells)["Title"] != []
  }

  /** The kept data rows, in sheet order. */
  function ParseRows(headers: map<int, string>, rows: seq<seq<string>>): (r: seq<map<string, string>>)
    ensures |r| <= |rows|
  {
    if rows == [] then []
    else
      var last := rows[|rows| - 1];
      ParseRows(headers, rows[..|rows| - 1]) + (if KeptRow(headers, last) then [ParseRow(headers, last)] else [])
  }

  /** The rows the sheet yields: none for an empty sheet, else the kept rows after the header row. */
  function ParseSheet(rows: seq<seq<string>>): (r: seq<map<string, string>>)
    ensures |r| < |rows| || rows == []
  {
    if rows == [] then [] else ParseRows(Headers(rows[0]), rows[1..])
  }

  method ReadHeaders(cells: seq<string>) returns (headers: map<int, string>)
    ensures headers == Headers(cells)
  {
    headers := map[];
    for colIndex := 0 to |cells|
      invariant headers == Headers(cells[..colIndex])
    {
      assert cells[..colIndex + 1][..colIndex] == cells[..colIndex];
      var cellValue := cells[colIndex];
      if cellValue != [] {
        headers := headers[colIndex := Trim(cellValue)];
      }
    }
    assert cells[..|cells|] == cells;
  }

  method ReadRow(headers: map<int, string>, cells: seq<string>) returns (logiciel: map<string, string>, hasData: bool)
    ensures logiciel == ParseRow(headers, cells) && hasData == RowHasData(headers, cells)
  {
    logiciel, hasData := map[], false;
    for colIndex := 0 to |cells|
      invariant logiciel == ParseRow(headers, cells[..colIndex])
      invariant hasData == RowHasData(headers, cells[..colIndex])
    {
      assert cells[..colIndex + 1][..colIndex] == cells[..colIndex];
      var cellValue := cells[colIndex];
      if colIndex in headers && headers[colIndex] in ColumnMapping {
        var sharePointField := ColumnMapping[headers[colIndex]];
        logiciel := logiciel[sharePointField := Trim(cellValue)];
        if cellValue != [] {
          hasData := true;
        }
      }
    }
    assert cells[..|cells|] == cells;
  }

  /**
   * `ParseExcelFile`, on the cell texts of the first worksheet: each row is
   * the list of its cells, in order, each already resolved to its text.
   */
  method ParseExcelFile(rows: seq<seq<string>>) returns (logiciels: seq<map<string, string>>)
    ensures logiciels == ParseSheet(rows)
  {
    logiciels := [];
    if rows == [] {
      return;
    }
    var headers := ReadHeaders(rows[0]);
    for i := 1 to |rows|
      invariant logiciels == ParseRows(headers, rows[1..i])
    {
      assert rows[1..i + 1][..i - 1] == rows[1..i];
      var logiciel, hasData := ReadRow(headers, rows[i]);
      if hasData && "Title" in logiciel && logiciel["Title"] != [] {
        logiciels := logiciels + [logiciel];
      }
    }
    assert rows[1..|rows|] == rows[1..];
  }

  /** Headers are trimmed, so the "APPLICATION " entry of the column table, with its trailing space, never matches. */
  lemma {:induction false} PaddedHeaderNeverMatches(cells: seq<string>)
    ensures forall j :: j in Headers(cells) ==> Headers(cells)[j] != "APPLICATION "
  {
    if cells != [] {
      var j := |cells| - 1;
      PaddedHeaderNeverMatches(cells[..j]);
      TrimMeaning(cells[j]);
      assert IsWhiteSpace("APPLICATION "[|"APPLICATION "| - 1]);
    }
  }

  /** Every kept row has a non-empty Title, and every field of a kept row is a column of the table. */
  lemma {:induction false} ParsedRowsHaveTitle(headers: map<int, string>, rows: seq<seq<string>>)
    ensures forall l :: l in ParseRows(headers, rows) ==>
              "Title" in l && l["Title"] != [] && l.Keys <= ColumnMapping.Values
  {
    if rows != [] {
      ParsedRowsHaveTitle(headers, rows[..|rows| - 1]);
    }
  }

  /** Every value of a parsed row is trimmed. */
  lemma {:induction false} ParsedValuesAreTrimmed(headers: map<int, string>, cells: seq<string>)
    ensures forall f :: f in ParseRow(headers, cells) ==> Trim(ParseRow(headers, cells)[f]) == ParseRow(headers, cells)[f]
  {
    if cells != [] {
      var j := |cells| - 1;
      ParsedValuesAreTrimmed(headers, cells[..j]);
      TrimIdempotent(cells[j]);
    }
  }

  /** `hasData` holds exactly when some cell under a known header is not empty. */
  lemma {:induction false} RowHasDataMeaning(headers: map<int, string>, cells: seq<string>)
    ensures RowHasData(headers, cells) <==> exists j :: 0 <= j < |cells| && MappedCell(headers, j) && cells[j] != []
  {
    if cells != [] {
      var j := |cells| - 1;
      RowHasDataMeaning(headers, cells[..j]);
      if RowHasData(headers, cells[..j]) {
        var i :| 0 <= i < j && MappedCell(headers, i) && cells[..j][i] != [];
        assert cells[i] != [];
      }
      if exists i :: 0 <= i < |cells| && MappedCell(headers, i) && cells[i] != [] {
        var i :| 0 <= i < |cells| && MappedCell(headers, i) && cells[i] != [];
        if i < j {
          assert cells[..j][i] == cells[i];
        }
      }
    }
  }

  /** Every non-empty cell of the first row is a header, under its position, with its trimmed text. */
  lemma {:induction false} HeadersMeaning(cells: seq<string>, j: int)
    ensures j in Headers(cells) <==> 0 <= j < |cells| && cells[j] != []
    ensures j in Headers(cells) ==> Headers(cells)[j] == Trim(cells[j])
  {
    if cells != [] {
      var k := |cells| - 1;
      HeadersMeaning(cells[..k], j);
      if 0 <= j < k {
        assert cells[..k][j] == cells[j];
      }
    }
  }

  /** The cell at position `j` feeds the SharePoint field `f`. */
  predicate Feeds(headers: map<int, string>, j: int, f: string) {
    MappedCell(headers, j) && ColumnMapping[headers[j]] == f
  }

  /** A row holds a field exactly when some cell of the row feeds it. */
  lemma {:induction false} ParseRowKeys(headers: map<int, string>, cells: seq<string>, f: string)
    ensures f in ParseRow(headers, cells) <==> exists j :: 0 <= j < |cells| && Feeds(headers, j, f)
  {
    if cells != [] {
      var k := |cells| - 1;
      ParseRowKeys(headers, cells[..k], f);
      if f in ParseRow(headers, cells) {
        if Feeds(headers, k, f) {
          assert 0 <= k < |cells| && Feeds(headers, k, f);
        } else {
          var j :| 0 <= j < |cells[..k]| && Feeds(headers, j, f);
          assert 0 <= j < |cells| && Feeds(headers, j, f);
        }
      }
      if exists j :: 0 <= j < |cells| && Feeds(headers, j, f) {
        var j :| 0 <= j < |cells| && Feeds(headers, j, f);
        if j < k {
          assert 0 <= j < |cells[..k]| && Feeds(headers, j, f);
        }
      }
    }
  }

  /** A field holds the trimmed text of the last cell that feeds it: later cells win. */
  lemma {:induction false} ParseRowValue(headers: map<int, string>, cells: seq<string>, j: int)
    requires 0 <= j < |cells| && MappedCell(headers, j)
    requires forall i :: j < i < |cells| ==> !Feeds(headers, i, ColumnMapping[headers[j]])
    ensures ColumnMapping[headers[j]] in ParseRow(headers, cells)
    ensures ParseRow(headers, cells)[ColumnMapping[headers[j]]] == Trim(cells[j])
  {
    var k := |cells| - 1;
    if j < k {
      assert !Feeds(headers, k, ColumnMapping[headers[j]]);
      assert cells[..k][j] == cells[j];
      ParseRowValue(headers, cells[..k], j);
    }
  }

  /** The row test of `ParseExcelFile`, as a predicate on the cells. */
  function Kept(headers: map<int, string>): seq<string> -> bool {
    cells => KeptRow(headers, cells)
  }

  /** The parsed rows are exactly the rows with data and a non-empty Title, each parsed, in sheet order. */
  lemma {:induction false} ParseRowsAreKeptRows(headers: map<int, string>, rows: seq<seq<string>>)
    ensures |ParseRows(headers, rows)| == |Filter(rows, Kept(headers))|
    ensures forall k :: 0 <= k < |ParseRows(headers, rows)| ==>
              ParseRows(headers, rows)[k] == ParseRow(headers, Filter(rows, Kept(headers))[k])
  {
    if rows != [] {
      var init, last := rows[..|rows| - 1], rows[|rows| - 1];
      ParseRowsAreKeptRows(headers, init);
      assert rows == init + [last];
      FilterSnoc(init, last, Kept(headers));
    }
  }

  // ================================================= ImportExcelVersSharePoint

  /** `nomLogiciel`: the row's Title, or "" without one. */
  function ImportName(l: map<string, string>): string {
    if "Title" in l then l["Title"] else ""
  }

  /** `champsSharePoint`: the row's fields other than Title whose value is not empty. */
  function ImportFields(l: map<string, string>): map<string, string> {
    map k | k in l && k != "Title" && l[k] != [] :: l[k]
  }

  /** The message recorded for a row without a name. */
  const SkippedRow: string := "Ligne ignorée: APPLICATION vide"

  /** The message recorded for a failed add. */
  function FailedAdd(nom: string): string {
    "Échec de l'ajout: " + nom
  }

  /** The state of the import loop: the calls made, the two counters and the messages. */
  datatype ImportRun = ImportRun(calls: seq<Call>, reussis: nat, echecs: nat, erreurs: seq<string>)

  /**
   * The import loop over rows: a row without a name is a failure without a
   * call; any other is one add call, whose failure is logged by name.
   */
  function RunImport(logiciels: seq<map<string, string>>, accept: nat -> bool): (r: ImportRun)
    ensures r.reussis + r.echecs == |logiciels|
    ensures r.reussis == Accepted(accept, |r.calls|) && |r.calls| <= |logiciels|
    ensures |r.erreurs| == r.echecs
  {
    if logiciels == [] then ImportRun([], 0, 0, [])
    else
      var prev := RunImport(logiciels[..|logiciels| - 1], accept);
      var l := logiciels[|logiciels| - 1];
      var nom := ImportName(l);
      if nom == [] then prev.(echecs := prev.echecs + 1, erreurs := prev.erreurs + [SkippedRow])
      else
        var calls := prev.calls + [AddSharePointItem(nom, ImportFields(l))];
        if accept(|prev.calls|) then prev.(calls := calls, reussis := prev.reussis + 1)
        else prev.(calls := calls, echecs := prev.echecs + 1, erreurs := prev.erreurs + [FailedAdd(nom)])
  }

  /** A row without a name is a failure logged as skipped, and makes no call. */
  lemma SkippedRowMakesNoCall(logiciels: seq<map<string, string>>, l: map<string, string>, accept: nat -> bool)
    requires ImportName(l) == []
    ensures var prev := RunImport(logiciels, accept);
      RunImport(logiciels + [l], accept) == prev.(echecs := prev.echecs + 1, erreurs := prev.erreurs + [SkippedRow])
  {
    assert (logiciels + [l])[..|logiciels|] == logiciels;
  }

  /** A row with a name makes one add call, with its fields; a refused add is a failure logged by name. */
  lemma NamedRowMakesOneCall(logiciels: seq<map<string, string>>, l: map<string, string>, accept: nat -> bool)
    requires ImportName(l) != []
    ensures var prev := RunImport(logiciels, accept);
      var next := RunImport(logiciels + [l], accept);
      && next.calls == prev.calls + [AddSharePointItem(ImportName(l), ImportFields(l))]
      && (accept(|prev.calls|) ==> next == prev.(calls := next.calls, reussis := prev.reussis + 1))
      && (!accept(|prev.calls|) ==>
            next == prev.(calls := next.calls, echecs := prev.echecs + 1, erreurs := prev.erreurs + [FailedAdd(ImportName(l))]))
  {
    assert (logiciels + [l])[..|logiciels|] == logiciels;
  }

  predicate Named(l: map<string, string>) {
    ImportName(l) != []
  }

  /** The import makes exactly one call per named row, and logs one skip per unnamed row. */
  lemma {:induction false} CallsAreNamedRows(logiciels: seq<map<string, string>>, accept: nat -> bool)
    ensures |RunImport(logiciels, accept).calls| == |Filter(logiciels, Named)|
    ensures multiset(RunImport(logiciels, accept).erreurs)[SkippedRow] == |logiciels| - |Filter(logiciels, Named)|
  {
    if logiciels != [] {
      var init := logiciels[..|logiciels| - 1];
      var l := logiciels[|logiciels| - 1];
      assert logiciels == init + [l];
      CallsAreNamedRows(init, accept);
      FilterSnoc(init, l, Named);
      if Named(l) {
        NamedRowMakesOneCall(init, l, accept);
        assert FailedAdd(ImportName(l)) != SkippedRow by {
          assert FailedAdd(ImportName(l))[0] != SkippedRow[0];
        }
      } else {
        SkippedRowMakesNoCall(init, l, accept);
      }
    }
  }

  /** `champsSharePoint` restricted to the fields `seen`. */
  function FieldsSeen(l: map<string, string>, seen: set<string>): map<string, string> {
    map k | k in l && k in seen && k != "Title" && l[k] != [] :: l[k]
  }

  /** The field loop of one row. */
  method CollectImportFields(logiciel: map<string, string>) returns (champsSharePoint: map<string, string>)
    ensures champsSharePoint == ImportFields(logiciel)
  {
    champsSharePoint := map[];
    var todo := logiciel.Keys;
    ghost var seen: set<string> := {};
    while todo != {}
      invariant seen + todo == logiciel.Keys && seen !! todo
      invariant champsSharePoint == FieldsSeen(logiciel, seen)
      decreases |todo|
    {
      var key :| key in todo;
      if key != "Title" && logiciel[key] != [] {
        champsSharePoint := champsSharePoint[key := logiciel[key]];
      }
      assert FieldsSeen(logiciel, seen + {key}) ==
        if key != "Title" && logiciel[key] != [] then FieldsSeen(logiciel, seen)[key := logiciel[key]]
        else FieldsSeen(logiciel, seen);
      VisitStep(seen, todo, logiciel.Keys, key);
      seen := seen + {key};
      todo := todo - {key};
    }
    assert FieldsSeen(logiciel, seen) == ImportFields(logiciel);
  }

  /** The loop that sends the parsed rows. */
  method AddRows(logiciels: seq<map<string, string>>, accept: nat -> bool)
    returns (ajoutsReussis: nat, ajoutsEchecs: nat, erreursDetaillees: seq<string>, calls: seq<Call>)
    ensures RunImport(logiciels, accept) == ImportRun(calls, ajoutsReussis, ajoutsEchecs, erreursDetaillees)
  {
    ajoutsReussis, ajoutsEchecs, erreursDetaillees, calls := 0, 0, [], [];
    for i := 0 to |logiciels|
      invariant RunImport(logiciels[..i], accept) == ImportRun(calls, ajoutsReussis, ajoutsEchecs, erreursDetaillees)
    {
      assert logiciels[..i + 1][..i] == logiciels[..i];
      var logiciel := logiciels[i];
      var nomLogiciel := if "Title" in logiciel then logiciel["Title"] else "";
      if nomLogiciel == [] {
        ajoutsEchecs := ajoutsEchecs + 1;
        erreursDetaillees := erreursDetaillees + [SkippedRow];
        continue;
      }
      var champsSharePoint := CollectImportFields(logiciel);
      var success := accept(|calls|);
      calls := calls + [AddSharePointItem(nomLogiciel, champsSharePoint)];
      if success {
        ajoutsReussis := ajoutsReussis + 1;
      } else {
        ajoutsEchecs := ajoutsEchecs + 1;
        erreursDetaillees := erreursDetaillees + [FailedAdd(nomLogiciel)];
      }
    }
    assert logiciels[..|logiciels|] == logiciels;
  }

  /** The uploaded file: its name, its length, and its first sheet's cells (`None` when it cannot be read). */
  datatype Upload = Upload(fileName: string, length: nat, sheet: Option<seq<seq<string>>>)

  /** The response of the import. */
  datatype ImportResponse = ImportResponse(fichier: string, totalLignes: nat, ajoutsReussis: nat,
                                           ajoutsEchecs: nat, erreursDetaillees: seq<string>)

  /**
   * `ImportExcelVersSharePoint`: no file or an empty one, and a sheet with no
   * kept row, answer 400; an unreadable sheet answers 500; otherwise every
   * kept row is sent.
   */
  method ImportExcelVersSharePoint(file: Option<Upload>, accept: nat -> bool)
    returns (answer: Answer<ImportResponse>, calls: seq<Call>)
    ensures file.None? || file.value.length == 0 ==> answer == BadRequest && calls == []
    ensures file.Some? && file.value.length > 0 && file.value.sheet.None? ==> answer == ServerError && calls == []
    ensures file.Some? && file.value.length > 0 && file.value.sheet.Some? && ParseSheet(file.value.sheet.value) == [] ==>
              answer == BadRequest && calls == []
    ensures file.Some? && file.value.length > 0 && file.value.sheet.Some? && ParseSheet(file.value.sheet.value) != [] ==>
              var logiciels := ParseSheet(file.value.sheet.value);
              var run := RunImport(logiciels, accept);
              && calls == run.calls
              && answer == Ok(ImportResponse(file.value.fileName, |logiciels|, run.reussis, run.echecs, run.erreurs))
  {
    if file.None? || file.value.length == 0 {
      return BadRequest, [];
    }
    if file.value.sheet.None? {
      return ServerError, [];
    }
    var logiciels := ParseExcelFile(file.value.sheet.value);
    if logiciels == [] {
      return BadRequest, [];
    }
    var ajoutsReussis, ajoutsEchecs, erreursDetaillees;
    ajoutsReussis, ajoutsEchecs, erreursDetaillees, calls := AddRows(logiciels, accept);
    answer := Ok(ImportResponse(file.value.fileName, |logiciels|, ajoutsReussis, ajoutsEchecs, erreursDetaillees));
  }

  /**
   * On named rows (every parsed row is one) the skip branch never runs:
   * there is one add call per row, in order, and every message is a failed add.
   */
  lemma {:induction false} NamedRowsAreAllSent(logiciels: seq<map<string, string>>, accept: nat -> bool)
    requires forall l :: l in logiciels ==> "Title" in l && l["Title"] != []
    ensures var run := RunImport(logiciels, accept);
      && |run.calls| == |logiciels|
      && (forall k :: 0 <= k < |logiciels| ==>
            run.calls[k] == AddSharePointItem(logiciels[k]["Title"], ImportFields(logiciels[k])))
      && SkippedRow !in run.erreurs
  {
    if logiciels != [] {
      var n := |logiciels| - 1;
      var init := logiciels[..n];
      assert forall l :: l in init ==> l in logiciels;
      NamedRowsAreAllSent(init, accept);
      var prev := RunImport(init, accept);
      var l := logiciels[n];
      assert l in logiciels;
      var nom := l["Title"];
      var run := RunImport(logiciels, accept);
      assert run.calls == prev.calls + [AddSharePointItem(nom, ImportFields(l))];
      forall k | 0 <= k < |logiciels|
        ensures run.calls[k] == AddSharePointItem(logiciels[k]["Title"], ImportFields(logiciels[k]))
      {
        if k < n {
          assert logiciels[k] == init[k];
        }
      }
      assert FailedAdd(nom) != SkippedRow by {
        assert FailedAdd(nom)[0] == 'É';
      }
      assert run.erreurs == prev.erreurs || run.erreurs == prev.erreurs + [FailedAdd(nom)];
    }
  }


  /** No SharePoint column of the table is an Ekialis characteristic name. */
  lemma ColumnsAreNotCharacteristics(f: string)
    requires f in ColumnMapping.Values
    ensures !IsCharacteristicMapped(f)
  {
  }

  /**
   * The import hands SharePoint field names to `AddItemToSharePointAsync`,
   * which expects Ekialis characteristic names and drops every key it cannot
   * map: whatever the sheet holds, the item written has only its Title.
   */
  lemma ImportWritesOnlyTitle(rows: seq<seq<string>>, k: nat)
    requires k < |ParseSheet(rows)|
    ensures var l := ParseSheet(rows)[k];
      PayloadFields(ImportName(l), ImportFields(l)) == map["Title" := ImportName(l)]
  {
    var l := ParseSheet(rows)[k];
    ParsedRowsHaveTitle(Headers(rows[0]), rows[1..]);
    assert l in ParseSheet(rows);
    forall key | key in ImportFields(l)
      ensures !IsCharacteristicMapped(key)
    {
      ColumnsAreNotCharacteristics(key);
    }
    UnmappedAreDropped(ImportName(l), ImportFields(l));
  }
}
