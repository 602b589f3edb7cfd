/**
 * Services/ExportService.cs: the CSV export. A header line names the
 * properties (or their custom headers), then every item gives one line of its
 * property values, in declaration order, joined with the separator. A value
 * holding the separator, a double quote, a line feed or a carriage return is
 * quoted, its double quotes doubled, as in section 2 of RFC 4180. An empty
 * list exports as the empty text. `AppendLine` ends every line with the
 * fixed terminator `NewLine`.
 */
module ExportService {
  import opened Text
  import opened Collections
  import opened Records

  /**
   * The property values of one item, in the declaration order of the
   * properties: `p.GetValue(item)?.ToString()`, `None` for a null value.
   */
  type Item = seq<Option<string>>

  /** `value.Replace("\"", "\"\"")`. */
  function DoubleQuotes(s: string): (r: string)
    ensures |r| >= |s|
  {
    if s == [] then []
    else (if s[0] == '"' then "\"\"" else [s[0]]) + DoubleQuotes(s[1..])
  }

  /** Reads a quoted body back: every pair of double quotes becomes one. */
  function CollapseQuotes(s: string): string
    decreases |s|
  {
    if s == [] then []
    else if |s| >= 2 && s[0] == '"' && s[1] == '"' then "\"" + CollapseQuotes(s[2..])
    else [s[0]] + CollapseQuotes(s[1..])
  }

  /** The values the export quotes: those holding the separator, a double quote, a line feed or a carriage return. */
  predicate NeedsQuoting(value: string, sep: string) {
    Contains(value, sep) || '"' in value || '\n' in value || '\r' in value
  }

  /** The value as it is written into a line. */
  function Escape(value: string, sep: string): string {
    if NeedsQuoting(value, sep) then "\"" + DoubleQuotes(value) + "\"" else value
  }

  /** Reads one written value back: outer quotes stripped and doubled quotes collapsed. */
  function Unescape(e: string): string {
    if |e| >= 2 && e[0] == '"' && e[|e| - 1] == '"' then CollapseQuotes(e[1..|e| - 1]) else e
  }

  lemma {:induction false} CollapseDoubled(s: string)
    ensures CollapseQuotes(DoubleQuotes(s)) == s
    decreases |s|
  {
    if s != [] {
      CollapseDoubled(s[1..]);
      var rest := DoubleQuotes(s[1..]);
      if s[0] == '"' {
        assert DoubleQuotes(s) == "\"\"" + rest;
        assert (("\"\"" + rest)[2..]) == rest;
      } else {
        assert DoubleQuotes(s) == [s[0]] + rest;
        assert ([s[0]] + rest)[1..] == rest;
      }
    }
  }

  /** Reading back a written value gives the value. */
  lemma EscapeRoundTrip(value: string, sep: string)
    ensures Unescape(Escape(value, sep)) == value
  {
    var e := Escape(value, sep);
    if NeedsQuoting(value, sep) {
      CollapseDoubled(value);
      assert e[1..|e| - 1] == DoubleQuotes(value);
    } else if |e| >= 2 {
      assert e[0] in value;
    }
  }

  /** A value is written as it is exactly when it needs no quoting, and a quoted one starts with a double quote. */
  lemma EscapeChangesIff(value: string, sep: string)
    ensures Escape(value, sep) != value <==> NeedsQuoting(value, sep)
    ensures (|Escape(value, sep)| > 0 && Escape(value, sep)[0] == '"') <==> NeedsQuoting(value, sep)
  {
    if !NeedsQuoting(value, sep) && |value| > 0 {
      assert value[0] in value;
    }
  }

  /** Doubling quotes adds no character other than the double quote. */
  lemma {:induction false} DoubleQuotesChars(s: string, c: char)
    requires c != '"'
    ensures c in DoubleQuotes(s) <==> c in s
    decreases |s|
  {
    if s != [] {
      DoubleQuotesChars(s[1..], c);
      var head: string := if s[0] == '"' then "\"\"" else [s[0]];
      assert DoubleQuotes(s) == head + DoubleQuotes(s[1..]);
      assert c in s <==> c == s[0] || c in s[1..];
    }
  }

  /** The written form of a value holds a character other than the double quote exactly when the value does. */
  lemma EscapeChars(value: string, sep: string, c: char)
    requires c != '"'
    ensures c in Escape(value, sep) <==> c in value
  {
    if NeedsQuoting(value, sep) {
      DoubleQuotesChars(value, c);
    }
  }

  /** `p.GetValue(item)?.ToString() ?? ""`. */
  function ValueText(v: Option<string>): string {
    if v.Some? then v.value else ""
  }

  /** The written values of one item. */
  function EscapedValues(item: Item, sep: string): (r: seq<string>)
    ensures |r| == |item|
  {
    seq(|item|, k requires 0 <= k < |item| => Escape(ValueText(item[k]), sep))
  }

  /** The line of one item. */
  function DataLine(item: Item, sep: string): string {
    Join(sep, EscapedValues(item, sep))
  }

  /** The lines of the items, one per item, in order. */
  function DataLines(data: seq<Item>, sep: string): (r: seq<string>)
    ensures |r| == |data|
  {
    seq(|data|, k requires 0 <= k < |data| => DataLine(data[k], sep))
  }

  /** The names of the header line: the custom header of a property when there is one, its name otherwise. */
  function HeaderNames(properties: seq<string>, custom: map<string, string>): (r: seq<string>)
    ensures |r| == |properties|
  {
    seq(|properties|, k requires 0 <= k < |properties| =>
      if properties[k] in custom then custom[properties[k]] else properties[k])
  }

  /** Every line followed by the terminator, as a run of `AppendLine` writes it. */
  function Lines(ls: seq<string>): (r: string)
    ensures |r| >= |ls|
  {
    if ls == [] then [] else Lines(ls[..|ls| - 1]) + ls[|ls| - 1] + NewLine
  }

  /** The exported text: nothing for no items, otherwise the header line and one line per item. */
  function CsvText(header: string, data: seq<Item>, sep: string): (r: string)
    ensures r == [] <==> data == []
  {
    if data == [] then [] else Lines([header] + DataLines(data, sep))
  }

  /** The `StringBuilder` loop: the header line, then the line of every item. */
  method WriteCsv(header: string, data: seq<Item>, sep: string) returns (csv: string)
    requires data != []
    ensures csv == CsvText(header, data, sep)
  {
    csv := header + NewLine;
    assert csv == Lines([header]);
    for i := 0 to |data|
      invariant csv == Lines([header] + DataLines(data[..i], sep))
    {
      var values := EscapedValues(data[i], sep);
      csv := csv + Join(sep, values) + NewLine;
      ghost var before := [header] + DataLines(data[..i], sep);
      ghost var after := [header] + DataLines(data[..i + 1], sep);
      assert after[..|after| - 1] == before;
    }
    assert data[..|data|] == data;
  }

  /** `ExportToCsv`: the header line names the properties. */
  method ExportToCsv(properties: seq<string>, data: seq<Item>, sep: string) returns (csv: string)
    ensures csv == CsvText(Join(sep, properties), data, sep)
  {
    if |data| == 0 {
      return [];
    }
    var headers := Join(sep, properties);
    csv := WriteCsv(headers, data, sep);
  }

  /** `ExportToCsvWithHeaders`: the header line uses the custom headers. */
  method ExportToCsvWithHeaders(properties: seq<string>, data: seq<Item>, custom: map<string, string>, sep: string)
    returns (csv: string)
    ensures csv == CsvText(Join(sep, HeaderNames(properties, custom)), data, sep)
  {
    if |data| == 0 {
      return [];
    }
    var headers := HeaderNames(properties, custom);
    csv := WriteCsv(Join(sep, headers), data, sep);
  }

  /** Without custom headers both exports write the same text. */
  lemma NoCustomHeaders(properties: seq<string>, data: seq<Item>, sep: string)
    ensures CsvText(Join(sep, HeaderNames(properties, map[])), data, sep) == CsvText(Join(sep, properties), data, sep)
  {
    assert HeaderNames(properties, map[]) == properties;
  }

  /** The lines written by `AppendLine` are the lines joined by the terminator, an empty piece last. */
  lemma {:induction false} LinesAsJoin(ls: seq<string>)
    ensures Lines(ls) == Join(NewLine, ls + [""])
    decreases |ls|
  {
    if ls != [] {
      var init := ls[..|ls| - 1];
      var last := ls[|ls| - 1];
      LinesAsJoin(init);
      JoinSnoc(init, last);
      assert init + [last] == ls;
    }
  }

  /** Joining `ps + [p, ""]` puts `p` and a terminator after the join of `ps + [""]`. */
  lemma {:induction false} JoinSnoc(ps: seq<string>, p: string)
    ensures Join(NewLine, ps + [p] + [""]) == Join(NewLine, ps + [""]) + p + NewLine
    decreases |ps|
  {
    if ps == [] {
      assert [p] + [""] == [p, ""];
    } else {
      JoinSnoc(ps[1..], p);
      assert (ps + [p] + [""])[1..] == ps[1..] + [p] + [""];
      assert (ps + [""])[1..] == ps[1..] + [""];
    }
  }

  /** With a separator and values free of line feeds, no written line holds one. */
  lemma DataLineAvoidsNewLine(item: Item, sep: string)
    requires '\n' !in sep
    requires forall k :: 0 <= k < |item| ==> '\n' !in ValueText(item[k])
    ensures '\n' !in DataLine(item, sep)
  {
    var values := EscapedValues(item, sep);
    forall k | 0 <= k < |values|
      ensures '\n' !in values[k]
    {
      EscapeChars(ValueText(item[k]), sep, '\n');
    }
    JoinAvoids(sep, values, '\n');
  }

  /**
   * When the header, the separator and the values hold no line feed, the
   * export has one line per item after the header line: splitting it at the
   * line feeds gives the header line, the line of every item in order, and
   * the empty rest after the last terminator.
   */
  lemma OneLinePerItem(header: string, data: seq<Item>, sep: string)
    requires data != []
    requires '\n' !in header && '\n' !in sep
    requires forall i, k :: 0 <= i < |data| && 0 <= k < |data[i]| ==> '\n' !in ValueText(data[i][k])
    ensures Split(CsvText(header, data, sep), '\n') == [header] + DataLines(data, sep) + [""]
  {
    var ls := [header] + DataLines(data, sep);
    LinesAsJoin(ls);
    forall k | 0 <= k < |ls + [""]|
      ensures '\n' !in (ls + [""])[k]
    {
      if 1 <= k <= |data| {
        DataLineAvoidsNewLine(data[k - 1], sep);
      }
    }
    SplitJoin(ls + [""], '\n');
  }

  /** Every written value of an item reads back as the item's value, in property order. */
  lemma ValuesReadBack(item: Item, sep: string)
    ensures forall k :: 0 <= k < |item| ==> Unescape(EscapedValues(item, sep)[k]) == ValueText(item[k])
  {
    forall k | 0 <= k < |item|
      ensures Unescape(EscapedValues(item, sep)[k]) == ValueText(item[k])
    {
      EscapeRoundTrip(ValueText(item[k]), sep);
    }
  }

  /** With a one-character separator and no value to quote, splitting a line at the separator gives the values. */
  lemma PlainLineSplits(item: Item, c: char)
    requires item != []
    requires forall k :: 0 <= k < |item| ==> !NeedsQuoting(ValueText(item[k]), [c])
    ensures Split(DataLine(item, [c]), c) == seq(|item|, k requires 0 <= k < |item| => ValueText(item[k]))
  {
    var values := EscapedValues(item, [c]);
    forall k | 0 <= k < |values|
      ensures c !in values[k]
    {
      ContainsChar(ValueText(item[k]), c);
    }
    SplitJoin(values, c);
    assert values == seq(|item|, k requires 0 <= k < |item| => ValueText(item[k]));
  }

  /** The properties of `ComponentFlat`, in declaration order. */
  const LogicielProperties: seq<string> :=
    ["Id", "Name", "Icon", "Color", "ComponentClassId", "ComponentClassName",
     "ComponentStatusId", "ComponentStatusName", "Company", "CharacteristicsCount", "SourceRelationsCount"]

  /** The French headers of the software export. */
  const LogicielHeaders: map<string, string> :=
    map["Id" := "ID", "Name" := "Nom du logiciel", "Icon" := "Icône", "Color" := "Couleur",
        "ComponentClassId" := "ID Classe", "ComponentClassName" := "Type",
        "ComponentStatusId" := "ID Statut", "ComponentStatusName" := "Statut",
        "Company" := "Entreprise", "CharacteristicsCount" := "Nb Caractéristiques",
        "SourceRelationsCount" := "Nb Relations"]

  /** The property values of one software row, numbers in decimal. */
  function FlatValues(c: ComponentFlat): (r: Item)
    ensures |r| == |LogicielProperties|
  {
    [Some(IntToString(c.id)), Some(c.name), Some(c.icon), Some(c.color),
     Some(IntToString(c.componentClassId)), Some(c.componentClassName),
     Some(IntToString(c.componentStatusId)), Some(c.componentStatusName),
     Some(IntToString(c.company)), Some(IntToString(c.characteristicsCount)),
     Some(IntToString(c.sourceRelationsCount))]
  }

  /** The rows of a software list. */
  function FlatRows(logiciels: seq<ComponentFlat>): (r: seq<Item>)
    ensures |r| == |logiciels|
  {
    seq(|logiciels|, k requires 0 <= k < |logiciels| => FlatValues(logiciels[k]))
  }

  /** `ExportLogicielsToCsv`: the custom-header export with the French headers and ";". */
  method ExportLogicielsToCsv(logiciels: seq<ComponentFlat>) returns (csv: string)
    ensures csv == CsvText(Join(";", HeaderNames(LogicielProperties, LogicielHeaders)), FlatRows(logiciels), ";")
  {
    csv := ExportToCsvWithHeaders(LogicielProperties, FlatRows(logiciels), LogicielHeaders, ";");
  }

  /** Every property of a software row has a French header, so the header line names the columns in French. */
  lemma LogicielHeaderLine()
    ensures forall p :: p in LogicielProperties ==> p in LogicielHeaders
    ensures HeaderNames(LogicielProperties, LogicielHeaders)
            == ["ID", "Nom du logiciel", "Icône", "Couleur", "ID Classe", "Type", "ID Statut", "Statut",
                "Entreprise", "Nb Caractéristiques", "Nb Relations"]
  {
  }

  /** The name and the colour of a software row read back from its line unchanged. */
  lemma LogicielRowReadsBack(c: ComponentFlat)
    ensures Unescape(EscapedValues(FlatValues(c), ";")[0]) == IntToString(c.id)
    ensures Unescape(EscapedValues(FlatValues(c), ";")[1]) == c.name
    ensures Unescape(EscapedValues(FlatValues(c), ";")[3]) == c.color
    ensures Unescape(EscapedValues(FlatValues(c), ";")[5]) == c.componentClassName
  {
    ValuesReadBack(FlatValues(c), ";");
  }
}
