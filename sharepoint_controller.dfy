/**
 * Controllers/SharePointController.cs: the plain-text export of the
 * SharePoint list. Every item with a `Title` gives one line of six fields,
 * trimmed, "" for a field the item lacks, joined with ", "; the lines are
 * sorted and joined with the line terminator. A failure of the fetch is a
 * server error.
 */
module SharePointController {
  import opened Text
  import opened Collections
  import opened Records

  /** The fields of a line, in order. */
  const ChampsDemandes: seq<string> := ["Title", "field_1", "field_2", "field_3", "field_6", "field_9"]

  predicate HasTitle(item: SpItem) {
    "Title" in item
  }

  /** One field of a line: the trimmed value, or "" when the item lacks the field. */
  function FieldText(item: SpItem, champ: string): string {
    if champ in item then Trim(item[champ]) else ""
  }

  /** The six values of a line, in the order of `ChampsDemandes`. */
  function FieldValues(item: SpItem): (r: seq<string>)
    ensures |r| == |ChampsDemandes|
  {
    seq(|ChampsDemandes|, k requires 0 <= k < |ChampsDemandes| => FieldText(item, ChampsDemandes[k]))
  }

  /** The line of one item. */
  function Ligne(item: SpItem): string {
    Join(", ", FieldValues(item))
  }

  /** The line of every item with a title, in input order. */
  function TitledLines(result: seq<SpItem>): (r: seq<string>)
    ensures |r| == |Filter(result, HasTitle)|
  {
    var titled := Filter(result, HasTitle);
    seq(|titled|, k requires 0 <= k < |titled| => Ligne(titled[k]))
  }

  /** The lines, sorted. */
  function Lignes(result: seq<SpItem>): (r: seq<string>)
    ensures multiset(r) == multiset(TitledLines(result))
    ensures SortedBy(r, Self)
  {
    SortBy(TitledLines(result), Self)
  }

  /**
   * `GetSelectedFieldsOnly`, given what `GetSelectedFieldsAsync` answered:
   * `None` is the exception it raised.
   */
  function GetSelectedFieldsOnly(result: Option<seq<SpItem>>): (answer: Answer<string>)
    ensures result.None? <==> answer.ServerError?
    ensures answer.Ok? ==> (answer.body == [] <==> Filter(result.value, HasTitle) == [])
  {
    if result.None? then ServerError
    else
      var lignes := Lignes(result.value);
      assert |lignes| == |Filter(result.value, HasTitle)| by {
        assert |multiset(lignes)| == |multiset(TitledLines(result.value))|;
      }
      JoinNonEmpty(lignes);
      Ok(Join(NewLine, lignes))
  }

  lemma JoinNonEmpty(lignes: seq<string>)
    ensures Join(NewLine, lignes) == [] <==> lignes == [] || (|lignes| == 1 && lignes[0] == [])
  {
    if |lignes| > 1 {
      assert |Join(NewLine, lignes)| >= |NewLine|;
    }
  }

  /** An item without a title adds no line; an item with one adds exactly its own line. */
  lemma OneLinePerTitledItem(result: seq<SpItem>, item: SpItem)
    ensures !HasTitle(item) ==> multiset(Lignes(result + [item])) == multiset(Lignes(result))
    ensures HasTitle(item) ==> multiset(Lignes(result + [item])) == multiset(Lignes(result)) + multiset{Ligne(item)}
  {
    FilterSnoc(result, item, HasTitle);
    var before := TitledLines(result);
    var after := TitledLines(result + [item]);
    if HasTitle(item) {
      assert after == before + [Ligne(item)];
    } else {
      assert after == before;
    }
  }

  /** Every line is the line of an item with a title. */
  lemma LinesComeFromTitledItems(result: seq<SpItem>)
    ensures forall l :: l in Lignes(result) ==> exists item :: item in result && HasTitle(item) && l == Ligne(item)
  {
    forall l | l in Lignes(result)
      ensures exists item :: item in result && HasTitle(item) && l == Ligne(item)
    {
      assert l in multiset(TitledLines(result));
      var titled := Filter(result, HasTitle);
      var k :| 0 <= k < |titled| && TitledLines(result)[k] == l;
      FilterMember(result, HasTitle, titled[k]);
    }
  }

  /** `s` with one space put in front of every piece. */
  function Spaced(ps: seq<string>): (r: seq<string>)
    ensures |r| == |ps|
  {
    seq(|ps|, k requires 0 <= k < |ps| => " " + ps[k])
  }

  /** Joining with ", " is joining with "," the pieces after the first spaced. */
  lemma {:induction false} JoinCommaSpace(ps: seq<string>)
    requires |ps| >= 1
    ensures Join(",", Spaced(ps)) == " " + Join(", ", ps)
    decreases |ps|
  {
    if |ps| > 1 {
      var sp := Spaced(ps);
      assert sp[1..] == Spaced(ps[1..]);
      JoinCommaSpace(ps[1..]);
      assert Join(",", sp) == " " + ps[0] + "," + (" " + Join(", ", ps[1..]));
    }
  }

  /** The reading of a line: split at the commas, every piece trimmed. */
  function ReadLine(line: string): seq<string> {
    seq(|Split(line, ',')|, k requires 0 <= k < |Split(line, ',')| => Trim(Split(line, ',')[k]))
  }

  /** None of the item's requested values holds `c`. */
  predicate Avoids(item: SpItem, c: char) {
    forall k :: 0 <= k < |ChampsDemandes| && ChampsDemandes[k] in item ==> c !in item[ChampsDemandes[k]]
  }

  lemma FieldValuesAvoid(item: SpItem, c: char)
    requires Avoids(item, c)
    ensures forall k :: 0 <= k < |FieldValues(item)| ==> c !in FieldValues(item)[k]
  {
    forall k | 0 <= k < |ChampsDemandes| && ChampsDemandes[k] in item
      ensures c !in Trim(item[ChampsDemandes[k]])
    {
      TrimSubsequence(item[ChampsDemandes[k]]);
    }
  }

  /** Every value of a line is its own trim. */
  lemma FieldValuesTrimmed(item: SpItem)
    ensures forall k :: 0 <= k < |FieldValues(item)| ==> Trim(FieldValues(item)[k]) == FieldValues(item)[k]
  {
    forall k | 0 <= k < |ChampsDemandes|
      ensures Trim(FieldText(item, ChampsDemandes[k])) == FieldText(item, ChampsDemandes[k])
    {
      if ChampsDemandes[k] in item {
        TrimIdempotent(item[ChampsDemandes[k]]);
      } else {
        TrimOfTrimmed([]);
      }
    }
  }

  /** Joining with ", " is joining with "," the pieces after the first spaced. */
  lemma CommaSpacePieces(vals: seq<string>)
    requires |vals| >= 1
    ensures Join(", ", vals) == Join(",", [vals[0]] + Spaced(vals[1..]))
  {
    if |vals| > 1 {
      var v0, rest := vals[0], vals[1..];
      var j := Join(", ", rest);
      assert vals == [v0] + rest;
      calc {
        Join(",", [v0] + Spaced(rest));
        { JoinCons(",", v0, Spaced(rest)); }
        v0 + "," + Join(",", Spaced(rest));
        { JoinCommaSpace(rest); }
        v0 + "," + (" " + j);
        { ConcatAssociative(v0 + ",", " ", j); }
        v0 + "," + " " + j;
        { ConcatAssociative(v0, ",", " "); assert "," + " " == ", "; }
        v0 + ", " + j;
        { JoinCons(", ", v0, rest); }
        Join(", ", vals);
      }
    }
  }

  /** The pieces between the commas hold no comma and trim back to the values. */
  lemma SpacedPieces(vals: seq<string>)
    requires |vals| >= 1
    requires forall k :: 0 <= k < |vals| ==> ',' !in vals[k] && Trim(vals[k]) == vals[k]
    ensures forall k :: 0 <= k < |vals| ==>
              ',' !in ([vals[0]] + Spaced(vals[1..]))[k] && Trim(([vals[0]] + Spaced(vals[1..]))[k]) == vals[k]
  {
    var pieces := [vals[0]] + Spaced(vals[1..]);
    forall k | 1 <= k < |pieces|
      ensures ',' !in pieces[k] && Trim(pieces[k]) == vals[k]
    {
      assert pieces[k] == " " + vals[k];
      TrimAfterSpace(vals[k]);
    }
  }

  /** Trimming the pieces of a line between its commas gives the values back. */
  lemma PiecesReadBack(vals: seq<string>)
    requires |vals| >= 1
    requires forall k :: 0 <= k < |vals| ==> ',' !in vals[k] && Trim(vals[k]) == vals[k]
    ensures ReadLine(Join(", ", vals)) == vals
  {
    var pieces := [vals[0]] + Spaced(vals[1..]);
    CommaSpacePieces(vals);
    SpacedPieces(vals);
    SplitJoin(pieces, ',');
    var r := ReadLine(Join(", ", vals));
    assert |r| == |vals|;
    forall k | 0 <= k < |vals| ensures r[k] == vals[k] {
      assert r[k] == Trim(pieces[k]);
    }
  }

  /**
   * A line reads back as the item's six values, in order, trimmed, "" for a
   * missing field, when none of the values holds a comma.
   */
  lemma LineReadsBack(item: SpItem)
    requires Avoids(item, ',')
    ensures ReadLine(Ligne(item)) == FieldValues(item)
  {
    FieldValuesAvoid(item, ',');
    FieldValuesTrimmed(item);
    PiecesReadBack(FieldValues(item));
  }

  /**
   * When no requested value holds a line feed, splitting the export at the
   * line feeds gives back the sorted lines, one per item with a title.
   */
  lemma OutputSplitsIntoLines(result: seq<SpItem>)
    requires Filter(result, HasTitle) != []
    requires forall item :: item in result ==> Avoids(item, '\n')
    ensures GetSelectedFieldsOnly(Some(result)).Ok?
    ensures Split(GetSelectedFieldsOnly(Some(result)).body, '\n') == Lignes(result)
  {
    var lignes := Lignes(result);
    var titled := Filter(result, HasTitle);
    var unsorted := TitledLines(result);
    forall k | 0 <= k < |unsorted|
      ensures '\n' !in unsorted[k]
    {
      FilterMember(result, HasTitle, titled[k]);
      FieldValuesAvoid(titled[k], '\n');
      JoinAvoids(", ", FieldValues(titled[k]), '\n');
    }
    forall k | 0 <= k < |lignes|
      ensures '\n' !in lignes[k]
    {
      assert lignes[k] in multiset(unsorted);
    }
    assert |multiset(lignes)| == |multiset(unsorted)|;
    SplitJoin(lignes, '\n');
  }
}
