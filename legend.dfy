/**
  The depth legend of the map (Leaflet-Part-1/static/js/logic.js,
  legend.onAdd): a loop over a threshold array that appends one HTML row per
  threshold to the legend element's innerHTML, each row a colour swatch taken
  from a parallel colour array and a "lower km – upper km" label.
*/
module Legend {
  import opened Styling
  import opened Decimal

  /** A value that may be missing, as a JavaScript array read past its end
      yields undefined. */
  datatype Option<T> = None | Some(value: T)

  /** Array read `a[i]`: undefined past the end. */
  function At<T>(a: seq<T>, i: nat): (r: Option<T>)
    ensures r.Some? <==> i < |a|
    ensures r.Some? ==> r.value == a[i]
  {
    if i < |a| then Some(a[i]) else None
  }

  /** The threshold array as the page writes it. */
  const SourceDepths: seq<int> := [-10, 10, 30, 50, 70, 90, 100]

  /** The threshold array without the stray 100: as written, the array has a
      seventh threshold for which the colour array has no entry. */
  const Depths: seq<int> := [-10, 10, 30, 50, 70, 90]

  /** The colour array of the legend, from shallow to deep. */
  const Colours: seq<Colour> := [Green, LightGreen, Yellow, Orange, OrangeRed, Red]

  /** The heading the legend starts with. */
  const Header: string := "<h3>Depth (km)</h3>"

  /** One legend row: the swatch colour (missing when the colour array is
      read past its end), the lower label and the upper label (missing when
      the row is printed with "+"). */
  datatype Row = Row(swatch: Option<Colour>, lower: int, upper: Option<int>)

  /** `depth[i + 1] ? depth[i + 1] : "+"`: the next threshold, unless it is
      undefined or 0, both of which the condition treats as false. */
  function UpperBound(depth: seq<int>, i: nat): (u: Option<int>)
    ensures u.None? <==> At(depth, i + 1) == None || At(depth, i + 1) == Some(0)
    ensures u.Some? ==> At(depth, i + 1) == Some(u.value)
  {
    if i + 1 < |depth| && depth[i + 1] != 0 then Some(depth[i + 1]) else None
  }

  /** The row the loop builds in its iteration i. */
  function RowAt(depth: seq<int>, colors: seq<Colour>, i: nat): Row
    requires i < |depth|
  {
    Row(At(colors, i), depth[i], UpperBound(depth, i))
  }

  /** The rows of the legend: one per threshold, in order. */
  function Rows(depth: seq<int>, colors: seq<Colour>): (rows: seq<Row>)
    ensures |rows| == |depth|
    ensures forall i :: 0 <= i < |depth| ==> rows[i].lower == depth[i]
    ensures forall i :: 0 <= i < |depth| ==> rows[i].swatch == At(colors, i)
    ensures forall i :: 0 <= i < |depth| ==> rows[i].upper == UpperBound(depth, i)
  {
    seq(|depth|, i requires 0 <= i < |depth| => RowAt(depth, colors, i))
  }

  /** The text of a swatch colour; string concatenation turns undefined into
      the word "undefined". */
  function SwatchText(swatch: Option<Colour>): (t: string)
    ensures swatch.Some? ==> t == swatch.value.Hex() && |t| == 7 && t[0] == '#'
    ensures swatch.None? <==> t == "undefined"
  {
    match swatch
    case Some(c) => c.Hex()
    case None => "undefined"
  }

  /** The text of an upper label: the threshold's decimal text, which reads
      back as the threshold, or "+". */
  function UpperText(upper: Option<int>): (t: string)
    ensures |t| >= 1
    ensures upper.None? <==> t == "+"
    ensures upper.Some? ==> t[0] == '-' || IsDigit(t[0])
    ensures upper.Some? ==> forall k :: 1 <= k < |t| ==> IsDigit(t[k])
    ensures upper.Some? ==> ParseInt(t) == upper.value
    ensures upper.Some? ==> (t[0] != '-' && |t| > 1 ==> t[0] != '0')
    ensures upper.Some? ==> (t[0] == '-' ==> |t| >= 2 && t[1] != '0')
  {
    match upper
    case Some(v) =>
      IntToStringRoundTrip(v);
      IntToString(v)
    case None => "+"
  }

  /** The opening of a row's markup, up to the swatch colour. */
  const SwatchOpen: string := "<i style=\"background:"

  /** The close of the swatch element, before the lower label. */
  const SwatchClose: string := "\"></i> "

  /** The end of a row's markup. */
  const RowClose: string := " km<br>"

  /** The HTML of one row: a swatch element whose background is the row's
      colour, then the "lower km – upper km" label. */
  function RenderRow(row: Row): string
  {
    SwatchOpen + SwatchText(row.swatch) + SwatchClose
      + IntToString(row.lower) + " km &ndash; " + UpperText(row.upper) + RowClose
  }

  /** A row's markup opens the swatch element, names the row's colour (or
      "undefined") right after `background:`, closes the element, gives the
      lower label's decimal text, then " km &ndash; ", the upper label's text
      and " km<br>". */
  lemma RenderRowShape(row: Row)
    ensures |RenderRow(row)| > |SwatchOpen| + |SwatchText(row.swatch)| + |SwatchClose|
      + |IntToString(row.lower)| + |RowClose|
    ensures RenderRow(row)[..|SwatchOpen|] == SwatchOpen
    ensures RenderRow(row)[|SwatchOpen|..|SwatchOpen| + |SwatchText(row.swatch)|] == SwatchText(row.swatch)
    ensures var p := |SwatchOpen| + |SwatchText(row.swatch)| + |SwatchClose|;
      RenderRow(row)[p..p + |IntToString(row.lower)|] == IntToString(row.lower)
    ensures var q := |SwatchOpen| + |SwatchText(row.swatch)|;
      RenderRow(row)[q..q + |SwatchClose|] == SwatchClose
    ensures var p := |SwatchOpen| + |SwatchText(row.swatch)| + |SwatchClose| + |IntToString(row.lower)|;
      RenderRow(row)[p..] == " km &ndash; " + UpperText(row.upper) + RowClose
    ensures RenderRow(row)[|RenderRow(row)| - |RowClose|..] == RowClose
  {
    var swatch, lower := SwatchText(row.swatch), IntToString(row.lower);
    var tail := " km &ndash; " + UpperText(row.upper) + RowClose;
    var html := SwatchOpen + swatch + SwatchClose + lower + tail;
    assert RenderRow(row) == html;
    assert html[|SwatchOpen + swatch|..|SwatchOpen + swatch + SwatchClose|] == SwatchClose;
    assert html[|SwatchOpen + swatch + SwatchClose|..|SwatchOpen + swatch + SwatchClose + lower|] == lower;
    assert html[|SwatchOpen + swatch + SwatchClose + lower|..] == tail;
  }

  /** The HTML of a sequence of rows, one after the other. */
  function RenderRows(rows: seq<Row>): string
  {
    if rows == [] then "" else RenderRows(rows[..|rows| - 1]) + RenderRow(rows[|rows| - 1])
  }

  lemma AppendAssociative(a: string, b: string, c: string)
    ensures (a + b) + c == a + (b + c)
  {
  }

  lemma RenderRowsPrefix(rows: seq<Row>, i: nat)
    requires i < |rows|
    ensures RenderRows(rows[..i + 1]) == RenderRows(rows[..i]) + RenderRow(rows[i])
  {
    assert rows[..i + 1][..i] == rows[..i];
  }

  /** The legend's whole innerHTML: the heading, then every row. */
  function LegendHtml(depth: seq<int>, colors: seq<Colour>): string
  {
    Header + RenderRows(Rows(depth, colors))
  }

  /** legend.onAdd: starts innerHTML with the heading and appends one row per
      threshold, reading the colour array at the same index. */
  method BuildLegend(depth: seq<int>, colors: seq<Colour>) returns (innerHTML: string)
    ensures innerHTML == LegendHtml(depth, colors)
  {
    innerHTML := Header;
    for i := 0 to |depth|
      invariant innerHTML == Header + RenderRows(Rows(depth, colors)[..i])
    {
      var swatch := if i < |colors| then colors[i].Hex() else "undefined";
      var upper := if i + 1 < |depth| && depth[i + 1] != 0 then IntToString(depth[i + 1]) else "+";
      var text := "<i style=\"background:" + swatch + "\"></i> "
        + IntToString(depth[i]) + " km &ndash; " + upper + " km<br>";
      ghost var rows := Rows(depth, colors);
      assert SwatchText(rows[i].swatch) == swatch;
      assert UpperText(rows[i].upper) == upper;
      assert text == RenderRow(rows[i]);
      RenderRowsPrefix(rows, i);
      assert innerHTML + text == Header + RenderRows(rows[..i + 1]) by {
        AppendAssociative(Header, RenderRows(rows[..i]), text);
      }
      innerHTML := innerHTML + text;
    }
    assert Rows(depth, colors)[..|depth|] == Rows(depth, colors);
  }

  /** Whether a depth lies in the band a row's label names: above the lower
      label and, unless the row ends in "+", at most the upper label. */
  predicate InBand(row: Row, d: real)
  {
    row.lower as real < d && (row.upper.None? || d <= row.upper.value as real)
  }

  /** The legend as written: seven rows over six colours. Rows 0 to 5 carry
      colours[i] and the labels depth[i] and depth[i + 1]; the last row reads
      the colour array past its end and is the only row printed with "+". */
  lemma SourceLegendRows()
    ensures |Rows(SourceDepths, Colours)| == 7
    ensures forall i :: 0 <= i < 6 ==>
      Rows(SourceDepths, Colours)[i] == Row(Some(Colours[i]), SourceDepths[i], Some(SourceDepths[i + 1]))
    ensures Rows(SourceDepths, Colours)[6] == Row(None, 100, None)
  {
    var rows := Rows(SourceDepths, Colours);
    forall i | 0 <= i < 6
      ensures rows[i] == Row(Some(Colours[i]), SourceDepths[i], Some(SourceDepths[i + 1]))
    {
      assert SourceDepths[i + 1] != 0;
    }
  }

  /** Rows 0 to 5 of the legend as written agree with the marker colouring:
      every depth in the band a row labels is coloured with that row's
      swatch. */
  lemma SourceLegendAgreesBelow100(i: nat, d: real)
    requires i < 6
    requires SourceDepths[i] as real < d <= SourceDepths[i + 1] as real
    ensures Rows(SourceDepths, Colours)[i].swatch == Some(ChooseColor(d))
  {
    SourceLegendRows();
  }

  /** The defect of the legend as written: a depth of 150 km lies in the band
      of the last row, "100 km – + km", whose swatch is undefined although
      such a quake is drawn red. */
  lemma SourceLegendLastRowUncoloured()
    ensures InBand(Rows(SourceDepths, Colours)[6], 150.0)
    ensures Rows(SourceDepths, Colours)[6].swatch == None
    ensures ChooseColor(150.0) == Red
  {
    SourceLegendRows();
  }

  /** The HTML of that last row. */
  lemma SourceLegendLastRowHtml()
    ensures RenderRow(Rows(SourceDepths, Colours)[6])
      == "<i style=\"background:undefined\"></i> 100 km &ndash; + km<br>"
  {
    SourceLegendRows();
    UncolouredRowHtml();
  }

  lemma UncolouredRowHtml()
    ensures RenderRow(Row(None, 100, None))
      == "<i style=\"background:undefined\"></i> 100 km &ndash; + km<br>"
  {
    var row := Row(None, 100, None);
    assert IntToString(100) == "100" by {
      assert NatToString(1) == "1";
      assert NatToString(10) == NatToString(1) + [DigitChar(0)] == "10";
      assert NatToString(100) == NatToString(10) + [DigitChar(0)] == "100";
    }
    assert SwatchText(row.swatch) == "undefined" && UpperText(row.upper) == "+";
    assert RenderRow(row) == SwatchOpen + "undefined" + "\"></i> " + "100" + " km &ndash; " + "+" + RowClose;
    UncolouredRowPieces();
  }

  lemma UncolouredRowPieces()
    ensures SwatchOpen + "undefined" + "\"></i> " + "100" + " km &ndash; " + "+" + RowClose
      == "<i style=\"background:undefined\"></i> 100 km &ndash; + km<br>"
  {
  }

  /** The corrected legend: six rows, every one with its colour, labels from
      consecutive thresholds, and "+" on the last row only. */
  lemma LegendRows()
    ensures |Rows(Depths, Colours)| == |Colours| == 6
    ensures forall i :: 0 <= i < 5 ==>
      Rows(Depths, Colours)[i] == Row(Some(Colours[i]), Depths[i], Some(Depths[i + 1]))
    ensures Rows(Depths, Colours)[5] == Row(Some(Red), 90, None)
  {
    var rows := Rows(Depths, Colours);
    forall i | 0 <= i < 5
      ensures rows[i] == Row(Some(Colours[i]), Depths[i], Some(Depths[i + 1]))
    {
      assert Depths[i + 1] != 0;
    }
  }

  /** The corrected legend matches the marker colouring: every depth above
      -10 km lies in the band of exactly one row, the row whose index is the
      number of colouring thresholds the depth exceeds, and that row's swatch
      is the colour the depth's marker is drawn in. */
  lemma LegendMatchesColours(i: nat, d: real)
    requires i < 6
    requires d > Depths[0] as real
    ensures InBand(Rows(Depths, Colours)[i], d) <==> i == CountBelow(Thresholds, d)
    ensures InBand(Rows(Depths, Colours)[i], d) ==> Rows(Depths, Colours)[i].swatch == Some(ChooseColor(d))
  {
    LegendRows();
    ChooseColorBands(d);
  }

  /** Depths of -10 km and shallower are drawn green, but they lie in no
      row's band, in the legend as written or in the corrected one. */
  lemma ShallowDepthsUnlabelled(i: nat, d: real)
    requires d <= -10.0
    ensures ChooseColor(d) == Green
    ensures i < 6 ==> !InBand(Rows(Depths, Colours)[i], d)
    ensures i < 7 ==> !InBand(Rows(SourceDepths, Colours)[i], d)
  {
    SourceLegendRows();
    LegendRows();
    if i < 6 {
      assert Rows(Depths, Colours)[i].lower >= -10;
    }
    if i < 7 {
      assert Rows(SourceDepths, Colours)[i].lower >= -10;
    }
  }

  /** The corrected legend's markup shows, for every depth in a row's band,
      the very code the depth's marker is filled with. */
  lemma LegendSwatchMatchesMarker(i: nat, d: real)
    requires i < 6
    requires InBand(Rows(Depths, Colours)[i], d)
    ensures SwatchText(Rows(Depths, Colours)[i].swatch) == ChooseColor(d).Hex()
  {
    LegendRows();
    LegendMatchesColours(i, d);
  }

  /** Building the corrected legend yields the six rows and nothing more. */
  method BuildCorrectedLegend() returns (innerHTML: string)
    ensures innerHTML == Header + RenderRows(Rows(Depths, Colours))
    ensures forall row :: row in Rows(Depths, Colours) ==> row.swatch.Some?
  {
    innerHTML := BuildLegend(Depths, Colours);
    LegendRows();
  }
}
