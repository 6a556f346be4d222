/** The minimap beside the diff: one clickable marker per change, placed at the
    change's line as a percentage of the document's height. */
module DiffMinimap {
  import opened Util
  import opened Text
  import opened JsonDiffViewer

  /** One rendered marker `<div>`: its class, its `top` in percent, the row its
      click handler passes on, and its title / aria-label. */
  datatype MinimapItem = MinimapItem(className: string, topPercent: real, target: Row, title: string)

  const LabelPrefix: string := "Go to change at line "

  /** `(lineNumber / totalLines) * 100`, exact: the line's share of the
      document, in percent. */
  function TopPercent(lineNumber: int, totalLines: int): (percent: real)
    requires totalLines != 0
    ensures percent * totalLines as real == lineNumber as real * 100.0
  {
    var q := lineNumber as real / totalLines as real;
    assert q * totalLines as real == lineNumber as real;
    q * 100.0
  }

  function ClassName(kind: ChangeType): (c: string)
    ensures c == "minimap-marker added" <==> kind == Add
    ensures c == "minimap-marker removed" <==> kind == Remove
  {
    "minimap-marker " + if kind == Add then "added" else "removed"
  }

  /** The marker's title: it names the marker's line, the text after the prefix
      reading back as the line number. */
  function Label(lineNumber: int): (title: string)
    ensures StartsWith(title, LabelPrefix)
    ensures ParseDecimal(title[|LabelPrefix|..]) == Some(lineNumber)
  {
    var title := LabelPrefix + Decimal(lineNumber);
    assert title[|LabelPrefix|..] == Decimal(lineNumber);
    DecimalRoundTrip(lineNumber);
    title
  }

  function Item(m: Marker, totalLines: int): (item: MinimapItem)
    requires totalLines != 0
    ensures item.target == m.element
    ensures item.className == "minimap-marker added" <==> m.kind == Add
    ensures item.className == "minimap-marker removed" <==> m.kind == Remove
    ensures item.topPercent == TopPercent(m.lineNumber, totalLines)
  {
    var percent := TopPercent(m.lineNumber, totalLines);
    MinimapItem(ClassName(m.kind), percent, m.element, Label(m.lineNumber))
  }

  /** `DiffMinimap({ markers, onMarkerClick, totalLines })`: nothing when there
      are no lines, otherwise one item per marker in marker order. */
  function Render(markers: seq<Marker>, totalLines: int): (items: Option<seq<MinimapItem>>)
    ensures items.None? <==> totalLines == 0
    ensures items.Some? ==> |items.value| == |markers|
    ensures items.Some? ==> forall i :: 0 <= i < |markers| ==>
      items.value[i].target == markers[i].element &&
      (items.value[i].className == "minimap-marker added" <==> markers[i].kind == Add) &&
      (items.value[i].className == "minimap-marker removed" <==> markers[i].kind == Remove) &&
      items.value[i].topPercent == TopPercent(markers[i].lineNumber, totalLines) &&
      items.value[i].title == Label(markers[i].lineNumber)
  {
    if totalLines == 0 then None
    else
      Some(seq(|markers|, i requires 0 <= i < |markers| => Item(markers[i], totalLines)))
  }

  /** A marker for a line of the document is drawn inside the track. */
  lemma PositionInTrack(lineNumber: int, totalLines: int)
    requires 0 <= lineNumber <= totalLines && totalLines > 0
    ensures 0.0 <= TopPercent(lineNumber, totalLines) <= 100.0
  {
    var q := lineNumber as real / totalLines as real;
    assert q * totalLines as real == lineNumber as real;
    assert q <= 1.0;
  }

  /** A later line is never drawn above an earlier one. */
  lemma PositionMonotone(line1: int, line2: int, totalLines: int)
    requires line1 <= line2 && totalLines > 0
    ensures TopPercent(line1, totalLines) <= TopPercent(line2, totalLines)
  {
    var q1 := line1 as real / totalLines as real;
    var q2 := line2 as real / totalLines as real;
    assert q1 * totalLines as real == line1 as real;
    assert q2 * totalLines as real == line2 as real;
    assert (q2 - q1) * totalLines as real >= 0.0;
  }

  /** Different line numbers get different labels. */
  lemma LabelsDistinct(line1: int, line2: int)
    requires line1 != line2
    ensures Label(line1) != Label(line2)
  {
    assert Label(line1)[|LabelPrefix|..] != Label(line2)[|LabelPrefix|..];
  }

  /** The click target of the viewer's marker `i` is its change row `i`. */
  lemma ClickTargetIsRow(rows: seq<Row>, totalLines: int, i: nat)
    requires NoDuplicates(rows) && totalLines != 0 && i < |rows|
    ensures var items := Render(BuildMarkers(rows), totalLines);
      items.Some? && IndexOf(rows, items.value[i].target) == Some(i)
  {
    IndexOfDistinct(rows, i);
  }

  /** Clicking the `i`-th minimap marker of the viewer makes change `i` current. */
  method ClickMinimapMarker(viewer: DiffViewer, i: nat) returns (scrolledTo: Option<Row>)
    requires viewer.Valid() && i < |viewer.minimapMarkers|
    modifies viewer
    ensures viewer.Valid()
    ensures viewer.currentChangeIndex == i
    ensures scrolledTo == Some(viewer.changeElements[i])
    ensures viewer.changeElements == old(viewer.changeElements)
    ensures viewer.minimapMarkers == old(viewer.minimapMarkers)
    ensures viewer.previousString == old(viewer.previousString)
    ensures viewer.currentString == old(viewer.currentString)
  {
    var totalLines := TotalLines(viewer.previousString, viewer.currentString);
    var items := Render(viewer.minimapMarkers, totalLines);
    scrolledTo := viewer.HandleMarkerClick(Some(items.value[i].target));
  }
}
