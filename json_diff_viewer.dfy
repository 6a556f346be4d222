/** The side-by-side configuration diff: the texts it compares, the index of
    changed rows it scans out of the rendered diff, and the cursor that the
    previous/next buttons and the minimap move over that index. */
module JsonDiffViewer {
  import opened Util
  import opened Text

  // ---------------------------------------------------------------------------
  // The compared texts
  // ---------------------------------------------------------------------------

  /** `JSON.stringify(data, null, 2) || '{}'`, given what `JSON.stringify`
      produced (`None` for `undefined`). */
  function SideText(serialised: Option<string>): (text: string)
    ensures text != ""
    ensures serialised.Some? && serialised.value != "" ==> text == serialised.value
    ensures serialised.None? || serialised.value == "" ==> text == "{}"
  {
    match serialised
    case Some(s) => if s == "" then "{}" else s
    case None => "{}"
  }

  /** Number of lines of the longer side: `max(prev.split('\n').length, cur.split('\n').length)`. */
  function TotalLines(previousString: string, currentString: string): (n: nat)
    ensures n >= 1
    ensures n == 1 + if Occurrences(previousString, '\n') >= Occurrences(currentString, '\n')
                     then Occurrences(previousString, '\n') else Occurrences(currentString, '\n')
  {
    SplitCount(previousString, '\n');
    SplitCount(currentString, '\n');
    var p := |Split(previousString, '\n')|;
    var c := |Split(currentString, '\n')|;
    if p >= c then p else c
  }

  // ---------------------------------------------------------------------------
  // Rows of the rendered diff and the markers built from them
  // ---------------------------------------------------------------------------

  /** A `<tr>` of the rendered diff: its identity, its vertical offset, whether it
      holds an added cell, and the parsed number of its line-number cell when it
      has one. */
  datatype Row = Row(id: nat, offsetTop: int, hasAdd: bool, lineNumber: Option<int>)

  datatype ChangeType = Add | Remove

  /** One minimap marker: `{ lineNumber, type, element }`. */
  datatype Marker = Marker(lineNumber: int, kind: ChangeType, element: Row)

  /** `.filter((tr, index, self) => tr && self.indexOf(tr) === index)`: the rows
      that exist, each at its first occurrence. */
  function FirstOccurrences(cells: seq<Option<Row>>): (rows: seq<Row>)
    ensures NoDuplicates(rows)
    ensures forall r :: r in rows <==> Some(r) in cells
    decreases |cells|
  {
    if |cells| == 0 then []
    else
      var front := cells[..|cells| - 1];
      var last := cells[|cells| - 1];
      assert cells == front + [last];
      var kept := FirstOccurrences(front);
      if last.Some? && IndexOf(cells, last) == Some(|cells| - 1) then kept + [last.value] else kept
  }

  /** Ascending by `offsetTop`. */
  predicate SortedByOffset(rows: seq<Row>)
  {
    forall i, j :: 0 <= i < j < |rows| ==> rows[i].offsetTop <= rows[j].offsetTop
  }

  /** No row lies above `top`. */
  predicate Below(top: int, rows: seq<Row>)
  {
    forall i :: 0 <= i < |rows| ==> top <= rows[i].offsetTop
  }

  /** Everything in a sequence made of `x` and rows below `top` is below `top`. */
  lemma BelowOfMembers(top: int, x: Row, rows: seq<Row>, r: seq<Row>)
    requires Below(top, rows) && top <= x.offsetTop
    requires forall i :: 0 <= i < |r| ==> r[i] == x || r[i] in rows
    ensures Below(top, r)
  {
    forall i | 0 <= i < |r| ensures top <= r[i].offsetTop {
      if r[i] != x {
        var j :| 0 <= j < |rows| && rows[j] == r[i];
      }
    }
  }

  /** Places `x` before the first row that is not above it. */
  function Insert(x: Row, rows: seq<Row>): (r: seq<Row>)
    ensures |r| == |rows| + 1
    ensures forall i :: 0 <= i < |r| ==> r[i] == x || r[i] in rows
    ensures SortedByOffset(rows) ==> SortedByOffset(r)
    decreases |rows|
  {
    if |rows| == 0 || x.offsetTop <= rows[0].offsetTop then [x] + rows
    else
      var rest := Insert(x, rows[1..]);
      var r := [rows[0]] + rest;
      assert forall i :: 0 <= i < |r| ==> r[i] == x || r[i] in rows by {
        forall i | 0 < i < |r| && r[i] != x ensures r[i] in rows {
          var j :| 0 <= j < |rows[1..]| && rows[1..][j] == rest[i - 1];
          assert rows[j + 1] == r[i];
        }
      }
      assert SortedByOffset(rows) ==> SortedByOffset(r) by {
        if SortedByOffset(rows) {
          assert Below(rows[0].offsetTop, rows[1..]);
          BelowOfMembers(rows[0].offsetTop, x, rows[1..], rest);
          SortedCons(rows[0], rest);
        }
      }
      r
  }

  /** A row above a sorted sequence extends it sorted. */
  lemma SortedCons(y: Row, rest: seq<Row>)
    requires Below(y.offsetTop, rest) && SortedByOffset(rest)
    ensures SortedByOffset([y] + rest)
  {
  }

  /** `rows.sort((a, b) => a.offsetTop - b.offsetTop)`. */
  function SortByOffset(rows: seq<Row>): (r: seq<Row>)
    ensures |r| == |rows|
    ensures forall i :: 0 <= i < |r| ==> r[i] in rows
    ensures SortedByOffset(r)
    decreases |rows|
  {
    if |rows| == 0 then []
    else
      assert rows == [rows[0]] + rows[1..];
      Insert(rows[0], SortByOffset(rows[1..]))
  }

  /** Inserting adds exactly the one row. */
  lemma {:induction false} InsertPermutes(x: Row, rows: seq<Row>)
    ensures multiset(Insert(x, rows)) == multiset(rows) + multiset{x}
    decreases |rows|
  {
    if |rows| > 0 && x.offsetTop > rows[0].offsetTop {
      InsertPermutes(x, rows[1..]);
      assert rows == [rows[0]] + rows[1..];
    }
  }

  /** Sorting is a permutation: no row is lost, added or repeated. */
  lemma {:induction false} SortPermutes(rows: seq<Row>)
    ensures multiset(SortByOffset(rows)) == multiset(rows)
    decreases |rows|
  {
    if |rows| > 0 {
      SortPermutes(rows[1..]);
      InsertPermutes(rows[0], SortByOffset(rows[1..]));
      assert rows == [rows[0]] + rows[1..];
    }
  }

  /** Inserting a row that is not there yet keeps the rows distinct. */
  lemma {:induction false} InsertDistinct(x: Row, rows: seq<Row>)
    requires NoDuplicates(rows) && x !in rows
    ensures NoDuplicates(Insert(x, rows))
    decreases |rows|
  {
    if |rows| > 0 && x.offsetTop > rows[0].offsetTop {
      var rest := Insert(x, rows[1..]);
      assert rows == [rows[0]] + rows[1..];
      InsertDistinct(x, rows[1..]);
      assert rows[0] !in rows[1..];
      assert rows[0] !in rest;
    }
  }

  /** Sorting keeps the rows distinct. */
  lemma {:induction false} SortDistinct(rows: seq<Row>)
    requires NoDuplicates(rows)
    ensures NoDuplicates(SortByOffset(rows))
    decreases |rows|
  {
    if |rows| > 0 {
      assert rows == [rows[0]] + rows[1..];
      SortDistinct(rows[1..]);
      assert rows[0] !in rows[1..];
      assert rows[0] !in SortByOffset(rows[1..]);
      InsertDistinct(rows[0], SortByOffset(rows[1..]));
    }
  }

  /** The row of an added cell holds that cell, so its `.line-diff-add` query finds
      one: every row reached through `addedCells` has `hasAdd` set. */
  predicate AddedCellsMarked(addedCells: seq<Option<Row>>)
  {
    forall c :: c in addedCells && c.Some? ==> c.value.hasAdd
  }

  /** The change rows one scan finds: rows of the added cells, then of the removed
      cells, missing and repeated rows dropped, sorted by offset. Every changed row
      appears exactly once, and only those, top to bottom. */
  function ScanRows(addedCells: seq<Option<Row>>, removedCells: seq<Option<Row>>): (rows: seq<Row>)
    requires AddedCellsMarked(addedCells)
    ensures NoDuplicates(rows) && SortedByOffset(rows)
    ensures forall r :: r in rows <==> Some(r) in addedCells || Some(r) in removedCells
  {
    var firsts := FirstOccurrences(addedCells + removedCells);
    var rows := SortByOffset(firsts);
    SortDistinct(firsts);
    SortPermutes(firsts);
    assert forall r :: r in rows <==> r in firsts by {
      forall r ensures r in rows <==> r in firsts {
        assert r in multiset(firsts) <==> r in multiset(rows);
      }
    }
    rows
  }

  /** The markers built for a list of rows, one per row and in the same order. */
  function BuildMarkers(rows: seq<Row>): (markers: seq<Marker>)
    ensures |markers| == |rows|
    ensures forall i :: 0 <= i < |rows| ==>
      markers[i].element == rows[i] &&
      (markers[i].kind == Add <==> rows[i].hasAdd) &&
      markers[i].lineNumber == (if rows[i].lineNumber.Some? then rows[i].lineNumber.value else 0)
  {
    seq(|rows|, i requires 0 <= i < |rows| =>
      Marker(if rows[i].lineNumber.Some? then rows[i].lineNumber.value else 0,
             if rows[i].hasAdd then Add else Remove,
             rows[i]))
  }

  // ---------------------------------------------------------------------------
  // The cursor
  // ---------------------------------------------------------------------------

  /** Where `navigateToChange(direction)` leaves the cursor over `count` rows. */
  function NavigateTarget(cursor: int, count: nat, direction: int): (r: int)
    ensures r == cursor || r == cursor + direction
    ensures r != cursor ==> 0 <= r < count
    ensures -1 <= cursor < count ==> -1 <= r < count
  {
    if count == 0 then cursor
    else if 0 <= cursor + direction < count then cursor + direction
    else cursor
  }

  /** The cursor after pressing the same button `k` times. */
  function Repeat(cursor: int, count: nat, direction: int, k: nat): int
    decreases k
  {
    if k == 0 then cursor else Repeat(NavigateTarget(cursor, count, direction), count, direction, k - 1)
  }

  /** From the initial cursor, "next" pressed `k` times stops at the last row. */
  lemma {:induction false} NextRepeated(cursor: int, count: nat, k: nat)
    requires -1 <= cursor < count
    ensures Repeat(cursor, count, 1, k) == if cursor + k < count then cursor + k else count - 1
    decreases k
  {
    if k > 0 {
      NextRepeated(NavigateTarget(cursor, count, 1), count, k - 1);
    }
  }

  /** "previous" pressed `k` times stops at the first row and never wraps. */
  lemma {:induction false} PreviousRepeated(cursor: int, count: nat, k: nat)
    requires 0 <= cursor < count
    ensures Repeat(cursor, count, -1, k) == if cursor - k >= 0 then cursor - k else 0
    decreases k
  {
    if k > 0 {
      PreviousRepeated(NavigateTarget(cursor, count, -1), count, k - 1);
    }
  }

  /** Before any navigation, "previous" does nothing however often it is pressed. */
  lemma {:induction false} PreviousFromStart(count: nat, k: nat)
    ensures Repeat(-1, count, -1, k) == -1
    decreases k
  {
    if k > 0 {
      PreviousFromStart(count, k - 1);
    }
  }

  const NoChangesText: string := "לא נמצאו שינויים"

  // ---------------------------------------------------------------------------
  // The component's state
  // ---------------------------------------------------------------------------

  /** The viewer's memoised texts and its state: the change rows, the minimap
      markers and the current change index. */
  class DiffViewer {
    var previousString: string
    var currentString: string
    var changeElements: seq<Row>
    var minimapMarkers: seq<Marker>
    var currentChangeIndex: int

    /** The cursor is -1 or a row index; the rows are distinct and top to bottom;
        there is one marker per row. */
    ghost predicate Valid()
      reads this
    {
      -1 <= currentChangeIndex < |changeElements| &&
      NoDuplicates(changeElements) && SortedByOffset(changeElements) &&
      minimapMarkers == BuildMarkers(changeElements) &&
      previousString != "" && currentString != ""
    }

    /** First render: both texts, no rows, no markers, cursor -1. */
    constructor (previousData: Option<string>, currentData: Option<string>)
      ensures Valid()
      ensures previousString == SideText(previousData) && currentString == SideText(currentData)
      ensures changeElements == [] && minimapMarkers == [] && currentChangeIndex == -1
    {
      previousString := SideText(previousData);
      currentString := SideText(currentData);
      changeElements := [];
      minimapMarkers := [];
      currentChangeIndex := -1;
    }

    /** New props: only the memoised texts are recomputed; the rows, the markers
        and the cursor stay as they are until a scan replaces them. */
    method SetData(previousData: Option<string>, currentData: Option<string>)
      requires Valid()
      modifies this
      ensures Valid()
      ensures previousString == SideText(previousData) && currentString == SideText(currentData)
      ensures changeElements == old(changeElements) && minimapMarkers == old(minimapMarkers)
      ensures currentChangeIndex == old(currentChangeIndex)
    {
      previousString := SideText(previousData);
      currentString := SideText(currentData);
    }

    /** `scanForChanges`: the state is replaced only when the number of rows found
        differs from the number stored. */
    method ScanForChanges(addedCells: seq<Option<Row>>, removedCells: seq<Option<Row>>)
      requires Valid()
      requires AddedCellsMarked(addedCells)
      modifies this
      ensures Valid()
      ensures previousString == old(previousString) && currentString == old(currentString)
      ensures var rows := ScanRows(addedCells, removedCells);
        if |rows| != old(|changeElements|) then
          changeElements == rows && minimapMarkers == BuildMarkers(rows) && currentChangeIndex == -1
        else
          changeElements == old(changeElements) && minimapMarkers == old(minimapMarkers) &&
          currentChangeIndex == old(currentChangeIndex)
    {
      var allChangeRows := ScanRows(addedCells, removedCells);
      if |allChangeRows| != |changeElements| {
        changeElements := allChangeRows;
        minimapMarkers := BuildMarkers(allChangeRows);
        currentChangeIndex := -1;
      }
    }

    /** The scan as evidently intended: the state is replaced whenever the rows
        found differ from the rows stored, so the index always matches the diff. */
    method ScanForChangesFixed(addedCells: seq<Option<Row>>, removedCells: seq<Option<Row>>)
      requires Valid()
      requires AddedCellsMarked(addedCells)
      modifies this
      ensures Valid()
      ensures previousString == old(previousString) && currentString == old(currentString)
      ensures changeElements == ScanRows(addedCells, removedCells)
      ensures minimapMarkers == BuildMarkers(changeElements)
      ensures currentChangeIndex == if changeElements == old(changeElements) then old(currentChangeIndex) else -1
    {
      var allChangeRows := ScanRows(addedCells, removedCells);
      if allChangeRows != changeElements {
        changeElements := allChangeRows;
        minimapMarkers := BuildMarkers(allChangeRows);
        currentChangeIndex := -1;
      }
    }

    /** `navigateToChange(direction)`: moves the cursor when the target is a row,
        and returns the row scrolled into view. */
    method NavigateToChange(direction: int) returns (scrolledTo: Option<Row>)
      requires Valid()
      modifies this
      ensures Valid()
      ensures previousString == old(previousString) && currentString == old(currentString)
      ensures changeElements == old(changeElements) && minimapMarkers == old(minimapMarkers)
      ensures currentChangeIndex == NavigateTarget(old(currentChangeIndex), |changeElements|, direction)
      ensures scrolledTo.Some? <==> |changeElements| > 0 && 0 <= old(currentChangeIndex) + direction < |changeElements|
      ensures scrolledTo.Some? ==> scrolledTo.value == changeElements[currentChangeIndex]
    {
      scrolledTo := None;
      if |changeElements| == 0 {
        return;
      }
      var newIndex := currentChangeIndex + direction;
      if 0 <= newIndex < |changeElements| {
        currentChangeIndex := newIndex;
        scrolledTo := Some(changeElements[newIndex]);
      }
    }

    /** `handleMarkerClick(element)`: scrolls to the element and moves the cursor
        to its index when it is one of the rows. */
    method HandleMarkerClick(element: Option<Row>) returns (scrolledTo: Option<Row>)
      requires Valid()
      modifies this
      ensures Valid()
      ensures scrolledTo == element
      ensures previousString == old(previousString) && currentString == old(currentString)
      ensures changeElements == old(changeElements) && minimapMarkers == old(minimapMarkers)
      ensures element.Some? && element.value in changeElements ==>
        0 <= currentChangeIndex < |changeElements| && changeElements[currentChangeIndex] == element.value
      ensures element.None? || element.value !in changeElements ==> currentChangeIndex == old(currentChangeIndex)
    {
      scrolledTo := element;
      if element.Some? {
        var index := IndexOf(changeElements, element.value);
        if index.Some? {
          currentChangeIndex := index.value;
        }
      }
    }

    predicate HasChanges()
      reads this
    {
      |changeElements| > 0
    }

    /** The "previous" button is enabled exactly when pressing it moves the cursor. */
    function PreviousEnabled(): (enabled: bool)
      reads this
      ensures Valid() ==> (enabled <==> NavigateTarget(currentChangeIndex, |changeElements|, -1) != currentChangeIndex)
    {
      !(!HasChanges() || currentChangeIndex <= 0)
    }

    /** The "next" button is enabled exactly when pressing it moves the cursor. */
    function NextEnabled(): (enabled: bool)
      reads this
      ensures Valid() ==> (enabled <==> NavigateTarget(currentChangeIndex, |changeElements|, 1) != currentChangeIndex)
    {
      !(!HasChanges() || currentChangeIndex >= |changeElements| - 1)
    }

    /** The change number the status shows: the cursor's row counted from 1, or 1
        before any navigation. */
    function StatusPosition(): (p: int)
      reads this
      ensures Valid() && HasChanges() ==> 1 <= p <= |changeElements|
      ensures currentChangeIndex >= 0 ==> p - 1 == currentChangeIndex
      ensures currentChangeIndex < 0 ==> p == 1
    {
      if currentChangeIndex > -1 then currentChangeIndex + 1 else 1
    }

    /** The status line: "change p of n" while there are rows, the no-changes
        text otherwise. */
    function StatusText(): (text: string)
      reads this
      ensures text == NoChangesText <==> !HasChanges()
      ensures HasChanges() ==> text == StatusLine(StatusPosition(), |changeElements|)
    {
      if HasChanges() then
        var t := StatusLine(StatusPosition(), |changeElements|);
        assert t[0] != NoChangesText[0];
        t
      else NoChangesText
    }
  }

  const StatusWord: string := "שינוי "
  const StatusOf: string := " מתוך "

  /** "שינוי p מתוך n": change p of n. */
  function StatusLine(position: int, count: int): string
  {
    StatusWord + Decimal(position) + StatusOf + Decimal(count)
  }

  /** The status line reads back: after the leading word comes the position, then
      the connecting word, then the count, each recoverable from the text. */
  lemma StatusLineReadsBack(position: int, count: int)
    ensures var s := StatusLine(position, count);
      var k := |StatusWord|;
      var m := k + |Decimal(position)|;
      |s| == m + |StatusOf| + |Decimal(count)| &&
      StartsWith(s, StatusWord) &&
      ParseDecimal(s[k..m]) == Some(position) &&
      s[m..m + |StatusOf|] == StatusOf &&
      ParseDecimal(s[m + |StatusOf|..]) == Some(count)
  {
    SlicesOfFour(StatusWord, Decimal(position), StatusOf, Decimal(count));
    DecimalRoundTrip(position);
    DecimalRoundTrip(count);
  }

  /** The four parts of a concatenation are recovered by slicing at their lengths. */
  lemma SlicesOfFour(a: string, b: string, c: string, d: string)
    ensures var s := a + b + c + d;
      var m := |a| + |b|;
      |s| == m + |c| + |d| && s[..|a|] == a && s[|a|..m] == b && s[m..m + |c|] == c && s[m + |c|..] == d
  {
    var s := a + b + c + d;
    var m := |a| + |b|;
    assert s[..|a|] == a;
    assert s[|a|..m] == b;
    assert s[m..m + |c|] == c;
    assert s[m + |c|..] == d;
  }

  /** Two scans over different rows of the same number leave the first scan's rows
      and markers in place: the index no longer matches the rendered diff. */
  lemma SameCountScanKeepsStaleRows(first: Row, second: Row)
    requires first != second
    requires first.hasAdd && second.hasAdd
    ensures var stored := ScanRows([Some(first)], []);
      var scanned := ScanRows([Some(second)], []);
      stored == [first] && scanned == [second] && |scanned| == |stored|
  {
    ScanOfOneRow(first);
    ScanOfOneRow(second);
  }

  /** The same defect on the component itself: a viewer that has scanned one row
      keeps that row, and its marker, after a scan that finds a different single
      row. */
  method StaleAfterSameCountScan(first: Row, second: Row) returns (viewer: DiffViewer)
    requires first != second
    requires first.hasAdd && second.hasAdd
    ensures viewer.Valid()
    ensures ScanRows([Some(second)], []) == [second]
    ensures viewer.changeElements == [first] && viewer.minimapMarkers == BuildMarkers([first])
  {
    ScanOfOneRow(first);
    ScanOfOneRow(second);
    viewer := new DiffViewer(None, None);
    viewer.ScanForChanges([Some(first)], []);
    viewer.ScanForChanges([Some(second)], []);
  }

  /** A scan that finds a single added cell yields its row. */
  lemma ScanOfOneRow(x: Row)
    requires x.hasAdd
    ensures ScanRows([Some(x)], []) == [x]
  {
    assert [Some(x)] + [] == [Some(x)];
    assert IndexOf([Some(x)], Some(x)) == Some(0);
    assert FirstOccurrences([Some(x)]) == [x];
    assert SortByOffset([x]) == Insert(x, []);
  }

}
