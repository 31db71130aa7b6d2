/** processDocument: one pass over one document. It clicks the first detail
    button with the exact inline handler, then, when some radio id parses,
    checks row 4 of the radio grid in every column and clicks the continue
    button. */
module FormPass {
  import opened Dom
  import opened Effects
  import opened DeepQuery
  import opened RadioGrid

  /** The inline handler a detail button must carry, compared exactly. */
  const DetailHandler: string := "OnDetailClick(this);"

  /** `.filter(btn => btn.getAttribute("onclick") === handler)` */
  function WithHandler(buttons: seq<Node>, handler: string): (r: seq<Node>)
    ensures forall n :: n in r <==> n in buttons && n.onclick == Some(handler)
  {
    if buttons == [] then []
    else if buttons[0].onclick == Some(handler) then [buttons[0]] + WithHandler(buttons[1..], handler)
    else WithHandler(buttons[1..], handler)
  }

  /** The head of the filtered list is the first button, in query order,
      whose onclick attribute is exactly the handler. */
  lemma {:induction false} WithHandlerFirst(buttons: seq<Node>, handler: string)
    requires WithHandler(buttons, handler) != []
    ensures exists j :: (0 <= j < |buttons| && buttons[j] == WithHandler(buttons, handler)[0] &&
      forall l :: 0 <= l < j ==> buttons[l].onclick != Some(handler))
  {
    if buttons[0].onclick != Some(handler) {
      WithHandlerFirst(buttons[1..], handler);
      var j :| 0 <= j < |buttons[1..]| && buttons[1..][j] == WithHandler(buttons[1..], handler)[0] &&
        forall l :: 0 <= l < j ==> buttons[1..][l].onclick != Some(handler);
      assert buttons[j + 1] == WithHandler(buttons, handler)[0];
    }
  }

  /** The detail buttons found by the deep query that pass the filter. */
  function DetailButtons(doc: Root): seq<Node>
  {
    WithHandler(QuerySelectorAllDeep(DetailButton, doc), DetailHandler)
  }

  /** The detail step: a click on the first filtered detail button, if any. */
  function DetailClick(doc: Root): seq<Event>
  {
    var d := DetailButtons(doc);
    if |d| > 0 then [Clicked(d[0].key)] else []
  }

  /** Only the first query result whose onclick attribute is exactly
      `OnDetailClick(this);` is clicked, and nothing when none is. */
  lemma DetailClickFirst(doc: Root)
    ensures var q := QuerySelectorAllDeep(DetailButton, doc);
      var r := DetailClick(doc);
      (r == [] <==> forall n :: n in q ==> n.onclick != Some(DetailHandler)) &&
      (r != [] ==> exists j :: (0 <= j < |q| && r == [Clicked(q[j].key)] &&
        q[j].onclick == Some(DetailHandler) &&
        forall l :: 0 <= l < j ==> q[l].onclick != Some(DetailHandler)))
  {
    var q := QuerySelectorAllDeep(DetailButton, doc);
    var d := DetailButtons(doc);
    if d != [] {
      assert d[0] in d;
      WithHandlerFirst(q, DetailHandler);
    }
  }

  /** The coordinates of the radios a pass finds. */
  function PassCoords(doc: Root): seq<Coord>
  {
    ParsedCoords(QuerySelectorAllDeep(RadioInput, doc))
  }

  /** The steps after the detail click: nothing without coordinates;
      otherwise the row-4 selection, then a click on the first continue
      button, which throws when there is none. */
  function RadioStep(cs: seq<Coord>, continueButtons: seq<Node>): Outcome
  {
    if cs == [] then Outcome([], None)
    else
      var selection := SelectRowFour(cs);
      if selection.fault.Some? then selection
      else if continueButtons == [] then Outcome(selection.events, Some(NoContinueButton))
      else Outcome(selection.events + [Clicked(continueButtons[0].key)], None)
  }

  /** The effects of processDocument on `doc` and the exception it throws. */
  function Pass(doc: Root): Outcome
  {
    var rest := RadioStep(PassCoords(doc), QuerySelectorAllDeep(ContinueButton, doc));
    Outcome(DetailClick(doc) + rest.events, rest.fault)
  }

  /** The selection loop over the grid: `radioArray[4][i].checked = true` for
      i from 0 while i < radioArray[0].length, throwing where the row or the
      cell is missing. */
  method CheckRowFour(page: Page, grid: array2<Option<Node>>, ghost cs: seq<Coord>) returns (fault: Option<Fault>)
    requires cs != []
    requires grid.Length0 == MaxRow(cs) + 1 && grid.Length1 == MaxColumn(cs) + 1
    requires forall x, y :: 0 <= x < grid.Length0 && 0 <= y < grid.Length1 ==> grid[x, y] == CellAt(cs, x, y)
    modifies page
    ensures page.trace == old(page.trace) + SelectRowFour(cs).events
    ensures fault == SelectRowFour(cs).fault
  {
    var i := 0;
    while i < grid.Length1
      invariant 0 <= i <= grid.Length1
      invariant i > 0 ==> grid.Length0 > SelectedRow
      invariant RowChecks(cs, i).fault == None
      invariant page.trace == old(page.trace) + RowChecks(cs, i).events
    {
      if grid.Length0 <= SelectedRow {
        return Some(RowFourMissing);
      }
      match grid[SelectedRow, i] {
        case None =>
          RowChecksStops(cs, i + 1, grid.Length1);
          return Some(EmptyCell(i));
        case Some(radio) =>
          page.Check(radio.key);
      }
      i := i + 1;
    }
    return None;
  }

  lemma AppendAssoc(a: seq<Event>, b: seq<Event>, c: seq<Event>)
    ensures a + b + c == a + (b + c)
  {
  }

  /** The tail of processDocument: return early without coordinates, else
      build the grid, check row 4 and click the first continue button. */
  method SelectAndContinue(page: Page, coords: seq<Coord>, continueButtons: seq<Node>) returns (fault: Option<Fault>)
    modifies page
    ensures page.trace == old(page.trace) + RadioStep(coords, continueButtons).events
    ensures fault == RadioStep(coords, continueButtons).fault
  {
    if |coords| == 0 {
      return None;
    }
    var grid := BuildRadioGrid(coords);
    fault := CheckRowFour(page, grid, coords);
    if fault.Some? {
      return;
    }
    if |continueButtons| == 0 {
      return Some(NoContinueButton);
    }
    page.Click(continueButtons[0].key);
  }

  /** processDocument(doc) */
  method ProcessDocument(page: Page, doc: Root) returns (fault: Option<Fault>)
    modifies page
    ensures page.trace == old(page.trace) + Pass(doc).events
    ensures fault == Pass(doc).fault
  {
    var detailButtons := DetailButtons(doc);
    if |detailButtons| > 0 {
      page.Click(detailButtons[0].key);
    }
    var continueButtons := QuerySelectorAllDeep(ContinueButton, doc);
    var radios := QuerySelectorAllDeep(RadioInput, doc);
    var coords := CollectCoords(radios);
    assert page.trace == old(page.trace) + DetailClick(doc);
    assert coords == PassCoords(doc);
    ghost var rest := RadioStep(coords, continueButtons);
    assert Pass(doc) == Outcome(DetailClick(doc) + rest.events, rest.fault);
    AppendAssoc(old(page.trace), DetailClick(doc), rest.events);
    fault := SelectAndContinue(page, coords, continueButtons);
  }

  /** A pass that finds coordinates and completes makes the detail click (if
      any) first, then checks the row-4 radio of every column 0..maxY in
      order, and clicks the first continue button last. */
  lemma PassCompletes(doc: Root)
    requires PassCoords(doc) != [] && Pass(doc).fault == None
    ensures var cs := PassCoords(doc);
      var ev := Pass(doc).events;
      var d := |DetailClick(doc)|;
      var continueButtons := QuerySelectorAllDeep(ContinueButton, doc);
      continueButtons != [] &&
      |ev| == d + MaxColumn(cs) + 2 &&
      ev[..d] == DetailClick(doc) &&
      (forall i :: 0 <= i <= MaxColumn(cs) ==>
        CellAt(cs, SelectedRow, i).Some? && ev[d + i] == Checked(CellAt(cs, SelectedRow, i).value.key)) &&
      ev[|ev| - 1] == Clicked(continueButtons[0].key)
  {
    var cs := PassCoords(doc);
    SelectRowFourSpec(cs);
  }

  /** A pass throws exactly when coordinates exist and row 4 is missing, or
      a row-4 cell of some column 0..maxY is null, or no continue button was
      found. When it throws, the effects after the detail click are the
      checks of the columns before the failing one, and the continue button
      is not clicked. Without coordinates only the detail click happens. */
  lemma PassFaults(doc: Root)
    ensures var cs := PassCoords(doc);
      var p := Pass(doc);
      var d := |DetailClick(doc)|;
      (p.fault != None <==>
        cs != [] &&
        (MaxRow(cs) < SelectedRow ||
         (exists i :: 0 <= i <= MaxColumn(cs) && CellAt(cs, SelectedRow, i).None?) ||
         QuerySelectorAllDeep(ContinueButton, doc) == [])) &&
      (cs == [] ==> p.events == DetailClick(doc)) &&
      (p.fault != None ==>
        d <= |p.events| && p.events[..d] == DetailClick(doc) &&
        forall i :: d <= i < |p.events| ==>
          CellAt(cs, SelectedRow, i - d).Some? &&
          p.events[i] == Checked(CellAt(cs, SelectedRow, i - d).value.key))
  {
    var cs := PassCoords(doc);
    if cs != [] {
      SelectRowFourSpec(cs);
    }
  }

  /** Which exception the steps after the detail click throw:
      `RowFourMissing` exactly when row 4 does not exist, and then nothing is
      checked; an `EmptyCell` names the first column whose row-4 cell is
      null, after the checks of every column before it; `NoContinueButton`
      comes after the checks of all columns 0..maxY. */
  lemma RadioStepFaultKind(cs: seq<Coord>, continueButtons: seq<Node>)
    requires cs != [] && RadioStep(cs, continueButtons).fault != None
    ensures var p := RadioStep(cs, continueButtons);
      (p.fault == Some(RowFourMissing) <==> MaxRow(cs) < SelectedRow) &&
      (p.fault == Some(RowFourMissing) ==> p.events == []) &&
      (p.fault == Some(NoContinueButton) ==> |p.events| == MaxColumn(cs) + 1) &&
      (p.fault.value.EmptyCell? ==>
        p.fault == Some(EmptyCell(|p.events|)) &&
        |p.events| <= MaxColumn(cs) && CellAt(cs, SelectedRow, |p.events|).None?)
  {
    if MaxRow(cs) >= SelectedRow {
      RowChecksSpec(cs, MaxColumn(cs) + 1);
    }
  }

  /** Which exception a failing pass throws, counted from the end of the
      detail click: see `RadioStepFaultKind`. */
  lemma PassFaultKind(doc: Root)
    requires PassCoords(doc) != [] && Pass(doc).fault != None
    ensures var cs := PassCoords(doc);
      var p := Pass(doc);
      var d := |DetailClick(doc)|;
      (p.fault == Some(RowFourMissing) <==> MaxRow(cs) < SelectedRow) &&
      (p.fault == Some(RowFourMissing) ==> p.events == DetailClick(doc)) &&
      (p.fault == Some(NoContinueButton) ==> |p.events| == d + MaxColumn(cs) + 1) &&
      (p.fault.value.EmptyCell? ==>
        d <= |p.events| && p.fault == Some(EmptyCell(|p.events| - d)) &&
        |p.events| - d <= MaxColumn(cs) && CellAt(cs, SelectedRow, |p.events| - d).None?)
  {
    var cs := PassCoords(doc);
    var rest := RadioStep(cs, QuerySelectorAllDeep(ContinueButton, doc));
    assert Pass(doc) == Outcome(DetailClick(doc) + rest.events, rest.fault);
    RadioStepFaultKind(cs, QuerySelectorAllDeep(ContinueButton, doc));
  }

  /** The pass sets `checked` only on radios the deep query found whose id is
      `rb4` followed by a column digit. */
  lemma PassChecksOnlyRowFour(doc: Root)
    ensures forall k :: Checked(k) in Pass(doc).events ==>
      exists n :: (n in QuerySelectorAllDeep(RadioInput, doc) && n.key == k &&
        exists i :: 0 <= i < 10 && n.id == RadioId(SelectedRow, i))
  {
    var radios := QuerySelectorAllDeep(RadioInput, doc);
    var cs := PassCoords(doc);
    var d := DetailClick(doc);
    var rest := RadioStep(cs, QuerySelectorAllDeep(ContinueButton, doc));
    assert Pass(doc).events == d + rest.events;
    assert forall e :: e in d ==> e.Clicked?;
    if cs != [] {
      SelectionChecksOnlyRowFour(radios);
      var s := SelectRowFour(cs);
      assert forall e :: e in rest.events ==> e in s.events || e.Clicked?;
    }
  }
}
