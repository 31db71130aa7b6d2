/** The radio grid of processDocument: ids `rb<row><column>` parsed into
    coordinates, a (maxX+1) x (maxY+1) grid filled in query order, and the
    selection of every column of row 4. */
module RadioGrid {
  import opened Dom
  import opened Effects

  /** The row whose radios the script checks in every column. */
  const SelectedRow: nat := 4

  /** A radio whose id parsed: row `x`, column `y`. */
  datatype Coord = Coord(x: nat, y: nat, input: Node)

  /** What `\d` matches in a JavaScript regular expression: an ASCII digit. */
  predicate IsDigit(c: char)
  {
    '0' <= c <= '9'
  }

  function DigitChar(d: nat): (c: char)
    requires d < 10
    ensures IsDigit(c)
  {
    ('0' as int + d) as char
  }

  /** The id of the radio at row `x`, column `y`. */
  function RadioId(x: nat, y: nat): string
    requires x < 10 && y < 10
  {
    "rb" + [DigitChar(x), DigitChar(y)]
  }

  /** `id.match(/^rb(\d)(\d)$/)` followed by `parseInt` of both groups. */
  function ParseRadioId(id: string): (r: Option<(nat, nat)>)
    ensures r.Some? ==> r.value.0 < 10 && r.value.1 < 10 && id == RadioId(r.value.0, r.value.1)
  {
    if |id| == 4 && id[0] == 'r' && id[1] == 'b' && IsDigit(id[2]) && IsDigit(id[3])
    then
      var r := Some((id[2] as int - '0' as int, id[3] as int - '0' as int));
      assert id == RadioId(r.value.0, r.value.1);
      r
    else None
  }

  /** Every row and column digit pair parses back from its id. */
  lemma RadioIdRoundTrip(x: nat, y: nat)
    requires x < 10 && y < 10
    ensures ParseRadioId(RadioId(x, y)) == Some((x, y))
  {
    var id := RadioId(x, y);
    assert id[0] == 'r' && id[1] == 'b' && id[2] == DigitChar(x) && id[3] == DigitChar(y);
  }

  /** An id yields (x, y) exactly when it is `rb` followed by the digits of
      x and y; every other id, `rb` followed by anything else included,
      yields nothing. */
  lemma ParseRadioIdExact(id: string, x: nat, y: nat)
    ensures ParseRadioId(id) == Some((x, y)) <==> x < 10 && y < 10 && id == RadioId(x, y)
  {
    if x < 10 && y < 10 && id == RadioId(x, y) {
      RadioIdRoundTrip(x, y);
    }
  }

  /** The `coords` list: one entry per radio whose id parses, in query order. */
  function ParsedCoords(radios: seq<Node>): seq<Coord>
  {
    if radios == [] then []
    else
      var last := radios[|radios| - 1];
      match ParseRadioId(last.id)
      case None => ParsedCoords(radios[..|radios| - 1])
      case Some(p) => ParsedCoords(radios[..|radios| - 1]) + [Coord(p.0, p.1, last)]
  }

  /** Every coordinate comes from a radio of the query whose id parses to it,
      and every such radio yields its coordinate. */
  lemma {:induction false} ParsedCoordsMembers(radios: seq<Node>)
    ensures |ParsedCoords(radios)| <= |radios|
    ensures forall c :: c in ParsedCoords(radios) ==>
      c.input in radios && ParseRadioId(c.input.id) == Some((c.x, c.y))
    ensures forall n :: n in radios && ParseRadioId(n.id).Some? ==>
      Coord(ParseRadioId(n.id).value.0, ParseRadioId(n.id).value.1, n) in ParsedCoords(radios)
  {
    if radios != [] {
      var init := radios[..|radios| - 1];
      assert radios == init + [radios[|radios| - 1]];
      ParsedCoordsMembers(init);
    }
  }

  /** The forEach that pushes `{x, y, input}` for each radio whose id matches. */
  method CollectCoords(radios: seq<Node>) returns (coords: seq<Coord>)
    ensures coords == ParsedCoords(radios)
  {
    coords := [];
    for i := 0 to |radios|
      invariant coords == ParsedCoords(radios[..i])
    {
      var input := radios[i];
      assert radios[..i + 1][..i] == radios[..i];
      match ParseRadioId(input.id) {
        case Some(p) => coords := coords + [Coord(p.0, p.1, input)];
        case None =>
      }
    }
    assert radios[..|radios|] == radios;
  }

  /** `Math.max(...coords.map(c => c.x))` */
  function MaxRow(cs: seq<Coord>): (m: nat)
    requires cs != []
    ensures forall c :: c in cs ==> c.x <= m
    ensures exists c :: c in cs && c.x == m
  {
    if |cs| == 1 then cs[0].x
    else
      var m := MaxRow(cs[1..]);
      assert forall c :: c in cs ==> c == cs[0] || c in cs[1..];
      if cs[0].x >= m then cs[0].x else m
  }

  /** `Math.max(...coords.map(c => c.y))` */
  function MaxColumn(cs: seq<Coord>): (m: nat)
    requires cs != []
    ensures forall c :: c in cs ==> c.y <= m
    ensures exists c :: c in cs && c.y == m
  {
    if |cs| == 1 then cs[0].y
    else
      var m := MaxColumn(cs[1..]);
      assert forall c :: c in cs ==> c == cs[0] || c in cs[1..];
      if cs[0].y >= m then cs[0].y else m
  }

  /** What `radioArray[x][y]` holds once every coordinate has been placed:
      the radio of the last coordinate at (x, y), or null (None). */
  function CellAt(cs: seq<Coord>, x: nat, y: nat): Option<Node>
  {
    if cs == [] then None
    else
      var last := cs[|cs| - 1];
      if last.x == x && last.y == y then Some(last.input) else CellAt(cs[..|cs| - 1], x, y)
  }

  /** A cell is null exactly when no coordinate maps to it; otherwise it holds
      the radio of the last coordinate, in query order, that maps to it. */
  lemma {:induction false} CellAtLast(cs: seq<Coord>, x: nat, y: nat)
    ensures CellAt(cs, x, y).None? <==> forall c :: c in cs ==> !(c.x == x && c.y == y)
    ensures CellAt(cs, x, y).Some? ==>
      exists j :: (0 <= j < |cs| && cs[j].x == x && cs[j].y == y && cs[j].input == CellAt(cs, x, y).value &&
        forall l :: j < l < |cs| ==> !(cs[l].x == x && cs[l].y == y))
  {
    if cs != [] {
      var init := cs[..|cs| - 1];
      assert cs == init + [cs[|cs| - 1]];
      CellAtLast(init, x, y);
    }
  }

  /** Placing one more coordinate overwrites its cell and leaves the others. */
  lemma CellAtPlace(cs: seq<Coord>, c: Coord, x: nat, y: nat)
    ensures CellAt(cs + [c], x, y) == if c.x == x && c.y == y then Some(c.input) else CellAt(cs, x, y)
  {
    assert (cs + [c])[..|cs|] == cs;
  }

  /** The same, stated over the queried radios: cell (x, y) is null exactly
      when no radio's id parses to (x, y); otherwise it holds the last radio,
      in query order, whose id does. */
  lemma {:induction false} CellAtRadios(radios: seq<Node>, x: nat, y: nat)
    ensures var cell := CellAt(ParsedCoords(radios), x, y);
      (cell.None? <==> forall n :: n in radios ==> ParseRadioId(n.id) != Some((x, y))) &&
      (cell.Some? ==>
        exists j :: (0 <= j < |radios| && radios[j] == cell.value &&
          ParseRadioId(radios[j].id) == Some((x, y)) &&
          forall l :: j < l < |radios| ==> ParseRadioId(radios[l].id) != Some((x, y))))
  {
    if radios != [] {
      var init := radios[..|radios| - 1];
      var last := radios[|radios| - 1];
      assert radios == init + [last];
      CellAtRadios(init, x, y);
      match ParseRadioId(last.id)
      case None =>
        assert ParsedCoords(radios) == ParsedCoords(init);
      case Some(p) =>
        assert ParsedCoords(radios) == ParsedCoords(init) + [Coord(p.0, p.1, last)];
        CellAtPlace(ParsedCoords(init), Coord(p.0, p.1, last), x, y);
    }
  }

  /** Allocates `radioArray` with every cell null and places each coordinate
      in turn, so that a later radio at the same coordinate wins. */
  method BuildRadioGrid(cs: seq<Coord>) returns (grid: array2<Option<Node>>)
    requires cs != []
    ensures fresh(grid)
    ensures grid.Length0 == MaxRow(cs) + 1 && grid.Length1 == MaxColumn(cs) + 1
    ensures forall x, y :: 0 <= x < grid.Length0 && 0 <= y < grid.Length1 ==>
      grid[x, y] == CellAt(cs, x, y)
  {
    var maxX := MaxRow(cs);
    var maxY := MaxColumn(cs);
    grid := new Option<Node>[maxX + 1, maxY + 1]((x, y) => None);
    for k := 0 to |cs|
      invariant forall x, y :: 0 <= x < grid.Length0 && 0 <= y < grid.Length1 ==>
        grid[x, y] == CellAt(cs[..k], x, y)
    {
      var c := cs[k];
      assert c in cs;
      grid[c.x, c.y] := Some(c.input);
      assert cs[..k + 1] == cs[..k] + [c];
      forall x, y | 0 <= x < grid.Length0 && 0 <= y < grid.Length1
        ensures grid[x, y] == CellAt(cs[..k + 1], x, y)
      {
        CellAtPlace(cs[..k], c, x, y);
      }
    }
    assert cs[..|cs|] == cs;
  }

  /** The loop `for (i = 0; i < cols; i++) radioArray[4][i].checked = true`
      over a row 4 that exists: it stops at the first null cell. */
  function RowChecks(cs: seq<Coord>, cols: nat): Outcome
  {
    if cols == 0 then Outcome([], None)
    else
      var s := RowChecks(cs, cols - 1);
      if s.fault.Some? then s
      else match CellAt(cs, SelectedRow, cols - 1)
        case None => Outcome(s.events, Some(EmptyCell(cols - 1)))
        case Some(n) => Outcome(s.events + [Checked(n.key)], None)
  }

  /** Once a column has thrown, later columns are never reached. */
  lemma {:induction false} RowChecksStops(cs: seq<Coord>, j: nat, n: nat)
    requires j <= n && RowChecks(cs, j).fault.Some?
    ensures RowChecks(cs, n) == RowChecks(cs, j)
    decreases n - j
  {
    if j < n {
      RowChecksStops(cs, j, n - 1);
    }
  }

  /** The selection step of a pass with at least one coordinate: without a
      row 4 the first access throws before anything is checked. */
  function SelectRowFour(cs: seq<Coord>): Outcome
    requires cs != []
  {
    if MaxRow(cs) < SelectedRow then Outcome([], Some(RowFourMissing))
    else RowChecks(cs, MaxColumn(cs) + 1)
  }

  /** The selection checks the row-4 radios of columns 0, 1, ... in order up
      to the first column whose row-4 cell is null; it fails exactly when
      there is such a column, and then names it. */
  lemma {:induction false} RowChecksSpec(cs: seq<Coord>, cols: nat)
    ensures var s := RowChecks(cs, cols);
      |s.events| <= cols &&
      (forall i :: 0 <= i < |s.events| ==>
        CellAt(cs, SelectedRow, i).Some? && s.events[i] == Checked(CellAt(cs, SelectedRow, i).value.key)) &&
      (s.fault == None <==> |s.events| == cols) &&
      (s.fault != None ==> s.fault == Some(EmptyCell(|s.events|)) && CellAt(cs, SelectedRow, |s.events|).None?)
  {
    if cols > 0 {
      RowChecksSpec(cs, cols - 1);
    }
  }

  /** Selection succeeds exactly when row 4 exists and has a radio in every
      column 0..maxY; it then checks exactly those radios, column by column. */
  lemma SelectRowFourSpec(cs: seq<Coord>)
    requires cs != []
    ensures var s := SelectRowFour(cs);
      (s.fault == None <==>
        MaxRow(cs) >= SelectedRow &&
        forall i :: 0 <= i <= MaxColumn(cs) ==> CellAt(cs, SelectedRow, i).Some?) &&
      (s.fault == None ==> |s.events| == MaxColumn(cs) + 1) &&
      (forall i :: 0 <= i < |s.events| ==>
        CellAt(cs, SelectedRow, i).Some? && s.events[i] == Checked(CellAt(cs, SelectedRow, i).value.key))
  {
    if MaxRow(cs) >= SelectedRow {
      RowChecksSpec(cs, MaxColumn(cs) + 1);
    }
  }

  /** The selection sets `checked` only on radios of the query whose id is
      `rb4` followed by a column digit. */
  lemma SelectionChecksOnlyRowFour(radios: seq<Node>)
    requires ParsedCoords(radios) != []
    ensures forall k :: Checked(k) in SelectRowFour(ParsedCoords(radios)).events ==>
      exists n :: (n in radios && n.key == k &&
        exists i :: 0 <= i < 10 && n.id == RadioId(SelectedRow, i))
  {
    var cs := ParsedCoords(radios);
    var s := SelectRowFour(cs);
    SelectRowFourSpec(cs);
    ParsedCoordsMembers(radios);
    forall k | Checked(k) in s.events
      ensures exists n :: (n in radios && n.key == k &&
        exists i :: 0 <= i < 10 && n.id == RadioId(SelectedRow, i))
    {
      var i :| 0 <= i < |s.events| && s.events[i] == Checked(k);
      var radio := CellAt(cs, SelectedRow, i).value;
      CellAtLast(cs, SelectedRow, i);
      var j :| 0 <= j < |cs| && cs[j].x == SelectedRow && cs[j].y == i && cs[j].input == radio;
      assert cs[j] in cs;
    }
  }
}
