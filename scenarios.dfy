/** A worked example: radios with ids rb00, rb01, rb10, rb11, rb40, rb41 and
    rb42 in query order give a grid with maxX = 4 and maxY = 2, and the
    selection checks the radios rb40, rb41 and rb42, in that order. */
module Scenarios {
  import opened Dom
  import opened Effects
  import opened RadioGrid

  /** A radio element with the id of row `x`, column `y`. */
  function RadioAt(key: nat, x: nat, y: nat): Node
    requires x < 10 && y < 10
  {
    Node(key, RadioId(x, y), None, {RadioInput}, [], None, NoDocument)
  }

  lemma ParsedCoordsSnoc(radios: seq<Node>, key: nat, x: nat, y: nat)
    requires x < 10 && y < 10
    ensures ParsedCoords(radios + [RadioAt(key, x, y)]) ==
      ParsedCoords(radios) + [Coord(x, y, RadioAt(key, x, y))]
  {
    RadioIdRoundTrip(x, y);
    var r := radios + [RadioAt(key, x, y)];
    assert r[..|r| - 1] == radios;
  }

  function SevenRadios(): seq<Node>
  {
    [RadioAt(0, 0, 0), RadioAt(1, 0, 1), RadioAt(10, 1, 0), RadioAt(11, 1, 1),
     RadioAt(40, 4, 0), RadioAt(41, 4, 1), RadioAt(42, 4, 2)]
  }

  /** The coordinates the seven radios `r` yield, in query order. */
  function SevenCoords(r: seq<Node>): seq<Coord>
    requires |r| == 7
  {
    [Coord(0, 0, r[0]), Coord(0, 1, r[1]), Coord(1, 0, r[2]), Coord(1, 1, r[3]),
     Coord(4, 0, r[4]), Coord(4, 1, r[5]), Coord(4, 2, r[6])]
  }

  lemma SevenParsed()
    ensures ParsedCoords(SevenRadios()) == SevenCoords(SevenRadios())
  {
    var r := SevenRadios();
    var s0: seq<Node> := [];
    var s1 := s0 + [r[0]];
    var s2 := s1 + [r[1]];
    var s3 := s2 + [r[2]];
    var s4 := s3 + [r[3]];
    var s5 := s4 + [r[4]];
    var s6 := s5 + [r[5]];
    ParsedCoordsSnoc(s0, 0, 0, 0);
    ParsedCoordsSnoc(s1, 1, 0, 1);
    ParsedCoordsSnoc(s2, 10, 1, 0);
    ParsedCoordsSnoc(s3, 11, 1, 1);
    ParsedCoordsSnoc(s4, 40, 4, 0);
    ParsedCoordsSnoc(s5, 41, 4, 1);
    ParsedCoordsSnoc(s6, 42, 4, 2);
    assert s6 + [r[6]] == r;
  }

  lemma SevenBounds(r: seq<Node>)
    requires |r| == 7
    ensures MaxRow(SevenCoords(r)) == 4 && MaxColumn(SevenCoords(r)) == 2
  {
    var cs := SevenCoords(r);
    assert forall i :: 0 <= i < 7 ==> cs[i].x <= 4 && cs[i].y <= 2;
    assert cs[4] in cs && cs[6] in cs;
    var c :| c in cs && c.x == MaxRow(cs);
    var d :| d in cs && d.y == MaxColumn(cs);
  }

  lemma SevenRowFour(r: seq<Node>)
    requires |r| == 7
    ensures CellAt(SevenCoords(r), 4, 0) == Some(r[4]) &&
      CellAt(SevenCoords(r), 4, 1) == Some(r[5]) &&
      CellAt(SevenCoords(r), 4, 2) == Some(r[6])
  {
    var cs := SevenCoords(r);
    assert cs[..6] == cs[..5] + [cs[5]];
    assert cs[..6][..5] == cs[..5];
    assert CellAt(cs, 4, 0) == CellAt(cs[..6], 4, 0);
    assert CellAt(cs[..6], 4, 0) == CellAt(cs[..5], 4, 0);
  }

  lemma SevenSelection(r: seq<Node>)
    requires |r| == 7 && r[4].key == 40 && r[5].key == 41 && r[6].key == 42
    ensures SelectRowFour(SevenCoords(r)) == Outcome([Checked(40), Checked(41), Checked(42)], None)
  {
    var cs := SevenCoords(r);
    SevenBounds(r);
    SevenRowFour(r);
    assert RowChecks(cs, 0) == Outcome([], None);
    assert RowChecks(cs, 1) == Outcome([Checked(40)], None);
    assert RowChecks(cs, 2) == Outcome([Checked(40), Checked(41)], None);
    assert RowChecks(cs, 3) == Outcome([Checked(40), Checked(41), Checked(42)], None);
    assert SelectRowFour(cs) == RowChecks(cs, 3);
  }

  /** The seven-radio example: a 5 x 3 grid, and exactly the row-4 radios
      are checked, column by column, without error. */
  lemma SevenRadiosSelection()
    ensures var cs := ParsedCoords(SevenRadios());
      cs != [] && MaxRow(cs) == 4 && MaxColumn(cs) == 2 &&
      SelectRowFour(cs) == Outcome([Checked(40), Checked(41), Checked(42)], None)
  {
    var r := SevenRadios();
    SevenParsed();
    SevenBounds(r);
    SevenRowFour(r);
    SevenSelection(r);
  }
}
