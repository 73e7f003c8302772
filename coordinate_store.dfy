/**
 * The focal point as the field holds it: the text `"left,top"` of two
 * percentages. `focalPointSetIndicator` reads it by splitting on `,` and
 * applying `parseInt` to the first two pieces (defaulting to `50,50` when
 * the field is empty or undefined), and writes back the first two pieces
 * joined by `,`; `focalPointSetValue` writes two integers joined by `,`.
 */
module CoordinateStore {
  import opened Wrappers
  import opened Numbers
  import opened Text

  /** The two percentages read from the field; `None` where `parseInt` gives NaN. */
  datatype Coordinates = Coordinates(left: Option<int>, top: Option<int>)

  /**
   * The `coordinates` array: the pieces of the field value between commas,
   * or `[50, 50]` when the value is empty or undefined (`None`).
   */
  function FieldPieces(value: Option<string>): (pieces: seq<string>)
    ensures |pieces| >= 1
    ensures forall i :: 0 <= i < |pieces| ==> ',' !in pieces[i]
    ensures value == None || value == Some("") ==> pieces == ["50", "50"]
    ensures value.Some? && value.value != "" ==> Join(pieces, ',') == value.value
  {
    if value == None || value == Some("") then ["50", "50"]
    else
      JoinSplit(value.value, ',');
      Split(value.value, ',')
  }

  /**
   * `coordinates[i]` as JavaScript turns it into text: the piece itself, or
   * `"undefined"` past the end, which `parseInt` reads as NaN.
   */
  function Piece(pieces: seq<string>, i: nat): (p: string)
    ensures i < |pieces| ==> p == pieces[i]
    ensures i >= |pieces| ==> ParseInt(p) == None
    ensures (forall j :: 0 <= j < |pieces| ==> ',' !in pieces[j]) ==> ',' !in p
  {
    if i < |pieces| then pieces[i] else ParseIntOfUndefined(); "undefined"
  }

  lemma FiftyParses()
    ensures ParseInt("50") == Some(50)
  {
    assert IntToString(50) == "50";
    ParseIntOfIntToString(50, "");
    assert IntToString(50) + "" == "50";
  }

  lemma CommaFreeIsOnePiece(value: Option<string>)
    ensures value.Some? && value.value != "" && ',' !in value.value ==> |FieldPieces(value)| == 1
  {
    if value.Some? {
      SplitWithoutSeparator(value.value, ',');
    }
  }

  /**
   * What `parseInt(coordinates[0], 10)` and `parseInt(coordinates[1], 10)`
   * give: the centre (50, 50) for an empty or undefined field, and NaN for
   * the top of a value that holds no comma.
   */
  function ParseCoordinates(value: Option<string>): (c: Coordinates)
    ensures value == None || value == Some("") ==> c == Coordinates(Some(50), Some(50))
    ensures value.Some? && value.value != "" && ',' !in value.value ==> c.top == None
  {
    var pieces := FieldPieces(value);
    FiftyParses();
    CommaFreeIsOnePiece(value);
    Coordinates(ParseInt(Piece(pieces, 0)), ParseInt(Piece(pieces, 1)))
  }

  /**
   * `coordinates[0] + ',' + coordinates[1]`, the value the field is
   * rewritten to: exactly two comma-free pieces, the first two of the old
   * value.
   */
  function Normalise(value: Option<string>): (r: string)
    ensures Split(r, ',') == [Piece(FieldPieces(value), 0), Piece(FieldPieces(value), 1)]
  {
    var pieces := FieldPieces(value);
    var r := Piece(pieces, 0) + "," + Piece(pieces, 1);
    assert r == Join([Piece(pieces, 0), Piece(pieces, 1)], ',');
    r
  }

  /**
   * `leftOffset + ',' + topOffset`, the value `focalPointSetValue` writes. It
   * reads back as the same two integers and is already in normal form.
   */
  function Format(left: int, top: int): (r: string)
    ensures ParseCoordinates(Some(r)) == Coordinates(Some(left), Some(top))
    ensures Normalise(Some(r)) == r
  {
    var a, b := IntToString(left), IntToString(top);
    assert forall i :: 0 <= i < |a| ==> a[i] != ',';
    assert forall i :: 0 <= i < |b| ==> b[i] != ',';
    assert a + "," + b == Join([a, b], ',');
    assert FieldPieces(Some(a + "," + b)) == [a, b];
    ParseIntOfIntToString(left, "");
    ParseIntOfIntToString(top, "");
    assert a + "" == a && b + "" == b;
    a + "," + b
  }

  /** An empty or undefined field is rewritten to `"50,50"`. */
  lemma DefaultIsCentre(value: Option<string>)
    requires value == None || value == Some("")
    ensures Normalise(value) == "50,50"
  {
    var pieces := FieldPieces(value);
    assert Piece(pieces, 0) == "50" && Piece(pieces, 1) == "50";
  }

  /** A value that already is two comma-free pieces joined by `,` is left as it is. */
  lemma NormaliseKeepsPair(a: string, b: string)
    requires ',' !in a && ',' !in b
    ensures Normalise(Some(a + "," + b)) == a + "," + b
  {
    assert a + "," + b == Join([a, b], ',');
  }

  /** Of a value with two or more pieces, only the first two survive normalisation. */
  lemma NormaliseKeepsFirstTwo(pieces: seq<string>)
    requires |pieces| >= 2
    requires forall i :: 0 <= i < |pieces| ==> ',' !in pieces[i]
    ensures Normalise(Some(Join(pieces, ','))) == pieces[0] + "," + pieces[1]
  {
    assert ',' in Join(pieces, ',') by {
      assert Join(pieces, ',') == pieces[0] + [','] + Join(pieces[1..], ',');
      assert Join(pieces, ',')[|pieces[0]|] == ',';
    }
  }

  /** Normalising twice is normalising once. */
  lemma NormaliseIdempotent(value: Option<string>)
    ensures Normalise(Some(Normalise(value))) == Normalise(value)
  {
  }

  /** Normalising does not change what the field reads as. */
  lemma NormalisePreservesCoordinates(value: Option<string>)
    ensures ParseCoordinates(Some(Normalise(value))) == ParseCoordinates(value)
  {
  }

  /** Reading the field does not clamp: `"150,-20"` reads as 150 and -20. */
  lemma OutOfRangeIsNotClamped(value: string)
    requires value == "150,-20"
    ensures ParseCoordinates(Some(value)) == Coordinates(Some(150), Some(-20))
  {
    var left, top := 150, -20;
    PrintsOutOfRange(left, top, value);
    var r := Format(left, top);
    assert r == IntToString(left) + "," + IntToString(top);
  }

  lemma PrintsOutOfRange(left: int, top: int, value: string)
    requires left == 150 && top == -20 && value == "150,-20"
    ensures IntToString(left) + "," + IntToString(top) == value
  {
    assert NatToString(15) == "15";
    assert NatToString(150) == "150";
    assert NatToString(20) == "20";
  }

  /**
   * A value with no comma and no number reads as NaN twice and is rewritten
   * with the word `undefined` in the second place.
   */
  lemma MalformedIsNotDefaulted(value: string)
    requires value == "abc"
    ensures ParseCoordinates(Some(value)) == Coordinates(None, None)
    ensures Normalise(Some(value)) == value + ",undefined"
  {
    HoldsNoNumber(value);
    CommaFreeIsOnePiece(Some(value));
    assert FieldPieces(Some(value)) == [value];
    assert "," + "undefined" == ",undefined";
  }

  lemma HoldsNoNumber(value: string)
    requires value == "abc"
    ensures value != "" && ',' !in value
    ensures forall i :: 0 <= i < |value| ==> !IsDigit(value[i])
  {
  }
}
