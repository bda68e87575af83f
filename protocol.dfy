/**
 * The slice of the Language Server Protocol data types that the three tools use:
 * positions, ranges, locations and the request parameters they build.
 * Line and character offsets are `uint32` values, zero-based.
 */
module Protocol {

  const TwoTo32: int := 0x1_0000_0000

  newtype uint32 = x: int | 0 <= x < 0x1_0000_0000

  datatype Position = Position(line: uint32, character: uint32)

  datatype Range = Range(start: Position, end: Position)

  /** A location in a document; `uri` is the protocol's DocumentUri string. */
  datatype Location = Location(uri: string, range: Range)

  datatype TextDocumentPositionParams = TextDocumentPositionParams(uri: string, position: Position)

  datatype ReferenceParams = ReferenceParams(textDocumentPosition: TextDocumentPositionParams, includeDeclaration: bool)

  datatype ImplementationParams = ImplementationParams(textDocumentPosition: TextDocumentPositionParams)

  datatype TypeDefinitionParams = TypeDefinitionParams(textDocumentPosition: TextDocumentPositionParams)

  /** Go's conversion `uint32(x)` of a signed integer: the low 32 bits of x. */
  function ToUint32(x: int): (r: uint32)
    ensures (r as int - x) % TwoTo32 == 0
    ensures 0 <= x < TwoTo32 ==> r as int == x
  {
    (x % TwoTo32) as uint32
  }

  /**
   * The tools' conversion of a 1-indexed line or column to the protocol's
   * 0-indexed value, `uint32(v - 1)`; there is no guard, so 0 wraps around.
   */
  function ZeroBased(v: int): (r: uint32)
    ensures 1 <= v <= TwoTo32 ==> r as int == v - 1
    ensures v == 0 ==> r as int == TwoTo32 - 1
  {
    ToUint32(v - 1)
  }

  /**
   * The number a tool prints for a 0-indexed protocol value: `value + 1`
   * computed in uint32 arithmetic, so the largest value prints as 0.
   */
  function OneBased(p: uint32): (r: nat)
    ensures r < TwoTo32
    ensures p as int < TwoTo32 - 1 ==> r == p as int + 1
    ensures p as int == TwoTo32 - 1 ==> r == 0
  {
    (p as int + 1) % TwoTo32
  }

  /** The outgoing position for a caller's 1-indexed line and column. */
  function ToPosition(line: int, column: int): (p: Position)
    ensures 1 <= line <= TwoTo32 && 1 <= column <= TwoTo32 ==>
      p.line as int == line - 1 && p.character as int == column - 1
  {
    Position(ZeroBased(line), ZeroBased(column))
  }

  /** Printing a converted coordinate gives back the caller's value, modulo 2^32. */
  lemma OneBasedZeroBased(v: int)
    ensures OneBased(ZeroBased(v)) == v % TwoTo32
    ensures 1 <= v < TwoTo32 ==> OneBased(ZeroBased(v)) == v
  {
    var z := ZeroBased(v);
    assert (z as int - (v - 1)) % TwoTo32 == 0;
    assert z as int == (v - 1) % TwoTo32;
  }

  /** Converting the printed value back gives the protocol value, unless it wrapped. */
  lemma ZeroBasedOneBased(p: uint32)
    requires p as int < TwoTo32 - 1
    ensures ZeroBased(OneBased(p)) == p
  {
  }

  /** The worked example: (5, 3) goes out as (4, 2); a result at (9, 1) prints as (10, 2). */
  lemma ConversionExample()
    ensures ToPosition(5, 3) == Position(4, 2)
    ensures OneBased(9) == 10 && OneBased(1) == 2
  {
  }
}
