/** The enumerations of Elemental's `types.hpp` and their one-character
    (or two-character) codes: total encoders and partial decoders. */
module Types {
  import opened Results

  // ---------------------------------------------------------------------
  // Diagonal
  // ---------------------------------------------------------------------

  datatype Diagonal = NonUnit | Unit

  function DiagonalToChar(diagonal: Diagonal): (c: char)
    ensures c == 'N' || c == 'U'
  {
    match diagonal
    case NonUnit => 'N'
    case Unit => 'U'
  }

  function CharToDiagonal(c: char): (r: Result<Diagonal>)
    ensures r.Ok? <==> c == 'N' || c == 'U'
    ensures r.Ok? ==> DiagonalToChar(r.value) == c
    ensures r.LogicError? ==> r.msg == "CharToDiagonal expects char in {N,U}."
  {
    match c
    case 'N' => Ok(NonUnit)
    case 'U' => Ok(Unit)
    case _ => LogicError("CharToDiagonal expects char in {N,U}.")
  }

  lemma DiagonalRoundTrip(diagonal: Diagonal)
    ensures CharToDiagonal(DiagonalToChar(diagonal)) == Ok(diagonal)
  {
  }

  lemma DiagonalToCharInjective(d1: Diagonal, d2: Diagonal)
    requires DiagonalToChar(d1) == DiagonalToChar(d2)
    ensures d1 == d2
  {
  }

  // ---------------------------------------------------------------------
  // Distribution
  // ---------------------------------------------------------------------

  /** How one matrix dimension is spread over the process grid. */
  datatype Distribution =
    | MC    // column of a matrix distribution
    | MD    // diagonal of a matrix distribution
    | MR    // row of a matrix distribution
    | VC    // column-major vector distribution
    | VR    // row-major vector distribution
    | Star  // not distributed

  function DistToString(distribution: Distribution): (s: string)
    ensures |s| == 2
  {
    match distribution
    case MC => "MC"
    case MD => "MD"
    case MR => "MR"
    case VC => "VC"
    case VR => "VR"
    case Star => "* "
  }

  /** The three spellings the decoder accepts for `Star`. */
  const StarSpellings: set<string> := {"* ", " *", "*"}

  function StringToDist(s: string): (r: Result<Distribution>)
    ensures r.Ok? <==> s in {"MC", "MD", "MR", "VC", "VR"} + StarSpellings
    ensures r == Ok(Star) <==> s in StarSpellings
    ensures r.Ok? && r.value != Star ==> DistToString(r.value) == s
  {
    if s == "MC" then Ok(MC)
    else if s == "MD" then Ok(MD)
    else if s == "MR" then Ok(MR)
    else if s == "VC" then Ok(VC)
    else if s == "VR" then Ok(VR)
    else if s == "* " || s == " *" || s == "*" then Ok(Star)
    else LogicError("StringToDist expects string in {\"MC\",\"MD\",\"MR\",\"VC\",\"VR\",\"* \",\" *\",\"*\"}.")
  }

  lemma DistRoundTrip(distribution: Distribution)
    ensures StringToDist(DistToString(distribution)) == Ok(distribution)
  {
  }

  lemma DistToStringInjective(d1: Distribution, d2: Distribution)
    requires DistToString(d1) == DistToString(d2)
    ensures d1 == d2
  {
  }

  // ---------------------------------------------------------------------
  // Orientation
  // ---------------------------------------------------------------------

  datatype Orientation = Normal | Transpose | ConjugateTranspose

  function OrientationToChar(orientation: Orientation): (c: char)
    ensures c == 'N' || c == 'T' || c == 'C'
  {
    match orientation
    case Normal => 'N'
    case Transpose => 'T'
    case ConjugateTranspose => 'C'
  }

  function CharToOrientation(c: char): (r: Result<Orientation>)
    ensures r.Ok? <==> c == 'N' || c == 'T' || c == 'C'
    ensures r.Ok? ==> OrientationToChar(r.value) == c
    ensures r.LogicError? ==> r.msg == "CharToOrientation expects char in {N,T,C}."
  {
    match c
    case 'N' => Ok(Normal)
    case 'T' => Ok(Transpose)
    case 'C' => Ok(ConjugateTranspose)
    case _ => LogicError("CharToOrientation expects char in {N,T,C}.")
  }

  lemma OrientationRoundTrip(orientation: Orientation)
    ensures CharToOrientation(OrientationToChar(orientation)) == Ok(orientation)
  {
  }

  lemma OrientationToCharInjective(o1: Orientation, o2: Orientation)
    requires OrientationToChar(o1) == OrientationToChar(o2)
    ensures o1 == o2
  {
  }

  // ---------------------------------------------------------------------
  // Shape
  // ---------------------------------------------------------------------

  datatype Shape = Lower | Upper

  function ShapeToChar(shape: Shape): (c: char)
    ensures c == 'L' || c == 'U'
  {
    match shape
    case Lower => 'L'
    case Upper => 'U'
  }

  function CharToShape(c: char): (r: Result<Shape>)
    ensures r.Ok? <==> c == 'L' || c == 'U'
    ensures r.Ok? ==> ShapeToChar(r.value) == c
    ensures r.LogicError? ==> r.msg == "CharToShape expects char in {L,U}."
  {
    match c
    case 'L' => Ok(Lower)
    case 'U' => Ok(Upper)
    case _ => LogicError("CharToShape expects char in {L,U}.")
  }

  lemma ShapeRoundTrip(shape: Shape)
    ensures CharToShape(ShapeToChar(shape)) == Ok(shape)
  {
  }

  lemma ShapeToCharInjective(s1: Shape, s2: Shape)
    requires ShapeToChar(s1) == ShapeToChar(s2)
    ensures s1 == s2
  {
  }

  // ---------------------------------------------------------------------
  // Side
  // ---------------------------------------------------------------------

  datatype Side = Left | Right

  function SideToChar(side: Side): (c: char)
    ensures c == 'L' || c == 'R'
  {
    match side
    case Left => 'L'
    case Right => 'R'
  }

  function CharToSide(c: char): (r: Result<Side>)
    ensures r.Ok? <==> c == 'L' || c == 'R'
    ensures r.Ok? ==> SideToChar(r.value) == c
    ensures r.LogicError? ==> r.msg == "CharToSide expects char in {L,R}."
  {
    match c
    case 'L' => Ok(Left)
    case 'R' => Ok(Right)
    case _ => LogicError("CharToSide expects char in {L,R}.")
  }

  lemma SideRoundTrip(side: Side)
    ensures CharToSide(SideToChar(side)) == Ok(side)
  {
  }

  lemma SideToCharInjective(s1: Side, s2: Side)
    requires SideToChar(s1) == SideToChar(s2)
    ensures s1 == s2
  {
  }
}
