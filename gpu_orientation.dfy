/// Image orientations and whether they swap rows and columns (GPU/Common/Orientation.cs).
module GpuOrientation {

  /** The eight orientations, in declaration order; each name is the side holding row 0, then column 0. */
  datatype Orientation = TopLeft | TopRight | BottomLeft | BottomRight | LeftBottom | LeftTop | RightTop | RightBottom

  datatype Side = Top | Bottom | Left | Right

  /** The side named first: where the first stored row of the image lies. */
  function RowSide(o: Orientation): Side {
    match o
    case TopLeft | TopRight => Top
    case BottomLeft | BottomRight => Bottom
    case LeftBottom | LeftTop => Left
    case RightTop | RightBottom => Right
  }

  const AllOrientations: seq<Orientation> :=
    [TopLeft, TopRight, BottomLeft, BottomRight, LeftBottom, LeftTop, RightTop, RightBottom]

  /** An orientation is transposed when its stored rows run vertically, i.e. its first side is left or right.
      The switch has a default branch, so no orientation makes it throw. */
  predicate IsTransposed(o: Orientation)
    ensures IsTransposed(o) <==> RowSide(o) == Left || RowSide(o) == Right
  {
    match o
    case LeftTop | LeftBottom | RightTop | RightBottom => true
    case _ => false
  }

  function CountTransposed(os: seq<Orientation>): (n: nat)
    ensures n <= |os|
  {
    if os == [] then 0 else (if IsTransposed(os[0]) then 1 else 0) + CountTransposed(os[1..])
  }

  /** AllOrientations lists every orientation once, and exactly four of the eight are transposed. */
  lemma {:induction false} ExactlyFourTransposed()
    ensures |AllOrientations| == 8
    ensures forall o: Orientation :: o in AllOrientations
    ensures forall i, j :: 0 <= i < j < 8 ==> AllOrientations[i] != AllOrientations[j]
    ensures CountTransposed(AllOrientations) == 4
  {
    EveryOrientationListed();
    FourInList();
  }

  lemma {:induction false} EveryOrientationListed()
    ensures forall o: Orientation :: o in AllOrientations
  {
    forall o: Orientation ensures o in AllOrientations {
      match o
      case TopLeft => assert AllOrientations[0] == o;
      case TopRight => assert AllOrientations[1] == o;
      case BottomLeft => assert AllOrientations[2] == o;
      case BottomRight => assert AllOrientations[3] == o;
      case LeftBottom => assert AllOrientations[4] == o;
      case LeftTop => assert AllOrientations[5] == o;
      case RightTop => assert AllOrientations[6] == o;
      case RightBottom => assert AllOrientations[7] == o;
    }
  }

  lemma {:induction false} FourInList()
    ensures CountTransposed(AllOrientations) == 4
  {
    var a := AllOrientations;
    assert CountTransposed(a[8..]) == 0;
    assert a[7..][1..] == a[8..];
    assert CountTransposed(a[7..]) == 1;
    assert a[6..][1..] == a[7..];
    assert CountTransposed(a[6..]) == 2;
    assert a[5..][1..] == a[6..];
    assert CountTransposed(a[5..]) == 3;
    assert a[4..][1..] == a[5..];
    assert CountTransposed(a[4..]) == 4;
    assert a[3..][1..] == a[4..];
    assert CountTransposed(a[3..]) == 4;
    assert a[2..][1..] == a[3..];
    assert CountTransposed(a[2..]) == 4;
    assert a[1..][1..] == a[2..];
    assert CountTransposed(a[1..]) == 4;
    assert a[0..] == a;
  }
}
