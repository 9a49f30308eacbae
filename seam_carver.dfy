/**
 * `SeamCarver`: the argument checks of the seam-carving resizer. The picture
 * is given by its dimensions; the pixel and energy maps it keeps are not part
 * of this model, so removing a seam is modelled as its checks.
 */
module SeamCarvers {
  import opened Common

  /** The dimensions of a picture. */
  datatype Picture = Picture(width: int, height: int)

  /** The direction of a seam: vertical or horizontal. */
  datatype Direction = V | H

  /** `validatePic(pic)`: a null picture, or one with no rows or no columns, is refused. */
  function ValidatePic(pic: Option<Picture>): (r: Result<()>)
    ensures r.Ok? <==> pic.Some? && pic.value.height >= 1 && pic.value.width >= 1
    ensures r.Err? ==> r.error == IllegalArgument
  {
    if pic.None? || pic.value.height < 1 || pic.value.width < 1 then Err(IllegalArgument) else Ok(())
  }

  /**
   * A seam is admissible across an off-axis extent `off` when every entry is
   * a coordinate in `[0, off)` and differs from the one before it by at most one.
   */
  predicate Admissible(seam: seq<int>, off: int) {
    (forall i :: 0 <= i < |seam| ==> 0 <= seam[i] < off)
    && forall i, j :: 0 <= i < |seam| && 0 <= j < |seam| && j == i + 1 ==> -1 <= seam[j] - seam[i] <= 1
  }

  /** Entries of an admissible seam `d` positions apart differ by at most `d`. */
  lemma {:induction false} AdmissibleDrift(seam: seq<int>, off: int, i: nat, j: nat)
    requires Admissible(seam, off) && i <= j < |seam|
    ensures -(j - i) <= seam[j] - seam[i] <= j - i
    decreases j - i
  {
    if i < j {
      AdmissibleDrift(seam, off, i, j - 1);
      assert -1 <= seam[j] - seam[j - 1] <= 1;
    }
  }

  /** A seam at a fixed coordinate is admissible exactly when the coordinate is in range. */
  lemma StraightSeam(n: nat, c: int, off: int)
    requires n > 0
    ensures Admissible(seq(n, _ => c), off) <==> 0 <= c < off
  {
    var s := seq(n, _ => c);
    assert s[0] == c;
  }

  class SeamCarver {
    /** The width and height captured from the picture. */
    const W: int
    const H: int

    ghost predicate Valid() {
      W >= 1 && H >= 1
    }

    constructor (pic: Picture)
      requires ValidatePic(Some(pic)).Ok?
      ensures W == pic.width && H == pic.height && Valid()
    {
      W := pic.width;
      H := pic.height;
    }

    /** `new SeamCarver(pic)`: the picture is validated first. */
    static method Create(pic: Option<Picture>) returns (r: Result<SeamCarver>)
      ensures r.Err? <==> ValidatePic(pic).Err?
      ensures r.Err? ==> r.error == IllegalArgument
      ensures r.Ok? ==> fresh(r.value) && r.value.Valid() && r.value.W == pic.value.width && r.value.H == pic.value.height
    {
      var v := ValidatePic(pic);
      if v.Err? {
        return Err(v.error);
      }
      var sc := new SeamCarver(pic.value);
      r := Ok(sc);
    }

    /** `width()`: the width of the picture at construction. */
    function Width(): (w: int)
      requires Valid()
      ensures w == W && w >= 1
    {
      W
    }

    /** `height()`: the height of the picture at construction. */
    function Height(): (h: int)
      requires Valid()
      ensures h == H && h >= 1
    {
      H
    }

    /** The extent a seam of direction `dir` must have: `H` for horizontal, `W` for vertical. */
    function OnAxis(dir: Direction): int {
      if dir == Direction.H then H else W
    }

    /** The extent a seam's coordinates range over: `W` for horizontal, `H` for vertical. */
    function OffAxis(dir: Direction): int {
      if dir == Direction.H then W else H
    }

    /**
     * The acceptance rule of `validateSeam`: the picture has more than one
     * position across the seam, the seam is present, its length is the on-axis
     * extent, and it is admissible across the off-axis extent.
     */
    predicate Accepts(seam: Option<seq<int>>, dir: Direction) {
      OffAxis(dir) > 1 && seam.Some? && |seam.value| == OnAxis(dir) && Admissible(seam.value, OffAxis(dir))
    }

    /**
     * `validateSeam(seam, dir)`: the size checks, then one pass that compares
     * each entry with the previous one (the first with itself). Every check
     * throws `IllegalArgumentException`.
     */
    method ValidateSeam(seam: Option<seq<int>>, dir: Direction) returns (r: Result<()>)
      requires Valid()
      ensures r.Ok? <==> Accepts(seam, dir)
      ensures r.Err? ==> r.error == IllegalArgument
    {
      var onAxisSize := if dir == Direction.H then H else W;
      var offAxisSize := if dir == Direction.H then W else H;
      if offAxisSize <= 1 {
        return Err(IllegalArgument);
      }
      if seam.None? || |seam.value| != onAxisSize {
        return Err(IllegalArgument);
      }
      var s := seam.value;
      var lastVal := s[0];
      for k := 0 to |s|
        invariant lastVal == s[if k == 0 then 0 else k - 1]
        invariant forall i :: 0 <= i < k ==> 0 <= s[i] < offAxisSize
        invariant forall i, j :: 0 <= i < k && 0 <= j < k && j == i + 1 ==> -1 <= s[j] - s[i] <= 1
      {
        var val := s[k];
        if val < 0 || val >= offAxisSize || val < lastVal - 1 || val > lastVal + 1 {
          assert !Admissible(s, offAxisSize) by {
            if 0 <= val < offAxisSize {
              assert k > 0 && !(-1 <= s[k] - s[k - 1] <= 1);
            }
          }
          return Err(IllegalArgument);
        }
        lastVal := val;
      }
      r := Ok(());
    }

    /**
     * `removeHorizontalSeam(seam)`: a picture of height one or less is refused
     * before the seam is looked at; the seam is then validated as horizontal.
     */
    method RemoveHorizontalSeam(seam: Option<seq<int>>) returns (r: Result<()>)
      requires Valid()
      ensures r.Ok? <==> H > 1 && Accepts(seam, Direction.H)
      ensures r.Err? ==> r.error == IllegalArgument
    {
      if H <= 1 {
        return Err(IllegalArgument);
      }
      r := ValidateSeam(seam, Direction.H);
    }

    /** `removeVerticalSeam(seam)`: the seam is validated as vertical. */
    method RemoveVerticalSeam(seam: Option<seq<int>>) returns (r: Result<()>)
      requires Valid()
      ensures r.Ok? <==> Accepts(seam, Direction.V)
      ensures r.Err? ==> r.error == IllegalArgument
    {
      r := ValidateSeam(seam, Direction.V);
    }

    /**
     * As written, a horizontal seam must have one entry per row and entries
     * below the width: on a picture that is not square, a seam of one entry
     * per column is refused whatever its entries.
     */
    lemma HorizontalSeamLength(seam: seq<int>)
      requires Valid() && W != H && |seam| == W
      ensures !Accepts(Some(seam), Direction.H)
    {
    }
  }
}
