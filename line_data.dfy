// LineData: an axis-parallel segment of grid cells with a tag value.

module LineData {
  import opened Wrappers

  datatype RawLine = RawLine(xf: int, xt: int, yf: int, yt: int, v: int)

  /** The constructor asserts that the segment is parallel to an axis, so
      every LineData object satisfies it: the model makes that a type. */
  type Line = l: RawLine | l.xf == l.xt || l.yf == l.yt
    witness RawLine(0, 0, 0, 0, 0)

  /** The constructor: fails exactly when the segment is not axis-parallel;
      otherwise the getters return the arguments. */
  function NewLine(xf: int, xt: int, yf: int, yt: int, v: int): (r: Result<Line>)
    ensures r.Ok? <==> (xf == xt || yf == yt)
    ensures r.Ok? ==> r.value == RawLine(xf, xt, yf, yt, v)
    ensures r.Err? ==> r.error.AssertionFailed?
  {
    if xf == xt || yf == yt then Ok(RawLine(xf, xt, yf, yt, v))
    else Err(AssertionFailed("LineData: segment not axis-parallel"))
  }

  /** A copy with a new tag; never fails. */
  function SetV(l: Line, newV: int): (r: Line)
    ensures r.xf == l.xf && r.xt == l.xt && r.yf == l.yf && r.yt == l.yt && r.v == newV
  {
    RawLine(l.xf, l.xt, l.yf, l.yt, newV)
  }

  /** A copy with a new end point; the copy is re-checked. */
  function SetAimPos(l: Line, newXt: int, newYt: int): (r: Result<Line>)
    ensures r.Ok? <==> (l.xf == newXt || l.yf == newYt)
    ensures r.Ok? ==> r.value == RawLine(l.xf, newXt, l.yf, newYt, l.v)
  {
    NewLine(l.xf, newXt, l.yf, newYt, l.v)
  }

  /** A copy with a new start point; the copy is re-checked. */
  function SetStartPos(l: Line, newXf: int, newYf: int): (r: Result<Line>)
    ensures r.Ok? <==> (newXf == l.xt || newYf == l.yt)
    ensures r.Ok? ==> r.value == RawLine(newXf, l.xt, newYf, l.yt, l.v)
  {
    NewLine(newXf, l.xt, newYf, l.yt, l.v)
  }

  /** Re-tagging: the last tag wins and re-using the own tag is the
      identity. */
  lemma SetVLaws(l: Line, a: int, b: int)
    ensures SetV(SetV(l, a), b) == SetV(l, b)
    ensures SetV(l, l.v) == l
  {
  }

  /** Moving an end point to where it already is changes nothing, and moving
      the end along the segment's own axis never fails. */
  lemma SetPosLaws(l: Line, t: int)
    ensures SetAimPos(l, l.xt, l.yt) == Ok(l)
    ensures SetStartPos(l, l.xf, l.yf) == Ok(l)
    ensures l.xf == l.xt ==> SetAimPos(l, l.xf, t).Ok?
    ensures l.yf == l.yt ==> SetAimPos(l, t, l.yf).Ok?
  {
  }
}
