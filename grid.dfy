/** Two-dimensional arrays as row sequences, with the index maps of the
    operations the transforms perform on them. */
module Grid {

  /** g has h rows of w cells each (the shape of a 2-D numpy array). */
  predicate IsGrid<T>(g: seq<seq<T>>, h: nat, w: nat) {
    |g| == h && forall i :: 0 <= i < h ==> |g[i]| == w
  }

  /** The top-left h-by-w window g[0:h, 0:w]. */
  function Crop<T>(g: seq<seq<T>>, h: nat, w: nat): (r: seq<seq<T>>)
    requires h <= |g| && forall i :: 0 <= i < h ==> w <= |g[i]|
    ensures IsGrid(r, h, w)
    ensures forall i, j :: 0 <= i < h && 0 <= j < w ==> r[i][j] == g[i][j]
  {
    seq(h, i requires 0 <= i < h => g[i][..w])
  }

  /** The two quarter turns of cv2.rotate. */
  datatype Rotation = Clockwise | CounterClockwise

  /** ROTATE_90_CLOCKWISE: output cell (i, j) is input cell (h-1-j, i). */
  function TurnClockwise<T>(g: seq<seq<T>>, h: nat, w: nat): seq<seq<T>>
    requires IsGrid(g, h, w)
  {
    seq(w, i requires 0 <= i < w => seq(h, j requires 0 <= j < h => g[h - 1 - j][i]))
  }

  /** ROTATE_90_COUNTERCLOCKWISE: output cell (i, j) is input cell (j, w-1-i). */
  function TurnCounterClockwise<T>(g: seq<seq<T>>, h: nat, w: nat): seq<seq<T>>
    requires IsGrid(g, h, w)
  {
    seq(w, i requires 0 <= i < w => seq(h, j requires 0 <= j < h => g[j][w - 1 - i]))
  }

  /** A quarter turn in the given direction; the shape is transposed. */
  function Turn<T>(g: seq<seq<T>>, h: nat, w: nat, dir: Rotation): (r: seq<seq<T>>)
    requires IsGrid(g, h, w)
    ensures IsGrid(r, w, h)
  {
    match dir
    case Clockwise => TurnClockwise(g, h, w)
    case CounterClockwise => TurnCounterClockwise(g, h, w)
  }

  /** Turning one way and then the other restores the grid exactly. */
  lemma TurnRoundTrip<T>(g: seq<seq<T>>, h: nat, w: nat)
    requires IsGrid(g, h, w)
    ensures Turn(Turn(g, h, w, Clockwise), w, h, CounterClockwise) == g
    ensures Turn(Turn(g, h, w, CounterClockwise), w, h, Clockwise) == g
  {
    var cw := Turn(g, h, w, Clockwise);
    var back := Turn(cw, w, h, CounterClockwise);
    forall i | 0 <= i < h ensures back[i] == g[i] {
      assert forall j :: 0 <= j < w ==> back[i][j] == cw[j][h - 1 - i] == g[i][j];
    }
    var ccw := Turn(g, h, w, CounterClockwise);
    var back2 := Turn(ccw, w, h, Clockwise);
    forall i | 0 <= i < h ensures back2[i] == g[i] {
      assert forall j :: 0 <= j < w ==> back2[i][j] == ccw[w - 1 - j][i] == g[i][j];
    }
  }

  /** Four clockwise turns are the identity. */
  lemma FourTurns<T>(g: seq<seq<T>>, h: nat, w: nat)
    requires IsGrid(g, h, w)
    ensures
      var g1 := Turn(g, h, w, Clockwise);
      var g2 := Turn(g1, w, h, Clockwise);
      var g3 := Turn(g2, h, w, Clockwise);
      Turn(g3, w, h, Clockwise) == g
  {
    var g1 := Turn(g, h, w, Clockwise);
    var g2 := Turn(g1, w, h, Clockwise);
    var g3 := Turn(g2, h, w, Clockwise);
    var g4 := Turn(g3, w, h, Clockwise);
    forall i | 0 <= i < h ensures g4[i] == g[i] {
      forall j | 0 <= j < w ensures g4[i][j] == g[i][j] {
        calc {
          g4[i][j];
          g3[w - 1 - j][i];
          g2[h - 1 - i][w - 1 - j];
          g1[j][h - 1 - i];
          g[i][j];
        }
      }
    }
  }
}
