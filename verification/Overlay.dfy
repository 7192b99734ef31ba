/** A buffer whose front has been overwritten. */
module Overlay {
  function Overlaid<T>(s: seq<T>, front: seq<T>): (r: seq<T>)
    requires |front| <= |s|
    ensures |r| == |s|
  {
    front + s[|front|..]
  }

  lemma OverlaidThenSet<T>(s: seq<T>, front: seq<T>, x: T)
    requires |front| < |s|
    ensures Overlaid(s, front)[|front| := x] == Overlaid(s, front + [x])
  {
  }

  lemma OverlaidThenFour<T>(s: seq<T>, front: seq<T>, x: T, y: T, z: T, w: T)
    requires |front| + 4 <= |s|
    ensures var n := |front|;
            Overlaid(s, front)[n := x][n + 1 := y][n + 2 := z][n + 3 := w] == Overlaid(s, front + [x, y, z, w])
  {
  }

  lemma OverlaidBehind<T>(s: seq<T>, front: seq<T>, end: nat)
    requires |front| <= end <= |s|
    ensures Overlaid(s, front)[end..] == s[end..]
  {
  }
}
