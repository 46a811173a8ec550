/** Chains of pixels. A step relation says which pixel may follow which;
    pixel `a` reaches pixel `b` when a sequence of steps leads from `a` to
    `b`. The labelling drivers keep every label pointing at a pixel the
    labelled pixel reaches. */
module Chains {
  /** A pixel as (x, y). */
  type Point = (nat, nat)

  /** Every consecutive pair of `p` is a step. */
  ghost predicate Chain(step: (Point, Point) -> bool, p: seq<Point>)
  {
    forall i :: 0 <= i < |p| - 1 ==> step(p[i], p[i + 1])
  }

  /** Some chain starts at `a` and ends at `b`. */
  ghost predicate Reaches(step: (Point, Point) -> bool, a: Point, b: Point)
  {
    exists p :: Chain(step, p) && |p| >= 1 && p[0] == a && p[|p| - 1] == b
  }

  /** Every pixel reaches itself by the one-pixel chain. */
  lemma ReachesSelf(step: (Point, Point) -> bool, a: Point)
    ensures Reaches(step, a, a)
  {
    assert Chain(step, [a]);
  }

  /** A step followed by a chain is a chain. */
  lemma ReachesStep(step: (Point, Point) -> bool, a: Point, b: Point, c: Point)
    requires step(a, b) && Reaches(step, b, c)
    ensures Reaches(step, a, c)
  {
    var q :| Chain(step, q) && |q| >= 1 && q[0] == b && q[|q| - 1] == c;
    var p := [a] + q;
    assert forall i :: 1 <= i < |p| ==> p[i] == q[i - 1];
    assert Chain(step, p);
  }

  /** Two chains meeting at `b` make one. */
  lemma ReachesTrans(step: (Point, Point) -> bool, a: Point, b: Point, c: Point)
    requires Reaches(step, a, b) && Reaches(step, b, c)
    ensures Reaches(step, a, c)
  {
    var p :| Chain(step, p) && |p| >= 1 && p[0] == a && p[|p| - 1] == b;
    var q :| Chain(step, q) && |q| >= 1 && q[0] == b && q[|q| - 1] == c;
    var r := p + q[1..];
    assert forall i :: 0 <= i < |p| ==> r[i] == p[i];
    assert forall i :: |p| <= i < |r| ==> r[i] == q[i - |p| + 1];
    forall i | 0 <= i < |r| - 1
      ensures step(r[i], r[i + 1])
    {
      if i < |p| - 1 {
        assert step(p[i], p[i + 1]);
      } else {
        assert step(q[i - |p| + 1], q[i - |p| + 2]);
      }
    }
  }

  /** Under a symmetric step relation a chain read backwards is a chain. */
  lemma ReachesBack(step: (Point, Point) -> bool, a: Point, b: Point)
    requires forall u, v :: step(u, v) ==> step(v, u)
    requires Reaches(step, a, b)
    ensures Reaches(step, b, a)
  {
    var p :| Chain(step, p) && |p| >= 1 && p[0] == a && p[|p| - 1] == b;
    var r := seq(|p|, i requires 0 <= i < |p| => p[|p| - 1 - i]);
    forall i | 0 <= i < |r| - 1
      ensures step(r[i], r[i + 1])
    {
      assert step(p[|p| - 2 - i], p[|p| - 1 - i]);
    }
    assert Chain(step, r);
  }
}
