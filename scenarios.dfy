/**
  Small captures run through the deduplicator and the stitcher, stated for
  any fragments with the given timestamps, texts and positions, including
  the captures that show which general laws the two operations do not obey.
 */
module Scenarios {
  import opened Fragments
  import opened KeyOrder
  import opened Timeline
  import opened DataCleaner
  import opened TextStitcher

  /** A non-empty list of fragments all stamped `u`: one moment, one frame. */
  ghost predicate Uniform(g: seq<TextData>, u: real) {
    g != [] && forall d :: d in g ==> d.timestamp == u
  }

  lemma UniformMoments(g: seq<TextData>, u: real)
    requires Uniform(g, u)
    ensures Timestamps(g) == {u}
  {
    assert g[0] in g;
  }

  /** The frame of one group's moment in a list of two groups at distinct moments. */
  lemma FrameOfGroup(g: seq<TextData>, h: seq<TextData>, u: real, v: real)
    requires Uniform(g, u) && Uniform(h, v) && u != v
    ensures Frame(g + h, u) == g && Frame(h + g, u) == g
  {
    FrameUniform(g, u, u);
    FrameUniform(h, v, u);
    FrameAppend(g, h, u);
    FrameAppend(h, g, u);
    assert g + [] == g && [] + g == g;
  }

  /** Two moments given as two groups, in either order. */
  lemma Moments2(g0: seq<TextData>, g1: seq<TextData>, t0: real, t1: real)
    requires Uniform(g0, t0) && Uniform(g1, t1) && t0 != t1
    ensures Chronology(g0 + g1) == if t0 < t1 then [t0, t1] else [t1, t0]
    ensures Frame(g0 + g1, t0) == g0 && Frame(g0 + g1, t1) == g1
  {
    UniformMoments(g0, t0);
    UniformMoments(g1, t1);
    TimestampsAppend(g0, g1);
    SortedUnique(Chronology(g0 + g1), if t0 < t1 then [t0, t1] else [t1, t0]);
    FrameOfGroup(g0, g1, t0, t1);
    FrameOfGroup(g1, g0, t1, t0);
  }

  /** Three moments given as three groups in increasing order. */
  lemma Moments3(g0: seq<TextData>, g1: seq<TextData>, g2: seq<TextData>, t0: real, t1: real, t2: real)
    requires Uniform(g0, t0) && Uniform(g1, t1) && Uniform(g2, t2) && t0 < t1 < t2
    ensures Chronology(g0 + g1 + g2) == [t0, t1, t2]
    ensures Frame(g0 + g1 + g2, t0) == g0 && Frame(g0 + g1 + g2, t1) == g1 && Frame(g0 + g1 + g2, t2) == g2
  {
    UniformMoments(g0, t0);
    UniformMoments(g1, t1);
    UniformMoments(g2, t2);
    Moments3Chronology(g0, g1, g2, t0, t1, t2);
    Moments3Frame(g0, g1, g2, t0, t1, t2, t0);
    Moments3Frame(g0, g1, g2, t0, t1, t2, t1);
    Moments3Frame(g0, g1, g2, t0, t1, t2, t2);
    assert g0 + [] + [] == g0 && [] + g1 + [] == g1 && [] + [] + g2 == g2;
  }

  lemma Moments3Chronology(g0: seq<TextData>, g1: seq<TextData>, g2: seq<TextData>, t0: real, t1: real, t2: real)
    requires Timestamps(g0) == {t0} && Timestamps(g1) == {t1} && Timestamps(g2) == {t2} && t0 < t1 < t2
    ensures Chronology(g0 + g1 + g2) == [t0, t1, t2]
  {
    TimestampsAppend(g0, g1);
    TimestampsAppend(g0 + g1, g2);
    SortedUnique(Chronology(g0 + g1 + g2), [t0, t1, t2]);
  }

  lemma Moments3Frame(g0: seq<TextData>, g1: seq<TextData>, g2: seq<TextData>, u0: real, u1: real, u2: real, t: real)
    requires Uniform(g0, u0) && Uniform(g1, u1) && Uniform(g2, u2)
    ensures Frame(g0 + g1 + g2, t) ==
      (if t == u0 then g0 else []) + (if t == u1 then g1 else []) + (if t == u2 then g2 else [])
  {
    FrameAppend(g0, g1, t);
    FrameAppend(g0 + g1, g2, t);
    FrameUniform(g0, u0, t);
    FrameUniform(g1, u1, t);
    FrameUniform(g2, u2, t);
  }

  lemma TextSetOne(a: TextData)
    ensures TextSet([a]) == {a.text}
  {
    assert a in [a];
  }

  lemma TextSetTwo(a: TextData, b: TextData)
    ensures TextSet([a, b]) == {a.text, b.text}
  {
    assert a in [a, b] && b in [a, b];
  }

  // ----- Deduplication -----

  /** The loop at one moment followed by others. */
  lemma CleanHead(data: seq<TextData>, t: real, rest: seq<real>, previous: set<string>)
    ensures CleanFrames(data, [t] + rest, previous) ==
      Unseen(Frame(data, t), previous) + CleanFrames(data, rest, TextSet(Frame(data, t)))
  {
    assert ([t] + rest)[1..] == rest;
    NewFragmentsAreUnseen(Frame(data, t), previous);
  }

  /** The loop over two moments, frame by frame. */
  lemma CleanFramesTwo(data: seq<TextData>, t0: real, t1: real)
    ensures CleanFrames(data, [t0, t1], {}) == Frame(data, t0) + Unseen(Frame(data, t1), TextSet(Frame(data, t0)))
  {
    assert [t0, t1] == [t0] + ([t1] + []);
    CleanHead(data, t0, [t1], {});
    CleanHead(data, t1, [], TextSet(Frame(data, t0)));
    NothingSeen(Frame(data, t0));
  }

  lemma CleanTwo(data: seq<TextData>, t0: real, t1: real)
    requires Chronology(data) == [t0, t1]
    ensures Cleaned(data) == Frame(data, t0) + Unseen(Frame(data, t1), TextSet(Frame(data, t0)))
  {
    assert data != [];
    CleanFramesTwo(data, t0, t1);
  }

  /** The loop over three moments, frame by frame. */
  lemma CleanFramesThree(data: seq<TextData>, t0: real, t1: real, t2: real)
    ensures CleanFrames(data, [t0, t1, t2], {}) ==
      Frame(data, t0) + (Unseen(Frame(data, t1), TextSet(Frame(data, t0))) +
      Unseen(Frame(data, t2), TextSet(Frame(data, t1))))
  {
    assert [t0, t1, t2] == [t0] + ([t1] + ([t2] + []));
    CleanHead(data, t0, [t1, t2], {});
    CleanHead(data, t1, [t2], TextSet(Frame(data, t0)));
    CleanHead(data, t2, [], TextSet(Frame(data, t1)));
    NothingSeen(Frame(data, t0));
  }

  lemma CleanThree(data: seq<TextData>, t0: real, t1: real, t2: real)
    requires Chronology(data) == [t0, t1, t2]
    ensures Cleaned(data) ==
      Frame(data, t0) + (Unseen(Frame(data, t1), TextSet(Frame(data, t0))) +
      Unseen(Frame(data, t2), TextSet(Frame(data, t1))))
  {
    assert data != [];
    CleanFramesThree(data, t0, t1, t2);
  }

  /** A static screen: a second frame showing only texts of the first contributes nothing. */
  lemma StaticScreenDeduplicated(a0: TextData, b0: TextData, a1: TextData, b1: TextData)
    requires a0.timestamp == b0.timestamp < a1.timestamp == b1.timestamp
    requires a1.text in {a0.text, b0.text} && b1.text in {a0.text, b0.text}
    ensures Cleaned([a0, b0, a1, b1]) == [a0, b0]
  {
    var data := [a0, b0, a1, b1];
    assert [a0, b0] + [a1, b1] == data;
    assert Uniform([a0, b0], a0.timestamp) && Uniform([a1, b1], a1.timestamp);
    Moments2([a0, b0], [a1, b1], a0.timestamp, a1.timestamp);
    CleanTwo(data, a0.timestamp, a1.timestamp);
    TextSetTwo(a0, b0);
    assert [a1, b1][1..] == [b1] && [b1][1..] == [];
    assert Unseen([b1], {a0.text, b0.text}) == [];
    assert Unseen([a1, b1], {a0.text, b0.text}) == [];
  }

  /** Only the previous frame counts: a text that disappears for one frame and comes back is kept again. */
  lemma ReappearanceKept(a0: TextData, b1: TextData, a2: TextData)
    requires a0.timestamp < b1.timestamp < a2.timestamp
    requires b1.text != a0.text && a2.text != b1.text
    ensures Cleaned([a0, b1, a2]) == [a0, b1, a2]
  {
    var data := [a0, b1, a2];
    assert [a0] + [b1] + [a2] == data;
    assert Uniform([a0], a0.timestamp) && Uniform([b1], b1.timestamp) && Uniform([a2], a2.timestamp);
    Moments3([a0], [b1], [a2], a0.timestamp, b1.timestamp, a2.timestamp);
    CleanThree(data, a0.timestamp, b1.timestamp, a2.timestamp);
    TextSetOne(a0);
    TextSetOne(b1);
    assert [b1][1..] == [] && [a2][1..] == [];
    assert Unseen([b1], {a0.text}) == [b1];
    assert Unseen([a2], {b1.text}) == [a2];
  }

  lemma FirstPass(x0: TextData, y0: TextData, y1: TextData, x2: TextData)
    requires x0.timestamp == y0.timestamp < y1.timestamp < x2.timestamp
    requires y1.text == y0.text && x2.text == x0.text && x0.text != y0.text
    ensures Cleaned([x0, y0, y1, x2]) == [x0, y0, x2]
  {
    var data := [x0, y0, y1, x2];
    assert [x0, y0] + [y1] + [x2] == data;
    assert Uniform([x0, y0], x0.timestamp) && Uniform([y1], y1.timestamp) && Uniform([x2], x2.timestamp);
    Moments3([x0, y0], [y1], [x2], x0.timestamp, y1.timestamp, x2.timestamp);
    CleanThree(data, x0.timestamp, y1.timestamp, x2.timestamp);
    TextSetTwo(x0, y0);
    TextSetOne(y1);
    assert [y1][1..] == [] && [x2][1..] == [];
    assert Unseen([y1], {x0.text, y0.text}) == [];
    assert Unseen([x2], {y1.text}) == [x2];
  }

  lemma SecondPass(x0: TextData, y0: TextData, x2: TextData)
    requires x0.timestamp == y0.timestamp < x2.timestamp
    requires x2.text == x0.text
    ensures Cleaned([x0, y0, x2]) == [x0, y0]
  {
    var data := [x0, y0, x2];
    assert [x0, y0] + [x2] == data;
    assert Uniform([x0, y0], x0.timestamp) && Uniform([x2], x2.timestamp);
    Moments2([x0, y0], [x2], x0.timestamp, x2.timestamp);
    CleanTwo(data, x0.timestamp, x2.timestamp);
    TextSetTwo(x0, y0);
    assert [x2][1..] == [];
    assert Unseen([x2], {x0.text, y0.text}) == [];
  }

  /**
    Cleaning is not idempotent: once the repeat of Y at the second moment has
    gone, X at the third moment follows a frame that showed X, and a second
    pass drops it.
   */
  lemma CleanNotIdempotent(x0: TextData, y0: TextData, y1: TextData, x2: TextData)
    requires x0.timestamp == y0.timestamp < y1.timestamp < x2.timestamp
    requires y1.text == y0.text && x2.text == x0.text && x0.text != y0.text
    ensures Cleaned([x0, y0, y1, x2]) == [x0, y0, x2]
    ensures Cleaned(Cleaned([x0, y0, y1, x2])) == [x0, y0]
    ensures Cleaned(Cleaned([x0, y0, y1, x2])) != Cleaned([x0, y0, y1, x2])
  {
    FirstPass(x0, y0, y1, x2);
    SecondPass(x0, y0, x2);
  }

  /** A capture of one moment is kept whole, in input order. */
  lemma SingleFrameKept(data: seq<TextData>, t: real)
    requires data != []
    requires forall d :: d in data ==> d.timestamp == t
    ensures Cleaned(data) == data
  {
    assert data[0] in data;
    var ks := Chronology(data);
    assert ks == [t] by {
      assert t in Timestamps(data);
      SortedUnique(ks, [t]);
    }
    FrameUniform(data, t, t);
    NewFragmentsAreUnseen(data, {});
    NothingSeen(data);
    assert [t][1..] == [];
    assert CleanFrames(data, [t], {}) == NewFragments(Frame(data, t), {}) + [];
  }

  /** The cleaned list depends on the order of the input, not only on which fragments it holds. */
  lemma CleanOrderDependent(a: TextData, b: TextData)
    requires a.timestamp == b.timestamp && a != b
    ensures multiset([a, b]) == multiset([b, a])
    ensures Cleaned([a, b]) != Cleaned([b, a])
  {
    SingleFrameKept([a, b], a.timestamp);
    SingleFrameKept([b, a], a.timestamp);
    assert [a, b][0] != [b, a][0];
  }

  // ----- Stitching -----

  /** A block of two fragments: the one the comparator puts first, a space, the other. */
  lemma BlockTwo(a: TextData, b: TextData)
    ensures Block([a, b]) == if Before(b, a) then b.text + " " + a.text else a.text + " " + b.text
  {
    assert [a, b][..1] == [a] && [a][..0] == [];
    assert SortFrame([a]) == [a];
    assert SortFrame([a, b]) == Insert([a], b);
    if Before(b, a) {
      assert Insert([a], b) == Insert([], b) + [a] == [b, a];
      assert Texts([b, a]) == [b.text, a.text];
      assert [b.text, a.text][1..] == [a.text];
      assert Join([b.text, a.text], " ") == b.text + " " + Join([a.text], " ");
    } else {
      assert Insert([a], b) == [a, b];
      assert Texts([a, b]) == [a.text, b.text];
      assert [a.text, b.text][1..] == [b.text];
      assert Join([a.text, b.text], " ") == a.text + " " + Join([b.text], " ");
    }
  }

  /** A block of one fragment is its text. */
  lemma BlockOne(a: TextData)
    ensures Block([a]) == a.text
  {
    assert [a][..0] == [];
    assert SortFrame([a]) == [a];
    assert Texts([a]) == [a.text];
  }

  /** Two fragments on one line, given right one first, read left to right. */
  lemma OneLineStitched(right: TextData, left: TextData)
    requires right.timestamp == left.timestamp
    requires SameLine(left, right) && left.box.x < right.box.x
    ensures Stitched([right, left]) == left.text + " " + right.text
  {
    SingleMoment([right, left], right.timestamp);
    BlockTwo(right, left);
  }

  /** On different lines the upper origin (smaller Y) comes first, whatever the X. */
  lemma LinesByY(lower: TextData, upper: TextData)
    requires lower.timestamp == upper.timestamp
    requires !SameLine(upper, lower) && upper.box.y < lower.box.y
    ensures Stitched([lower, upper]) == upper.text + " " + lower.text
  {
    SingleMoment([lower, upper], lower.timestamp);
    BlockTwo(lower, upper);
  }

  /** Fragments at the same origin keep their input order, so the text depends on it. */
  lemma StitchKeepsTieOrder(a: TextData, b: TextData)
    requires a.timestamp == b.timestamp && a.box.x == b.box.x && a.box.y == b.box.y
    ensures Stitched([a, b]) == a.text + " " + b.text
  {
    SingleMoment([a, b], a.timestamp);
    BlockTwo(a, b);
  }

  /** A capture of two moments gives their two blocks with a blank line between them. */
  lemma StitchTwo(data: seq<TextData>, t0: real, t1: real)
    requires Chronology(data) == [t0, t1]
    ensures Stitched(data) == Block(Frame(data, t0)) + "\n\n" + Block(Frame(data, t1))
  {
    assert t0 in Timestamps(data);
    var blocks := Blocks(data, [t0, t1]);
    assert blocks[0] == Block(Frame(data, t0)) && blocks[1] == Block(Frame(data, t1));
    assert blocks[1..] == [blocks[1]];
    assert Join(blocks, "\n\n") == blocks[0] + "\n\n" + Join(blocks[1..], "\n\n");
  }

  /** Two moments, given later one first, give two blocks in time order separated by a blank line. */
  lemma TwoMomentsStitched(later: TextData, earlier: TextData)
    requires earlier.timestamp < later.timestamp
    ensures Stitched([later, earlier]) == earlier.text + "\n\n" + later.text
  {
    var data := [later, earlier];
    assert [later] + [earlier] == data;
    assert Uniform([later], later.timestamp) && Uniform([earlier], earlier.timestamp);
    Moments2([later], [earlier], later.timestamp, earlier.timestamp);
    StitchTwo(data, earlier.timestamp, later.timestamp);
    BlockOne(earlier);
    BlockOne(later);
  }

  /** A fragment with full confidence and a small box at origin (x, y). */
  function At(id: Uuid, t: real, text: string, x: real, y: real): TextData {
    TextData(id, t, text, 1.0, Rect(x, y, 0.2, 0.05))
  }

  /**
    The line comparator is not transitive: three origins 0.009 apart in Y
    form a cycle, so no order of them agrees with every comparison.
   */
  lemma ComparatorCycle()
    ensures var p, q, r := At(1, 0.0, "P", 0.2, 0.0), At(2, 0.0, "Q", 0.1, 0.009), At(3, 0.0, "R", 0.0, 0.018);
      Before(r, q) && Before(q, p) && Before(p, r)
  {
  }

  /** The non-idempotence capture exists: concrete fragments meet the conditions above. */
  lemma CleanTwiceDiffers()
    ensures var x0, y0 := At(1, 0.0, "X", 0.1, 0.1), At(2, 0.0, "Y", 0.1, 0.5);
      var y1, x2 := At(3, 1.0, "Y", 0.1, 0.5), At(4, 2.0, "X", 0.1, 0.1);
      Cleaned(Cleaned([x0, y0, y1, x2])) != Cleaned([x0, y0, y1, x2])
  {
    var x0, y0 := At(1, 0.0, "X", 0.1, 0.1), At(2, 0.0, "Y", 0.1, 0.5);
    var y1, x2 := At(3, 1.0, "Y", 0.1, 0.5), At(4, 2.0, "X", 0.1, 0.1);
    assert x0.text != y0.text by { assert x0.text[0] != y0.text[0]; }
    CleanNotIdempotent(x0, y0, y1, x2);
  }
}
