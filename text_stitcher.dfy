/**
  Reading-order stitching (TextStitcher.stitch): each frame's fragments are
  sorted top to bottom and, on one line, left to right, joined with a
  space; the frame blocks are joined, in ascending timestamp order, with a
  blank line.
 */
module TextStitcher {
  import opened Fragments
  import opened KeyOrder
  import opened Timeline

  /** Two origins closer than this in Y are on the same line. */
  const LineTolerance: real := 0.01

  predicate SameLine(a: TextData, b: TextData) {
    Abs(a.box.y - b.box.y) < LineTolerance
  }

  /** The comparator of the per-frame sort: by X on one line, by Y otherwise. */
  predicate Before(a: TextData, b: TextData) {
    if SameLine(a, b) then a.box.x < b.box.x else a.box.y < b.box.y
  }

  /**
    Inserts `x` into `sorted` just after the last element it does not sort
    before, scanning from the right, so that ties keep their input order.
   */
  function Insert(sorted: seq<TextData>, x: TextData): (r: seq<TextData>)
    ensures multiset(r) == multiset(sorted) + multiset{x}
    ensures |r| == |sorted| + 1
  {
    if sorted == [] then [x]
    else
      var n := |sorted| - 1;
      if Before(x, sorted[n]) then
        assert sorted == sorted[..n] + [sorted[n]];
        Insert(sorted[..n], x) + [sorted[n]]
      else sorted + [x]
  }

  /** The per-frame sort with the comparator above, as a stable insertion sort. */
  function SortFrame(frame: seq<TextData>): (r: seq<TextData>)
    ensures multiset(r) == multiset(frame)
    ensures |r| == |frame|
  {
    if frame == [] then []
    else
      var n := |frame| - 1;
      assert frame == frame[..n] + [frame[n]];
      Insert(SortFrame(frame[..n]), frame[n])
  }

  /** The texts of a list of fragments, position by position. */
  function Texts(frame: seq<TextData>): (r: seq<string>)
    ensures |r| == |frame| && forall i :: 0 <= i < |frame| ==> r[i] == frame[i].text
  {
    seq(|frame|, i requires 0 <= i < |frame| => frame[i].text)
  }

  /** Joining: the parts with one separator between neighbours. */
  function Join(parts: seq<string>, separator: string): string {
    if parts == [] then ""
    else if |parts| == 1 then parts[0]
    else parts[0] + separator + Join(parts[1..], separator)
  }

  /** One frame's line block. */
  function Block(frame: seq<TextData>): string {
    Join(Texts(SortFrame(frame)), " ")
  }

  /** The blocks of the moments `ks`, in that order. */
  function Blocks(data: seq<TextData>, ks: seq<real>): (r: seq<string>)
    ensures |r| == |ks| && forall i :: 0 <= i < |ks| ==> r[i] == Block(Frame(data, ks[i]))
  {
    seq(|ks|, i requires 0 <= i < |ks| => Block(Frame(data, ks[i])))
  }

  /** The result of `stitch(data:)`. */
  function Stitched(data: seq<TextData>): string {
    if data == [] then "" else Join(Blocks(data, Chronology(data)), "\n\n")
  }

  /** The stitching loop of `stitch`: one block per ascending timestamp. */
  method Stitch(data: seq<TextData>) returns (stitched: string)
    ensures stitched == Stitched(data)
    ensures data == [] ==> stitched == ""
  {
    if data == [] {
      return "";
    }
    var groupedByTime := GroupByTimestamp(data);
    var sortedTimestamps := Chronology(data);
    var stitchedTextBlocks: seq<string> := [];
    for i := 0 to |sortedTimestamps|
      invariant stitchedTextBlocks == Blocks(data, sortedTimestamps[..i])
    {
      var frameData := groupedByTime[sortedTimestamps[i]];
      var sortedFrameText := Join(Texts(SortFrame(frameData)), " ");
      assert sortedFrameText == Block(Frame(data, sortedTimestamps[i]));
      BlocksExtend(data, sortedTimestamps, i);
      stitchedTextBlocks := stitchedTextBlocks + [sortedFrameText];
    }
    assert sortedTimestamps[..|sortedTimestamps|] == sortedTimestamps;
    stitched := Join(stitchedTextBlocks, "\n\n");
  }

  lemma BlocksExtend(data: seq<TextData>, ks: seq<real>, i: nat)
    requires i < |ks|
    ensures Blocks(data, ks[..i + 1]) == Blocks(data, ks[..i]) + [Block(Frame(data, ks[i]))]
  {
    var longer := Blocks(data, ks[..i + 1]);
    var shorter := Blocks(data, ks[..i]);
    forall j | 0 <= j < i ensures longer[j] == shorter[j] {
      assert ks[..i + 1][j] == ks[..i][j];
    }
    SnocEqual(longer, shorter, Block(Frame(data, ks[i])));
  }

  lemma SnocEqual(longer: seq<string>, shorter: seq<string>, last: string)
    requires |longer| == |shorter| + 1 && longer[|shorter|] == last
    requires forall j :: 0 <= j < |shorter| ==> longer[j] == shorter[j]
    ensures longer == shorter + [last]
  {
  }

  // ----- Joining -----

  /** Appending a part adds exactly one separator before it. */
  lemma {:induction false} JoinAppend(parts: seq<string>, p: string, separator: string)
    requires parts != []
    ensures Join(parts + [p], separator) == Join(parts, separator) + separator + p
  {
    if |parts| > 1 {
      assert (parts + [p])[1..] == parts[1..] + [p];
      JoinAppend(parts[1..], p, separator);
    }
  }

  /** Joining two non-empty lists puts one separator between their joins. */
  lemma {:induction false} JoinConcat(x: seq<string>, y: seq<string>, separator: string)
    requires x != [] && y != []
    ensures Join(x + y, separator) == Join(x, separator) + separator + Join(y, separator)
  {
    assert (x + y)[0] == x[0] && (x + y)[1..] == x[1..] + y;
    if |x| > 1 {
      JoinConcat(x[1..], y, separator);
    }
  }

  /** Blocks of moments of two strictly successive captures are the blocks of each in turn. */
  lemma BlocksSplit(a: seq<TextData>, b: seq<TextData>)
    requires Precedes(a, b)
    ensures Blocks(a + b, Chronology(a) + Chronology(b)) == Blocks(a, Chronology(a)) + Blocks(b, Chronology(b))
  {
    var ka, kb := Chronology(a), Chronology(b);
    var whole, left, right := Blocks(a + b, ka + kb), Blocks(a, ka), Blocks(b, kb);
    forall i | 0 <= i < |whole| ensures whole[i] == (left + right)[i] {
      if i < |ka| {
        assert (ka + kb)[i] == ka[i] && ka[i] in Timestamps(a);
        FrameSplit(a, b, ka[i]);
      } else {
        assert (ka + kb)[i] == kb[i - |ka|] && kb[i - |ka|] in Timestamps(b);
        FrameSplit(a, b, kb[i - |ka|]);
      }
    }
  }

  /**
    A capture followed by a strictly later one stitches to the two documents
    with a blank line between them: the blocks come one per moment, in time
    order, whatever the input order.
   */
  lemma StitchedSplit(a: seq<TextData>, b: seq<TextData>)
    requires a != [] && b != [] && Precedes(a, b)
    ensures Stitched(a + b) == Stitched(a) + "\n\n" + Stitched(b)
  {
    assert a[0].timestamp in Timestamps(a) && b[0].timestamp in Timestamps(b);
    ChronologySplit(a, b);
    BlocksSplit(a, b);
    JoinConcat(Blocks(a, Chronology(a)), Blocks(b, Chronology(b)), "\n\n");
  }

  /** All fragments of one moment make one block, with no separator added. */
  lemma SingleMoment(data: seq<TextData>, t: real)
    requires data != []
    requires forall d :: d in data ==> d.timestamp == t
    ensures Stitched(data) == Block(data)
  {
    assert data[0] in data;
    var ks := Chronology(data);
    assert ks == [t] by {
      assert t in Timestamps(data);
      SortedUnique(ks, [t]);
    }
    FrameUniform(data, t, t);
  }

  // ----- Ordering within a frame -----

  /** The coordinate that decides the order in one of the two regular cases. */
  function Key(d: TextData, byX: bool): real {
    if byX then d.box.x else d.box.y
  }

  ghost predicate OrderedBy(s: seq<TextData>, byX: bool) {
    forall i, j :: 0 <= i < j < |s| ==> Key(s[i], byX) <= Key(s[j], byX)
  }

  /** On the fragments of `s`, the comparator is "smaller key". */
  ghost predicate ComparesBy(s: seq<TextData>, byX: bool) {
    forall a, b :: a in s && b in s ==> (Before(a, b) <==> Key(a, byX) < Key(b, byX))
  }

  lemma OrderedSnoc(s: seq<TextData>, z: TextData, byX: bool)
    requires OrderedBy(s, byX)
    requires forall d :: d in s ==> Key(d, byX) <= Key(z, byX)
    ensures OrderedBy(s + [z], byX)
  {
    var r := s + [z];
    forall i, j | 0 <= i < j < |r| ensures Key(r[i], byX) <= Key(r[j], byX) {
      if j == |s| {
        assert r[i] in s;
      }
    }
  }

  lemma InsertElements(sorted: seq<TextData>, x: TextData)
    ensures forall d :: d in Insert(sorted, x) <==> d in sorted || d == x
  {
    forall d ensures d in Insert(sorted, x) <==> d in sorted || d == x {
      assert d in Insert(sorted, x) <==> d in multiset(Insert(sorted, x));
    }
  }

  lemma ComparesBySub(s: seq<TextData>, t: seq<TextData>, byX: bool)
    requires ComparesBy(t, byX)
    requires forall d :: d in s ==> d in t
    ensures ComparesBy(s, byX)
  {
  }

  /** In an ordered list, no key exceeds the last one. */
  lemma LastIsMax(s: seq<TextData>, byX: bool)
    requires OrderedBy(s, byX) && s != []
    ensures forall d :: d in s ==> Key(d, byX) <= Key(s[|s| - 1], byX)
  {
    forall d | d in s ensures Key(d, byX) <= Key(s[|s| - 1], byX) {
      var k :| 0 <= k < |s| && s[k] == d;
    }
  }

  lemma {:induction false} InsertOrdered(sorted: seq<TextData>, x: TextData, byX: bool)
    requires OrderedBy(sorted, byX)
    requires ComparesBy(sorted + [x], byX)
    ensures OrderedBy(Insert(sorted, x), byX)
  {
    if sorted != [] {
      var n := |sorted| - 1;
      var last, init := sorted[n], sorted[..n];
      assert sorted == init + [last];
      assert last in sorted + [x] && x in sorted + [x];
      LastIsMax(sorted, byX);
      if Before(x, last) {
        ComparesBySub(init + [x], sorted + [x], byX);
        InsertOrdered(init, x, byX);
        InsertElements(init, x);
        OrderedSnoc(Insert(init, x), last, byX);
      } else {
        OrderedSnoc(sorted, x, byX);
      }
    }
  }

  /** Where the comparator agrees with one coordinate, the sort orders by it. */
  lemma {:induction false} SortOrdered(frame: seq<TextData>, byX: bool)
    requires ComparesBy(frame, byX)
    ensures OrderedBy(SortFrame(frame), byX)
  {
    if frame != [] {
      var n := |frame| - 1;
      var init := frame[..n];
      assert forall d :: d in init ==> d in frame;
      SortOrdered(init, byX);
      var sorted := SortFrame(init);
      assert ComparesBy(sorted + [frame[n]], byX) by {
        forall d | d in sorted + [frame[n]] ensures d in frame {
          if d in sorted {
            assert d in multiset(init);
          }
        }
      }
      InsertOrdered(sorted, frame[n], byX);
    }
  }

  /** All origins pairwise within the tolerance in Y. */
  ghost predicate AllOnOneLine(frame: seq<TextData>) {
    forall a, b :: a in frame && b in frame ==> SameLine(a, b)
  }

  /** Any two distinct positions at least the tolerance apart in Y. */
  ghost predicate AllOnSeparateLines(frame: seq<TextData>) {
    forall i, j :: 0 <= i < |frame| && 0 <= j < |frame| && i != j ==> !SameLine(frame[i], frame[j])
  }

  /** On one line, the block lists the fragments by ascending X. */
  lemma OneLineByX(frame: seq<TextData>)
    requires AllOnOneLine(frame)
    ensures OrderedBy(SortFrame(frame), true)
    ensures multiset(SortFrame(frame)) == multiset(frame)
  {
    SortOrdered(frame, true);
  }

  /** On separate lines, the block lists the fragments by ascending Y, whatever their X. */
  lemma SeparateLinesByY(frame: seq<TextData>)
    requires AllOnSeparateLines(frame)
    ensures OrderedBy(SortFrame(frame), false)
    ensures multiset(SortFrame(frame)) == multiset(frame)
  {
    forall a, b | a in frame && b in frame ensures Before(a, b) <==> Key(a, false) < Key(b, false) {
      if a != b {
        var i :| 0 <= i < |frame| && frame[i] == a;
        var j :| 0 <= j < |frame| && frame[j] == b;
        assert !SameLine(a, b);
      }
    }
    SortOrdered(frame, false);
  }

  // ----- Nothing dropped, nothing repeated -----

  lemma TextsAppend(a: seq<TextData>, b: seq<TextData>)
    ensures Texts(a + b) == Texts(a) + Texts(b)
  {
  }

  lemma {:induction false} TextsOfInsert(sorted: seq<TextData>, x: TextData)
    ensures multiset(Texts(Insert(sorted, x))) == multiset(Texts(sorted)) + multiset{x.text}
  {
    if sorted == [] {
      assert Texts([x]) == [x.text];
    } else {
      var n := |sorted| - 1;
      TextsAppend(sorted[..n], [sorted[n]]);
      assert sorted == sorted[..n] + [sorted[n]];
      assert Texts([sorted[n]]) == [sorted[n].text];
      assert Texts([x]) == [x.text];
      if Before(x, sorted[n]) {
        TextsOfInsert(sorted[..n], x);
        TextsAppend(Insert(sorted[..n], x), [sorted[n]]);
      } else {
        TextsAppend(sorted, [x]);
      }
    }
  }

  /** A block holds every text of its frame exactly as often as the frame does. */
  lemma {:induction false} BlockWords(frame: seq<TextData>)
    ensures multiset(Texts(SortFrame(frame))) == multiset(Texts(frame))
  {
    if frame != [] {
      var n := |frame| - 1;
      assert frame == frame[..n] + [frame[n]];
      BlockWords(frame[..n]);
      TextsOfInsert(SortFrame(frame[..n]), frame[n]);
      TextsAppend(frame[..n], [frame[n]]);
      assert Texts([frame[n]]) == [frame[n].text];
    }
  }
}
