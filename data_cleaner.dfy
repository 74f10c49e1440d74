/**
  Temporal deduplication (DataCleaner.clean): walking the distinct
  timestamps in ascending order, each frame keeps only the fragments whose
  text was not in the text set of the frame immediately before it.
 */
module DataCleaner {
  import opened Fragments
  import opened KeyOrder
  import opened Timeline

  /** The set of texts shown in a frame. */
  function TextSet(frame: seq<TextData>): set<string> {
    set d | d in frame :: d.text
  }

  /** The fragments of `frame` whose text is in `texts`, in frame order. */
  function FilterByTexts(frame: seq<TextData>, texts: set<string>): seq<TextData> {
    if frame == [] then []
    else (if frame[0].text in texts then [frame[0]] else []) + FilterByTexts(frame[1..], texts)
  }

  /**
    What one frame contributes: the set difference against the previous
    frame's text set and, when it is not empty, the frame's fragments whose
    text is in it, in frame order.
   */
  function NewFragments(frame: seq<TextData>, previous: set<string>): seq<TextData> {
    var newTexts := TextSet(frame) - previous;
    if newTexts != {} then FilterByTexts(frame, newTexts) else []
  }

  /** The loop over the moments `ks`, with the text set of the frame before them. */
  function CleanFrames(data: seq<TextData>, ks: seq<real>, previous: set<string>): seq<TextData>
    decreases |ks|
  {
    if ks == [] then []
    else
      var frame := Frame(data, ks[0]);
      NewFragments(frame, previous) + CleanFrames(data, ks[1..], TextSet(frame))
  }

  /** The result of `clean(rawData:)`. */
  function Cleaned(rawData: seq<TextData>): seq<TextData> {
    if rawData == [] then [] else CleanFrames(rawData, Chronology(rawData), {})
  }

  /** The deduplicating loop of `clean`: one pass over the ascending timestamps. */
  method Clean(rawData: seq<TextData>) returns (cleanedData: seq<TextData>)
    ensures cleanedData == Cleaned(rawData)
    ensures rawData == [] ==> cleanedData == []
  {
    if rawData == [] {
      return [];
    }
    cleanedData := [];
    var groupedByTime := GroupByTimestamp(rawData);
    var sortedTimestamps := Chronology(rawData);
    var previousFrameTextSet: set<string> := {};
    ghost var target := Cleaned(rawData);
    CleanEnds(rawData, sortedTimestamps);
    for i := 0 to |sortedTimestamps|
      invariant cleanedData + CleanFrames(rawData, sortedTimestamps[i..], previousFrameTextSet) == target
    {
      var timestamp := sortedTimestamps[i];
      var currentFrameData := groupedByTime[timestamp];
      var currentFrameTextSet := TextSet(currentFrameData);
      var newTexts := currentFrameTextSet - previousFrameTextSet;
      CleanStep(rawData, sortedTimestamps, i, currentFrameData, cleanedData, previousFrameTextSet, target);
      if newTexts != {} {
        var newTextDataObjects := FilterByTexts(currentFrameData, newTexts);
        cleanedData := cleanedData + newTextDataObjects;
      }
      previousFrameTextSet := currentFrameTextSet;
    }
  }

  /** The loop starts from the whole chronology and ends with nothing left to visit. */
  lemma CleanEnds(data: seq<TextData>, ks: seq<real>)
    requires data != [] && ks == Chronology(data)
    ensures [] + CleanFrames(data, ks[0..], {}) == Cleaned(data)
    ensures forall acc: seq<TextData>, previous: set<string> ::
      acc + CleanFrames(data, ks[|ks|..], previous) == acc
  {
    assert ks[0..] == ks;
    assert ks[|ks|..] == [];
  }

  /** One turn of the loop keeps the loop invariant of `Clean`. */
  lemma CleanStep(data: seq<TextData>, ks: seq<real>, i: nat, frame: seq<TextData>, acc: seq<TextData>,
                  previous: set<string>, target: seq<TextData>)
    requires i < |ks| && frame == Frame(data, ks[i])
    requires acc + CleanFrames(data, ks[i..], previous) == target
    ensures var newTexts := TextSet(frame) - previous;
      (if newTexts != {} then acc + FilterByTexts(frame, newTexts) else acc) +
        CleanFrames(data, ks[i + 1..], TextSet(frame)) == target
  {
    var contribution := NewFragments(frame, previous);
    var remaining := CleanFrames(data, ks[i + 1..], TextSet(frame));
    CleanFramesStep(data, ks, i, previous);
    AppendAssociative(acc, contribution, remaining);
    if TextSet(frame) - previous == {} {
      assert contribution + remaining == remaining;
    }
  }

  lemma AppendAssociative(a: seq<TextData>, b: seq<TextData>, c: seq<TextData>)
    ensures (a + b) + c == a + (b + c)
  {
  }

  /** One turn of the loop: the frame at position `i` comes first, then the rest. */
  lemma CleanFramesStep(data: seq<TextData>, ks: seq<real>, i: nat, previous: set<string>)
    requires i < |ks|
    ensures CleanFrames(data, ks[i..], previous) ==
      NewFragments(Frame(data, ks[i]), previous) + CleanFrames(data, ks[i + 1..], TextSet(Frame(data, ks[i])))
  {
    assert ks[i..][1..] == ks[i + 1..];
  }

  // ----- The policy, stated independently of the loop -----

  /**
    The text set of the frame at the nearest smaller distinct timestamp, or
    the empty set when `t` is the earliest moment.
   */
  function PreviousTexts(data: seq<TextData>, t: real): set<string> {
    match PreviousMoment(data, t)
    case None => {}
    case Some(p) => TextSet(Frame(data, p))
  }

  /** The fragments of `frame` whose text is not in `seen`, in frame order. */
  function Unseen(frame: seq<TextData>, seen: set<string>): seq<TextData> {
    if frame == [] then []
    else (if frame[0].text !in seen then [frame[0]] else []) + Unseen(frame[1..], seen)
  }

  ghost predicate TimeOrdered(s: seq<TextData>) {
    forall i, j :: 0 <= i < j < |s| ==> s[i].timestamp <= s[j].timestamp
  }

  lemma {:induction false} UnseenCount(frame: seq<TextData>, seen: set<string>, d: TextData)
    ensures multiset(Unseen(frame, seen))[d] == if d.text in seen then 0 else multiset(frame)[d]
    ensures d in Unseen(frame, seen) <==> d in frame && d.text !in seen
  {
    if frame != [] {
      assert frame == [frame[0]] + frame[1..];
      UnseenCount(frame[1..], seen, d);
    }
  }

  /** Filtering by the new texts keeps exactly the fragments whose text is unseen. */
  lemma {:induction false} FilterNewIsUnseen(frame: seq<TextData>, texts: set<string>, seen: set<string>)
    requires TextSet(frame) <= texts
    ensures FilterByTexts(frame, texts - seen) == Unseen(frame, seen)
  {
    if frame != [] {
      assert TextSet(frame[1..]) <= TextSet(frame) by {
        forall x | x in TextSet(frame[1..]) ensures x in TextSet(frame) {
          var d :| d in frame[1..] && d.text == x;
          assert d in frame;
        }
      }
      assert frame[0] in frame;
      FilterNewIsUnseen(frame[1..], texts, seen);
    }
  }

  /** Nothing is unseen in a frame whose every text has been seen. */
  lemma {:induction false} AllSeen(frame: seq<TextData>, seen: set<string>)
    requires TextSet(frame) <= seen
    ensures Unseen(frame, seen) == []
  {
    if frame != [] {
      assert frame[0] in frame;
      assert TextSet(frame[1..]) <= TextSet(frame) by {
        forall x | x in TextSet(frame[1..]) ensures x in TextSet(frame) {
          var d :| d in frame[1..] && d.text == x;
          assert d in frame;
        }
      }
      AllSeen(frame[1..], seen);
    }
  }

  /** Against an empty previous set every fragment is new. */
  lemma {:induction false} NothingSeen(frame: seq<TextData>)
    ensures Unseen(frame, {}) == frame
  {
    if frame != [] {
      NothingSeen(frame[1..]);
    }
  }

  /** The loop body computes the reference policy for one frame. */
  lemma NewFragmentsAreUnseen(frame: seq<TextData>, previous: set<string>)
    ensures NewFragments(frame, previous) == Unseen(frame, previous)
  {
    FilterNewIsUnseen(frame, TextSet(frame), previous);
    if TextSet(frame) - previous == {} {
      forall x | x in TextSet(frame) ensures x in previous {
        assert x !in TextSet(frame) - previous;
      }
      AllSeen(frame, previous);
    }
  }

  /** At the `i`-th moment of the chronology, the previous frame is the `(i-1)`-th. */
  lemma PreviousTextsAt(data: seq<TextData>, i: nat)
    requires i < |Chronology(data)|
    ensures PreviousTexts(data, Chronology(data)[i]) ==
      if i == 0 then {} else TextSet(Frame(data, Chronology(data)[i - 1]))
  {
    var ks := Chronology(data);
    PreviousInChronology(data, i);
    PreviousMomentSpec(data, ks[i]);
    if i > 0 {
      assert ks[i - 1] in Timestamps(data);
      PreviousUnique(data, PreviousMoment(data, ks[i]).value, ks[i - 1], ks[i]);
    }
  }

  /** The fragments of one frame, filtered, lie in that frame only. */
  lemma UnseenFrame(data: seq<TextData>, u: real, seen: set<string>, t: real)
    ensures Frame(Unseen(Frame(data, u), seen), t) == if t == u then Unseen(Frame(data, u), seen) else []
  {
    var f := Unseen(Frame(data, u), seen);
    forall d | d in f ensures d.timestamp == u {
      UnseenCount(Frame(data, u), seen, d);
      FrameCount(data, u, d);
    }
    FrameUniform(f, u, t);
  }

  /** At every moment of `ks`, the previous text set is that of the moment before it in `ks`. */
  ghost predicate PreviousAlong(data: seq<TextData>, ks: seq<real>) {
    forall j :: 0 < j < |ks| ==> PreviousTexts(data, ks[j]) == TextSet(Frame(data, ks[j - 1]))
  }

  /** From position `i` of the moments `ks` on, the loop emits each frame's unseen fragments. */
  lemma {:induction false} CleanFramesFrame(data: seq<TextData>, ks: seq<real>, i: nat, previous: set<string>, t: real)
    requires StrictlyIncreasing(ks) && PreviousAlong(data, ks) && i <= |ks|
    requires ks != [] ==> PreviousTexts(data, ks[0]) == {}
    requires previous == if i == 0 then {} else TextSet(Frame(data, ks[i - 1]))
    ensures Frame(CleanFrames(data, ks[i..], previous), t) ==
      if t in ks[i..] then Unseen(Frame(data, t), PreviousTexts(data, t)) else []
    decreases |ks| - i
  {
    if i == |ks| {
      assert ks[i..] == [];
    } else {
      var frame := Frame(data, ks[i]);
      var here := Unseen(frame, previous);
      var rest := CleanFrames(data, ks[i + 1..], TextSet(frame));
      CleanFramesStep(data, ks, i, previous);
      NewFragmentsAreUnseen(frame, previous);
      FrameAppend(here, rest, t);
      UnseenFrame(data, ks[i], previous, t);
      CleanFramesFrame(data, ks, i + 1, TextSet(frame), t);
      assert t in ks[i..] <==> t == ks[i] || t in ks[i + 1..];
      if t == ks[i] {
        assert t !in ks[i + 1..];
      }
    }
  }

  /** The loop emits only fragments of the moments it visits, in visiting order. */
  lemma {:induction false} CleanFramesOrdered(data: seq<TextData>, ks: seq<real>, previous: set<string>)
    requires StrictlyIncreasing(ks)
    ensures TimeOrdered(CleanFrames(data, ks, previous))
    ensures forall d :: d in CleanFrames(data, ks, previous) ==> d.timestamp in ks
  {
    if ks != [] {
      var frame := Frame(data, ks[0]);
      var here := NewFragments(frame, previous);
      var rest := CleanFrames(data, ks[1..], TextSet(frame));
      CleanFramesOrdered(data, ks[1..], TextSet(frame));
      NewFragmentsAreUnseen(frame, previous);
      forall d | d in here ensures d.timestamp == ks[0] {
        UnseenCount(frame, previous, d);
        FrameCount(data, ks[0], d);
      }
      forall d | d in rest ensures ks[0] < d.timestamp {
        var j :| 0 <= j < |ks[1..]| && ks[1..][j] == d.timestamp;
        assert ks[j + 1] == d.timestamp;
      }
      AppendOrdered(here, rest, ks[0]);
    }
  }

  /** One moment's fragments followed by a time-ordered list of later ones are time-ordered. */
  lemma AppendOrdered(here: seq<TextData>, rest: seq<TextData>, t: real)
    requires forall d :: d in here ==> d.timestamp == t
    requires forall d :: d in rest ==> t < d.timestamp
    requires TimeOrdered(rest)
    ensures TimeOrdered(here + rest)
  {
    var r := here + rest;
    forall i, j | 0 <= i < j < |r| ensures r[i].timestamp <= r[j].timestamp {
      if j < |here| {
        assert r[i] in here && r[j] in here;
      } else if i < |here| {
        assert r[i] in here && r[j] == rest[j - |here|];
        assert rest[j - |here|] in rest;
      } else {
        assert r[i] == rest[i - |here|] && r[j] == rest[j - |here|];
      }
    }
  }

  // ----- What the source promises -----

  /**
    The frame of moment `t` in the cleaned list is the input frame of `t`
    with the fragments whose text was in the immediately preceding frame
    removed, in input order. Earlier frames play no role.
   */
  lemma CleanedFrame(data: seq<TextData>, t: real)
    ensures Frame(Cleaned(data), t) == Unseen(Frame(data, t), PreviousTexts(data, t))
  {
    FrameMissing(data, t);
    if data != [] {
      var ks := Chronology(data);
      forall j | 0 < j < |ks| ensures PreviousTexts(data, ks[j]) == TextSet(Frame(data, ks[j - 1])) {
        PreviousTextsAt(data, j);
      }
      PreviousTextsAt(data, 0);
      CleanFramesFrame(data, ks, 0, {}, t);
      assert ks[0..] == ks;
    }
  }

  /**
    A fragment survives, with all its copies, exactly when its text is absent
    from the text set of the nearest earlier moment.
   */
  lemma CleanedCount(data: seq<TextData>, d: TextData)
    ensures multiset(Cleaned(data))[d] ==
      if d.text in PreviousTexts(data, d.timestamp) then 0 else multiset(data)[d]
    ensures d in Cleaned(data) <==> d in data && d.text !in PreviousTexts(data, d.timestamp)
  {
    var t := d.timestamp;
    FrameCount(Cleaned(data), t, d);
    CleanedFrame(data, t);
    UnseenCount(Frame(data, t), PreviousTexts(data, t), d);
    FrameCount(data, t, d);
  }

  /** The cleaned list only ever drops fragments, so it is never longer than the input. */
  lemma CleanedSubMultiset(data: seq<TextData>)
    ensures multiset(Cleaned(data)) <= multiset(data)
    ensures |Cleaned(data)| <= |data|
  {
    forall d ensures multiset(Cleaned(data))[d] <= multiset(data)[d] {
      CleanedCount(data, d);
    }
    var a, b := multiset(Cleaned(data)), multiset(data);
    assert b == a + (b - a);
    assert |b| == |a| + |b - a|;
  }

  /** Surviving fragments come out in non-decreasing timestamp order. */
  lemma CleanedOrdered(data: seq<TextData>)
    ensures TimeOrdered(Cleaned(data))
  {
    if data != [] {
      CleanFramesOrdered(data, Chronology(data), {});
    }
  }

  /** Every fragment of the earliest moment is kept. */
  lemma EarliestFrameKept(data: seq<TextData>, t: real)
    requires t in Timestamps(data)
    requires forall q :: q in Timestamps(data) ==> t <= q
    ensures Frame(Cleaned(data), t) == Frame(data, t)
  {
    CleanedFrame(data, t);
    PreviousMomentSpec(data, t);
    NothingSeen(Frame(data, t));
  }

  /** A frame that shows no text the previous frame did not show contributes nothing. */
  lemma RepeatedFrameDropped(data: seq<TextData>, t: real)
    requires TextSet(Frame(data, t)) <= PreviousTexts(data, t)
    ensures Frame(Cleaned(data), t) == []
  {
    CleanedFrame(data, t);
    AllSeen(Frame(data, t), PreviousTexts(data, t));
  }

  /**
    What a cleaned list is, frame by frame and fragment by fragment: ordered
    by time, an input fragment kept (with all its copies) exactly when its
    text is absent from the nearest earlier frame, and no fragment added.
   */
  ghost predicate CleanedFrom(data: seq<TextData>, r: seq<TextData>) {
    && TimeOrdered(r)
    && (forall t :: Frame(r, t) == Unseen(Frame(data, t), PreviousTexts(data, t)))
    && (forall d :: d in r <==> d in data && d.text !in PreviousTexts(data, d.timestamp))
    && multiset(r) <= multiset(data)
    && |r| <= |data|
  }

  lemma CleanedProperties(data: seq<TextData>)
    ensures CleanedFrom(data, Cleaned(data))
  {
    CleanedOrdered(data);
    CleanedSubMultiset(data);
    forall t ensures Frame(Cleaned(data), t) == Unseen(Frame(data, t), PreviousTexts(data, t)) {
      CleanedFrame(data, t);
    }
    forall d ensures d in Cleaned(data) <==> d in data && d.text !in PreviousTexts(data, d.timestamp) {
      CleanedCount(data, d);
    }
  }
}
