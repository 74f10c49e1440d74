/**
  Ascending enumerations of distinct timestamps.
 */
module KeyOrder {

  ghost predicate StrictlyIncreasing(ts: seq<real>) {
    forall i, j :: 0 <= i < j < |ts| ==> ts[i] < ts[j]
  }

  /** Inserts `t` into an ascending list of distinct values, unless it is already there. */
  function InsertSorted(ts: seq<real>, t: real): (r: seq<real>)
    requires StrictlyIncreasing(ts)
    ensures StrictlyIncreasing(r)
    ensures forall u :: u in r <==> u in ts || u == t
  {
    if ts == [] then [t]
    else if t < ts[0] then [t] + ts
    else if t == ts[0] then ts
    else
      var r := [ts[0]] + InsertSorted(ts[1..], t);
      assert forall i :: 0 < i < |r| ==> r[i] in ts[1..] || r[i] == t;
      r
  }

  /** Ascending lists whose values all lie below all values of the next concatenate to an ascending list. */
  lemma AppendIncreasing(a: seq<real>, b: seq<real>)
    requires StrictlyIncreasing(a) && StrictlyIncreasing(b)
    requires forall p, q :: p in a && q in b ==> p < q
    ensures StrictlyIncreasing(a + b)
  {
    var r := a + b;
    forall i, j | 0 <= i < j < |r| ensures r[i] < r[j] {
      if j < |a| {
        assert r[i] == a[i] && r[j] == a[j];
      } else if i < |a| {
        assert r[i] == a[i] && r[j] == b[j - |a|];
        assert a[i] in a && b[j - |a|] in b;
      } else {
        assert r[i] == b[i - |a|] && r[j] == b[j - |a|];
      }
    }
  }

  /** An ascending list of distinct values is determined by its elements. */
  lemma {:induction false} SortedUnique(a: seq<real>, b: seq<real>)
    requires StrictlyIncreasing(a) && StrictlyIncreasing(b)
    requires forall t :: t in a <==> t in b
    ensures a == b
  {
    if a == [] {
      assert forall i :: 0 <= i < |b| ==> b[i] in b;
    } else {
      assert a[0] in a;
      assert b != [] by { assert a[0] in b; }
      assert b[0] in b;
      assert a[0] == b[0] by {
        assert a[0] in b;
        assert b[0] in a;
      }
      forall t ensures t in a[1..] <==> t in b[1..] {
        if t in a[1..] {
          assert t != a[0];
          assert t in b;
        }
        if t in b[1..] {
          assert t != b[0];
          assert t in a;
        }
      }
      SortedUnique(a[1..], b[1..]);
    }
  }

}

/**
  Grouping fragments into frames by exact timestamp and enumerating the
  distinct timestamps in ascending order: the `Dictionary(grouping:by:)`
  and `keys.sorted()` steps that the deduplicator and the stitcher share.
 */
module Timeline {
  import opened Fragments
  import opened KeyOrder

  /** The distinct capture moments of a fragment list. */
  function Timestamps(s: seq<TextData>): set<real> {
    set d | d in s :: d.timestamp
  }

  /**
    The frame of moment `t`: the fragments with exactly that timestamp, in
    input order.
   */
  function Frame(s: seq<TextData>, t: real): seq<TextData> {
    if s == [] then []
    else (if s[0].timestamp == t then [s[0]] else []) + Frame(s[1..], t)
  }

  /** The frame of `t` holds every copy of every fragment stamped `t`, and nothing else. */
  lemma {:induction false} FrameCount(s: seq<TextData>, t: real, d: TextData)
    ensures multiset(Frame(s, t))[d] == if d.timestamp == t then multiset(s)[d] else 0
    ensures d in Frame(s, t) <==> d in s && d.timestamp == t
  {
    if s != [] {
      assert s == [s[0]] + s[1..];
      FrameCount(s[1..], t, d);
    }
  }

  lemma {:induction false} FrameAppend(a: seq<TextData>, b: seq<TextData>, t: real)
    ensures Frame(a + b, t) == Frame(a, t) + Frame(b, t)
  {
    if a == [] {
      assert a + b == b;
    } else {
      var head := if a[0].timestamp == t then [a[0]] else [];
      assert (a + b)[0] == a[0] && (a + b)[1..] == a[1..] + b;
      FrameAppend(a[1..], b, t);
      assert head + (Frame(a[1..], t) + Frame(b, t)) == (head + Frame(a[1..], t)) + Frame(b, t);
    }
  }

  /** A list whose fragments all share timestamp `u` is its own frame at `u` and has no other. */
  lemma {:induction false} FrameUniform(s: seq<TextData>, u: real, t: real)
    requires forall d :: d in s ==> d.timestamp == u
    ensures Frame(s, t) == if t == u then s else []
  {
    if s != [] {
      FrameUniform(s[1..], u, t);
    }
  }

  /**
    Grouping by timestamp (`Dictionary(grouping:by:)`): one entry per distinct
    timestamp, holding that moment's fragments in input order.
   */
  function GroupByTimestamp(s: seq<TextData>): (g: map<real, seq<TextData>>)
    ensures g.Keys == Timestamps(s)
    ensures forall t | t in g :: g[t] == Frame(s, t) && g[t] != []
  {
    if s == [] then map[]
    else
      var rest := GroupByTimestamp(s[1..]);
      var t := s[0].timestamp;
      GroupStep(s, rest);
      rest[t := [s[0]] + (if t in rest then rest[t] else [])]
  }

  /** Adding the head fragment to the grouping of the tail groups the whole list. */
  lemma GroupStep(s: seq<TextData>, rest: map<real, seq<TextData>>)
    requires s != []
    requires rest.Keys == Timestamps(s[1..])
    requires forall t | t in rest :: rest[t] == Frame(s[1..], t) && rest[t] != []
    ensures var t := s[0].timestamp;
      var g := rest[t := [s[0]] + (if t in rest then rest[t] else [])];
      g.Keys == Timestamps(s) && forall u | u in g :: g[u] == Frame(s, u) && g[u] != []
  {
    var t := s[0].timestamp;
    TimestampsCons(s);
    FrameMissing(s[1..], t);
    var g := rest[t := [s[0]] + (if t in rest then rest[t] else [])];
    forall u | u in g ensures g[u] == Frame(s, u) && g[u] != [] {
      assert Frame(s, u) == (if t == u then [s[0]] else []) + Frame(s[1..], u);
    }
  }

  lemma TimestampsCons(s: seq<TextData>)
    requires s != []
    ensures Timestamps(s) == {s[0].timestamp} + Timestamps(s[1..])
  {
    forall u | u in Timestamps(s) && u != s[0].timestamp ensures u in Timestamps(s[1..]) {
      var d :| d in s && d.timestamp == u;
      assert d in s[1..];
    }
  }

  /** A moment at which no fragment was captured has an empty frame. */
  lemma FrameMissing(s: seq<TextData>, t: real)
    ensures t !in Timestamps(s) ==> Frame(s, t) == []
  {
    if t !in Timestamps(s) && Frame(s, t) != [] {
      FrameCount(s, t, Frame(s, t)[0]);
    }
  }

  lemma TimestampsAppend(a: seq<TextData>, b: seq<TextData>)
    ensures Timestamps(a + b) == Timestamps(a) + Timestamps(b)
  {
    forall u | u in Timestamps(a + b) ensures u in Timestamps(a) + Timestamps(b) {
      var d :| d in a + b && d.timestamp == u;
    }
  }

  /** The distinct timestamps of `s`, in ascending order. */
  function Chronology(s: seq<TextData>): (ts: seq<real>)
    ensures StrictlyIncreasing(ts)
    ensures forall t :: t in ts <==> t in Timestamps(s)
  {
    if s == [] then []
    else
      TimestampsCons(s);
      InsertSorted(Chronology(s[1..]), s[0].timestamp)
  }

  /** The chronology depends only on which fragments there are, not on their order. */
  lemma ChronologyOrderFree(a: seq<TextData>, b: seq<TextData>)
    requires multiset(a) == multiset(b)
    ensures Chronology(a) == Chronology(b)
  {
    forall t ensures t in Timestamps(a) <==> t in Timestamps(b) {
      if t in Timestamps(a) {
        var d :| d in a && d.timestamp == t;
        assert d in multiset(b);
      }
      if t in Timestamps(b) {
        var d :| d in b && d.timestamp == t;
        assert d in multiset(a);
      }
    }
    SortedUnique(Chronology(a), Chronology(b));
  }

  /** Every moment of `a` is earlier than every moment of `b`. */
  ghost predicate Precedes(a: seq<TextData>, b: seq<TextData>) {
    forall d, e :: d in a && e in b ==> d.timestamp < e.timestamp
  }

  /** A capture followed by a strictly later one: the chronology of the whole is the two chronologies in turn. */
  lemma ChronologySplit(a: seq<TextData>, b: seq<TextData>)
    requires Precedes(a, b)
    ensures Chronology(a + b) == Chronology(a) + Chronology(b)
  {
    var ka, kb := Chronology(a), Chronology(b);
    forall p, q | p in ka && q in kb ensures p < q {
      assert p in Timestamps(a) && q in Timestamps(b);
      var d :| d in a && d.timestamp == p;
      var e :| e in b && e.timestamp == q;
    }
    AppendIncreasing(ka, kb);
    TimestampsAppend(a, b);
    SortedUnique(Chronology(a + b), ka + kb);
  }

  /** In such a capture, each moment's frame lies wholly in the part it belongs to. */
  lemma FrameSplit(a: seq<TextData>, b: seq<TextData>, t: real)
    requires Precedes(a, b)
    ensures t in Timestamps(a) ==> Frame(a + b, t) == Frame(a, t)
    ensures t in Timestamps(b) ==> Frame(a + b, t) == Frame(b, t)
  {
    FrameAppend(a, b, t);
    FrameMissing(a, t);
    FrameMissing(b, t);
    assert Frame(a, t) + [] == Frame(a, t);
  }

  /**
    `p` is the moment before `t`: the nearest smaller distinct timestamp.
   */
  ghost predicate IsPrevious(s: seq<TextData>, p: real, t: real) {
    p in Timestamps(s) && p < t && forall q :: q in Timestamps(s) && q < t ==> q <= p
  }

  /** In the chronology, the moment before position `i` is at `i - 1`, and the first moment has none. */
  lemma PreviousInChronology(s: seq<TextData>, i: nat)
    requires i < |Chronology(s)|
    ensures i > 0 ==> IsPrevious(s, Chronology(s)[i - 1], Chronology(s)[i])
    ensures i == 0 ==> forall p :: !IsPrevious(s, p, Chronology(s)[i])
  {
    var ts := Chronology(s);
    forall q | q in Timestamps(s) && q < ts[i] ensures i > 0 && q <= ts[i - 1] {
      assert q in ts;
      var j :| 0 <= j < |ts| && ts[j] == q;
      assert j < i;
    }
  }

  /** There is at most one previous moment. */
  lemma PreviousUnique(s: seq<TextData>, p1: real, p2: real, t: real)
    requires IsPrevious(s, p1, t) && IsPrevious(s, p2, t)
    ensures p1 == p2
  {
  }

  datatype Option<T> = None | Some(value: T)

  /** The latest timestamp of `s` strictly before `t`, found in one pass over `s`. */
  function PreviousMoment(s: seq<TextData>, t: real): Option<real> {
    if s == [] then None
    else
      var rest := PreviousMoment(s[1..], t);
      var u := s[0].timestamp;
      if u < t && (rest.None? || rest.value < u) then Some(u) else rest
  }

  /** The pass finds the previous moment, and finds none exactly when every moment is at or after `t`. */
  lemma {:induction false} PreviousMomentSpec(s: seq<TextData>, t: real)
    ensures PreviousMoment(s, t).Some? ==> IsPrevious(s, PreviousMoment(s, t).value, t)
    ensures PreviousMoment(s, t).None? <==> forall q :: q in Timestamps(s) ==> t <= q
  {
    if s != [] {
      PreviousMomentSpec(s[1..], t);
      TimestampsCons(s);
    }
  }
}
