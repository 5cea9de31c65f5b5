// The keyframe track of crates/kael/src/animation.rs, over exact times and values.
module KeyframeTracks {
  import opened Arithmetic

  datatype Interpolation = Hold | Eased(ease: real -> real)

  datatype Keyframe = Keyframe(time: real, value: real, interpolation: Interpolation)

  ghost predicate Sorted(keys: seq<Keyframe>) {
    forall i, j :: 0 <= i < j < |keys| ==> keys[i].time <= keys[j].time
  }

  /** How many leading keys are not later than `time`; for a sorted track, what `partition_point` finds. */
  function CountUpTo(keys: seq<Keyframe>, time: real): (n: nat)
    ensures n <= |keys|
    ensures forall i :: 0 <= i < n ==> keys[i].time <= time
    ensures n < |keys| ==> keys[n].time > time
  {
    if keys == [] || keys[0].time > time then 0 else 1 + CountUpTo(keys[1..], time)
  }

  lemma {:induction false} CountIsTheBoundary(keys: seq<Keyframe>, time: real, n: nat)
    requires n <= |keys|
    requires forall i :: 0 <= i < n ==> keys[i].time <= time
    requires forall i :: n <= i < |keys| ==> keys[i].time > time
    ensures CountUpTo(keys, time) == n
  {
    if n > 0 {
      CountIsTheBoundary(keys[1..], time, n - 1);
    }
  }

  /** `partition_point` by halving. */
  method PartitionPoint(keys: seq<Keyframe>, time: real) returns (n: nat)
    requires Sorted(keys)
    ensures n == CountUpTo(keys, time)
  {
    n := 0;
    var high := |keys|;
    while n < high
      invariant 0 <= n <= high <= |keys|
      invariant forall i :: 0 <= i < n ==> keys[i].time <= time
      invariant forall i :: high <= i < |keys| ==> keys[i].time > time
    {
      var middle := (n + high) / 2;
      if keys[middle].time <= time {
        n := middle + 1;
      } else {
        high := middle;
      }
    }
    CountIsTheBoundary(keys, time, n);
  }

  // ----- Inserting -----

  function Inserted(keys: seq<Keyframe>, key: Keyframe): seq<Keyframe> {
    var n := CountUpTo(keys, key.time);
    keys[..n] + [key] + keys[n..]
  }

  /** The track after a sequence of insertions. */
  ghost function Track(inserts: seq<Keyframe>): seq<Keyframe> {
    if inserts == [] then [] else Inserted(Track(inserts[..|inserts| - 1]), inserts[|inserts| - 1])
  }

  /** The keys at one time, in order. */
  ghost function AtTime(keys: seq<Keyframe>, time: real): seq<Keyframe> {
    if keys == [] then []
    else AtTime(keys[..|keys| - 1], time) + if keys[|keys| - 1].time == time then [keys[|keys| - 1]] else []
  }

  lemma {:induction false} AtTimeOfConcat(a: seq<Keyframe>, b: seq<Keyframe>, time: real)
    ensures AtTime(a + b, time) == AtTime(a, time) + AtTime(b, time)
  {
    if b == [] {
      assert a + b == a;
    } else {
      assert (a + b)[..|a + b| - 1] == a + b[..|b| - 1];
      AtTimeOfConcat(a, b[..|b| - 1], time);
    }
  }

  lemma {:induction false} NoneAtTime(keys: seq<Keyframe>, time: real)
    requires forall i :: 0 <= i < |keys| ==> keys[i].time != time
    ensures AtTime(keys, time) == []
  {
    if keys != [] {
      NoneAtTime(keys[..|keys| - 1], time);
    }
  }

  lemma InsertKeepsSorted(keys: seq<Keyframe>, key: Keyframe)
    requires Sorted(keys)
    ensures Sorted(Inserted(keys, key))
  {
    var n, result := CountUpTo(keys, key.time), Inserted(keys, key);
    assert forall i :: n <= i < |keys| ==> keys[n].time <= keys[i].time;
    assert forall i :: 0 <= i < |result| ==>
             result[i] == if i < n then keys[i] else if i == n then key else keys[i - 1];
  }

  lemma SplitMultiset(keys: seq<Keyframe>, n: nat)
    requires n <= |keys|
    ensures multiset(keys) == multiset(keys[..n]) + multiset(keys[n..])
  {
    assert keys == keys[..n] + keys[n..];
  }

  lemma InsertKeepsKeys(keys: seq<Keyframe>, key: Keyframe)
    ensures multiset(Inserted(keys, key)) == multiset(keys) + multiset{key}
  {
    SplitMultiset(keys, CountUpTo(keys, key.time));
  }

  lemma AtTimeOfSplice(before: seq<Keyframe>, key: Keyframe, after: seq<Keyframe>, time: real)
    requires key.time == time ==> AtTime(after, time) == []
    ensures AtTime(before + [key] + after, time)
         == AtTime(before + after, time) + if key.time == time then [key] else []
  {
    AtTimeOfConcat(before, after, time);
    AtTimeOfConcat(before + [key], after, time);
    AtTimeOfConcat(before, [key], time);
  }

  /** A new key comes after the older keys at its time and before nothing else of that time. */
  lemma InsertIsStable(keys: seq<Keyframe>, key: Keyframe, time: real)
    requires Sorted(keys)
    ensures AtTime(Inserted(keys, key), time) == AtTime(keys, time) + if key.time == time then [key] else []
  {
    var n := CountUpTo(keys, key.time);
    assert keys == keys[..n] + keys[n..];
    if key.time == time {
      NoneAtTime(keys[n..], time);
    }
    AtTimeOfSplice(keys[..n], key, keys[n..], time);
  }

  /** Any sequence of insertions is sorted stably: nothing is lost, times ascend, and keys at the same time
      stay in the order in which they were inserted. */
  lemma {:induction false} TrackIsStableSort(inserts: seq<Keyframe>)
    ensures Sorted(Track(inserts))
    ensures multiset(Track(inserts)) == multiset(inserts)
    ensures forall time :: AtTime(Track(inserts), time) == AtTime(inserts, time)
  {
    if inserts != [] {
      var init, last := inserts[..|inserts| - 1], inserts[|inserts| - 1];
      assert inserts == init + [last];
      TrackIsStableSort(init);
      InsertKeepsSorted(Track(init), last);
      InsertKeepsKeys(Track(init), last);
      forall time ensures AtTime(Track(inserts), time) == AtTime(inserts, time) {
        InsertIsStable(Track(init), last, time);
      }
    }
  }

  // ----- Sampling -----

  /** The position of the last key not later than `time`, by a scan from the start. */
  ghost function LastUpTo(keys: seq<Keyframe>, time: real): (i: nat)
    requires keys != [] && keys[0].time <= time
    ensures i < |keys| && keys[i].time <= time && (i + 1 < |keys| ==> time < keys[i + 1].time)
  {
    if |keys| == 1 || time < keys[1].time then 0 else 1 + LastUpTo(keys[1..], time)
  }

  /** The value between a key and its successor. */
  function Segment(k0: Keyframe, k1: Keyframe, time: real): real {
    match k0.interpolation
    case Hold => k0.value
    case Eased(ease) =>
      var span := k1.time - k0.time;
      var t := if span <= EPSILON then 0.0 else Clamp01((time - k0.time) / span);
      k0.value + (k1.value - k0.value) * ease(t)
  }

  ghost function Sampled(keys: seq<Keyframe>, time: real, default: real): real {
    if keys == [] then default
    else if time <= keys[0].time then keys[0].value
    else
      var i := LastUpTo(keys, time);
      if i + 1 == |keys| then keys[i].value else Segment(keys[i], keys[i + 1], time)
  }

  lemma {:induction false} ScanMeetsPartition(keys: seq<Keyframe>, time: real)
    requires Sorted(keys) && keys != [] && keys[0].time <= time
    ensures LastUpTo(keys, time) == CountUpTo(keys, time) - 1
  {
    if |keys| > 1 && keys[1].time <= time {
      ScanMeetsPartition(keys[1..], time);
    }
  }

  /** How far `time` is from one key to the next, as a share of the span; 0 if the span is too short to divide by. */
  ghost predicate IsShare(share: real, k0: Keyframe, k1: Keyframe, time: real) {
    if k1.time - k0.time <= EPSILON then share == 0.0
    else 0.0 <= share <= 1.0 && Times(share, k1.time - k0.time) == time - k0.time
  }

  /** Between two keys the value of the first holds, or moves to that of the second as its easing says. */
  ghost predicate IsBetweenKeys(value: real, k0: Keyframe, k1: Keyframe, time: real) {
    match k0.interpolation
    case Hold => value == k0.value
    case Eased(ease) =>
      exists share :: IsShare(share, k0, k1, time) && value == k0.value + Times(k1.value - k0.value, ease(share))
  }

  /** What a track should be at a time: the default if it has no keys, the first and last value outside its range, and
      otherwise what the two keys around the time make of it. */
  ghost predicate IsSample(value: real, keys: seq<Keyframe>, time: real, default: real) {
    if keys == [] then value == default
    else if time <= keys[0].time then value == keys[0].value
    else
      && (keys[|keys| - 1].time <= time ==> value == keys[|keys| - 1].value)
      && forall i, j :: 0 <= i < j < |keys| && j == i + 1 && keys[i].time <= time < keys[j].time ==>
           IsBetweenKeys(value, keys[i], keys[j], time)
  }

  lemma SegmentIsBetweenKeys(k0: Keyframe, k1: Keyframe, time: real)
    requires k0.time <= time < k1.time
    ensures IsBetweenKeys(Segment(k0, k1, time), k0, k1, time)
  {
    if k0.interpolation.Eased? {
      var span := k1.time - k0.time;
      var t := (time - k0.time) / span;
      QuotientIsProper(time - k0.time, span, t);
      assert IsShare(if span <= EPSILON then 0.0 else t, k0, k1, time);
    }
  }

  lemma SampledIsSample(keys: seq<Keyframe>, time: real, default: real)
    requires Sorted(keys)
    ensures IsSample(Sampled(keys, time, default), keys, time, default)
  {
    hide Segment, IsBetweenKeys;
    if keys != [] && keys[0].time < time {
      forall i | 0 <= i < |keys| && keys[i].time <= time && (i + 1 < |keys| ==> time < keys[i + 1].time)
        ensures LastUpTo(keys, time) == i
      {
        assert forall j :: i < j < |keys| ==> keys[i + 1].time <= keys[j].time;
        CountIsTheBoundary(keys, time, i + 1);
        ScanMeetsPartition(keys, time);
      }
      forall i, j | 0 <= i < j < |keys| && j == i + 1 && keys[i].time <= time < keys[j].time
        ensures IsBetweenKeys(Sampled(keys, time, default), keys[i], keys[j], time)
      {
        SegmentIsBetweenKeys(keys[i], keys[j], time);
      }
    }
  }

  class KeyframeTrack {
    var keys: seq<Keyframe>
    ghost var inserts: seq<Keyframe>  // everything inserted so far, in order

    ghost predicate Valid()
      reads this
    {
      keys == Track(inserts)
    }

    constructor ()
      ensures Valid() && inserts == []
    {
      keys, inserts := [], [];
    }

    method Insert(key: Keyframe)
      requires Valid()
      modifies this
      ensures Valid() && inserts == old(inserts) + [key] && Sorted(keys)
    {
      TrackIsStableSort(inserts);
      var index := PartitionPoint(keys, key.time);
      keys := keys[..index] + [key] + keys[index..];
      inserts := inserts + [key];
      assert inserts[..|inserts| - 1] == old(inserts);
      TrackIsStableSort(inserts);
    }

    /** `sample`: the binary search picks the segment that a scan would pick. */
    method Sample(time: real, default: real) returns (value: real)
      requires Valid()
      ensures value == Sampled(keys, time, default) && IsSample(value, keys, time, default)
    {
      hide IsSample, Segment;
      TrackIsStableSort(inserts);
      SampledIsSample(keys, time, default);
      if keys == [] {
        return default;
      }
      if time <= keys[0].time {
        return keys[0].value;
      }
      ScanMeetsPartition(keys, time);
      var last := keys[|keys| - 1];
      if time >= last.time {
        assert LastUpTo(keys, time) == |keys| - 1;
        return last.value;
      }
      var upper := PartitionPoint(keys, time);
      value := Segment(keys[upper - 1], keys[upper], time);
    }
  }

  // ----- What sampling gives -----

  ghost predicate Between(x: real, a: real, b: real) {
    (a <= x <= b) || (b <= x <= a)
  }

  /** An easing that stays in [0, 1] keeps the sample between the two keys around it. */
  lemma SegmentIsBetween(k0: Keyframe, k1: Keyframe, time: real)
    requires k0.interpolation.Eased? ==> forall t :: 0.0 <= t <= 1.0 ==> 0.0 <= k0.interpolation.ease(t) <= 1.0
    ensures Between(Segment(k0, k1, time), k0.value, k1.value)
  {
    if k0.interpolation.Eased? {
      var span := k1.time - k0.time;
      var t := if span <= EPSILON then 0.0 else Clamp01((time - k0.time) / span);
      var p, rise := k0.interpolation.ease(t), k1.value - k0.value;
      assert 0.0 <= t <= 1.0;
      if rise >= 0.0 {
        TimesBelow(p, rise);
      } else {
        TimesBelow(p, -rise);
        assert Times(p, -rise) == -Times(p, rise);
      }
      assert Segment(k0, k1, time) == k0.value + Times(p, rise);
    }
  }

  /** Every sample of a nonempty track lies between the values of two neighbouring keys (or is the value of
      an end key): the last key not later than the time, and its successor. */
  lemma SampleIsBracketed(keys: seq<Keyframe>, time: real, default: real)
    requires Sorted(keys) && keys != [] && keys[0].time < time
    requires forall i :: 0 <= i < |keys| ==> keys[i].interpolation.Eased? ==>
               forall t :: 0.0 <= t <= 1.0 ==> 0.0 <= keys[i].interpolation.ease(t) <= 1.0
    ensures var i := LastUpTo(keys, time); var j := if i + 1 < |keys| then i + 1 else i;
            Between(Sampled(keys, time, default), keys[i].value, keys[j].value)
  {
    var i := LastUpTo(keys, time);
    if i + 1 < |keys| {
      SegmentIsBetween(keys[i], keys[i + 1], time);
    }
  }

  /** With the identity easing, a segment longer than the epsilon is the chord between its two keys. */
  lemma LinearSegmentIsTheChord(k0: Keyframe, k1: Keyframe, time: real)
    requires k0.interpolation.Eased? && forall t :: 0.0 <= t <= 1.0 ==> k0.interpolation.ease(t) == t
    requires k0.time <= time <= k1.time && k1.time - k0.time > EPSILON
    ensures (Segment(k0, k1, time) - k0.value) * (k1.time - k0.time) == (k1.value - k0.value) * (time - k0.time)
  {
    var span, t := k1.time - k0.time, (time - k0.time) / (k1.time - k0.time);
    QuotientIsProper(time - k0.time, span, t);
    assert k0.interpolation.ease(t) == t;
    var rise := k1.value - k0.value;
    assert (rise * t) * span == rise * (t * span);
  }

  lemma QuotientIsProper(part: real, whole: real, t: real)
    requires 0.0 <= part <= whole && whole > 0.0 && t == part / whole
    ensures 0.0 <= t <= 1.0 && t * whole == part
  {
    if t > 1.0 {
      TimesIsPositive(t - 1.0, whole);
    } else if t < 0.0 {
      TimesIsPositive(-t, whole);
    }
  }

  /** At the time of a key that is the last of its time, the scan stops at that key. */
  lemma LastAtItsTime(keys: seq<Keyframe>, i: nat)
    requires Sorted(keys) && i < |keys|
    requires i + 1 < |keys| ==> keys[i].time < keys[i + 1].time
    ensures LastUpTo(keys, keys[i].time) == i
  {
    assert forall j :: i < j < |keys| ==> keys[i + 1].time <= keys[j].time;
    CountIsTheBoundary(keys, keys[i].time, i + 1);
    ScanMeetsPartition(keys, keys[i].time);
  }

  lemma SegmentStartsAtKey(k0: Keyframe, k1: Keyframe)
    requires k0.interpolation.Eased? ==> k0.interpolation.ease(0.0) == 0.0
    ensures Segment(k0, k1, k0.time) == k0.value
  {
    if k0.interpolation.Eased? && k1.time - k0.time > EPSILON {
      assert (k0.time - k0.time) / (k1.time - k0.time) == 0.0;
    }
  }

  /** Sampling passes through the keys: at the time of a key that is the last of its time and not tied with the
      first key, the sample is the key's value, for every easing that starts at 0. */
  lemma SamplePassesThroughKeys(keys: seq<Keyframe>, i: nat, default: real)
    requires Sorted(keys) && i < |keys|
    requires i == 0 || keys[0].time < keys[i].time
    requires i + 1 < |keys| ==> keys[i].time < keys[i + 1].time
    requires keys[i].interpolation.Eased? ==> keys[i].interpolation.ease(0.0) == 0.0
    ensures Sampled(keys, keys[i].time, default) == keys[i].value
  {
    hide LastUpTo, Segment;
    if i > 0 {
      LastAtItsTime(keys, i);
      if i + 1 < |keys| {
        SegmentStartsAtKey(keys[i], keys[i + 1]);
      }
    }
  }

  /** A track of steps takes, at every time from its first key on, the value of the last key not later -
      exactly unless several keys share the first time: there, the first of them wins and not the last. */
  lemma StepsExactly(keys: seq<Keyframe>, time: real, default: real)
    requires Sorted(keys) && keys != [] && keys[0].time <= time
    requires forall i :: 0 <= i < |keys| ==> keys[i].interpolation == Hold
    ensures var last := keys[LastUpTo(keys, time)];
            Sampled(keys, time, default) == last.value <==> (keys[0].time < time || keys[0].value == last.value)
  {
    var i := LastUpTo(keys, time);
    if i + 1 < |keys| {
      assert keys[i].interpolation == Hold;
    }
  }
}
