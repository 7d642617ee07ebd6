// The six-sample windows behind the torque limits (board/safety.h).
module Samples {
  const MAX_SAMPLE_VALS := 6

  ghost predicate IsMin(m: int, s: seq<int>) {
    m in s && forall x :: x in s ==> m <= x
  }

  ghost predicate IsMax(m: int, s: seq<int>) {
    m in s && forall x :: x in s ==> x <= m
  }

  // The window after seeing history, newest sample first, zeros before the first sample.
  function Window(history: seq<int>): (w: seq<int>)
    ensures |w| == MAX_SAMPLE_VALS
  {
    seq(MAX_SAMPLE_VALS, k requires 0 <= k => if k < |history| then history[|history| - 1 - k] else 0)
  }

  lemma WindowAppend(history: seq<int>, x: int)
    ensures Window(history + [x]) == [x] + Window(history)[..MAX_SAMPLE_VALS - 1]
  {
  }

  class Sample {
    const values: array<int>
    var min: int
    var max: int
    ghost var history: seq<int>

    ghost predicate Valid()
      reads this, values
    {
      values.Length == MAX_SAMPLE_VALS && values[..] == Window(history)
    }

    // set_safety_hooks resets every window by clearing it and adding a zero sample.
    constructor ()
      ensures Valid() && fresh(values) && history == [] && min == max == 0
    {
      values := new int[MAX_SAMPLE_VALS](_ => 0);
      min, max := 0, 0;
      history := [];
    }

    method Reset()
      requires Valid()
      modifies this, values
      ensures Valid() && history == [] && min == max == 0
    {
      var i := 0;
      while i < values.Length
        invariant 0 <= i <= values.Length == MAX_SAMPLE_VALS
        invariant forall k :: 0 <= k < i ==> values[k] == 0
      {
        values[i] := 0;
        i := i + 1;
      }
      history := [];
      Update(0);
      assert 0 in values[..] && forall k :: 0 <= k < values.Length ==> values[k] == 0;
      assert forall x :: x in values[..] ==> x == 0;
      history := [];
    }

    // Shift in a sample; min and max are the true extremes of the last six samples.
    method Update(sampleNew: int)
      requires Valid()
      modifies this, values
      ensures Valid() && history == old(history) + [sampleNew]
      ensures IsMin(min, values[..]) && IsMax(max, values[..])
    {
      ghost var before := values[..];
      var i := MAX_SAMPLE_VALS - 1;
      while i > 0
        modifies values
        invariant 0 <= i < values.Length == MAX_SAMPLE_VALS
        invariant forall k :: 0 <= k <= i ==> values[k] == before[k]
        invariant forall k :: i < k < MAX_SAMPLE_VALS ==> values[k] == before[k - 1]
      {
        values[i] := values[i - 1];
        i := i - 1;
      }
      values[0] := sampleNew;
      history := history + [sampleNew];
      WindowAppend(old(history), sampleNew);
      assert values[..] == [sampleNew] + before[..MAX_SAMPLE_VALS - 1];

      FindExtremes();
    }

    // The extremes are searched anew after every sample.
    method FindExtremes()
      requires values.Length == MAX_SAMPLE_VALS
      modifies this`min, this`max
      ensures IsMin(min, values[..]) && IsMax(max, values[..])
    {
      min, max := values[0], values[0];
      var i := 1;
      while i < MAX_SAMPLE_VALS
        invariant 1 <= i <= MAX_SAMPLE_VALS == values.Length
        invariant IsMin(min, values[..i]) && IsMax(max, values[..i])
      {
        assert values[..i + 1] == values[..i] + [values[i]];
        if values[i] < min {
          min := values[i];
        }
        if values[i] > max {
          max := values[i];
        }
        i := i + 1;
      }
      assert values[..i] == values[..];
    }
  }

  // The window holds exactly the last six samples once six have been seen.
  lemma WindowIsLastSix(history: seq<int>, m: int)
    requires |history| >= 6
    ensures IsMin(m, Window(history)) <==> IsMin(m, history[|history| - 6..])
    ensures IsMax(m, Window(history)) <==> IsMax(m, history[|history| - 6..])
  {
    var w, t := Window(history), history[|history| - 6..];
    forall x ensures x in w <==> x in t {
      if x in w {
        var k :| 0 <= k < |w| && w[k] == x;
        assert t[|t| - 1 - k] == x;
      }
      if x in t {
        var k :| 0 <= k < |t| && t[k] == x;
        assert w[|w| - 1 - k] == x;
      }
    }
  }
}
