/** Folds over sequences of readings, in the order Python's builtins use. */
module Numbers {

  /** `sum(s)`: added left to right, starting from 0. */
  function Sum(s: seq<real>): real
  {
    if s == [] then 0.0 else Sum(s[..|s| - 1]) + s[|s| - 1]
  }

  lemma {:induction false} SumAppend(s: seq<real>, t: seq<real>)
    ensures Sum(s + t) == Sum(s) + Sum(t)
    decreases |t|
  {
    if t == [] {
      assert s + t == s;
    } else {
      assert (s + t)[..|s + t| - 1] == s + t[..|t| - 1];
      SumAppend(s, t[..|t| - 1]);
    }
  }

  /** Every element multiplied by c. */
  function Scale(s: seq<real>, c: real): (r: seq<real>)
    ensures |r| == |s| && forall k :: 0 <= k < |s| ==> r[k] == c * s[k]
  {
    seq(|s|, k requires 0 <= k < |s| => c * s[k])
  }

  /** `min(s)`: the running minimum, replaced only by a strictly smaller element. */
  function Minimum(s: seq<real>): real
    requires |s| > 0
  {
    if |s| == 1 then s[0]
    else
      var m := Minimum(s[..|s| - 1]);
      if s[|s| - 1] < m then s[|s| - 1] else m
  }

  /** `min()` is an element of the sequence and no element is smaller. */
  lemma {:induction false} MinimumSpec(s: seq<real>)
    requires |s| > 0
    ensures forall k :: 0 <= k < |s| ==> Minimum(s) <= s[k]
    ensures exists k :: 0 <= k < |s| && s[k] == Minimum(s)
  {
    if |s| > 1 {
      var init := s[..|s| - 1];
      MinimumSpec(init);
      assert forall k :: 0 <= k < |init| ==> init[k] == s[k];
      var w :| 0 <= w < |init| && init[w] == Minimum(init);
      if s[|s| - 1] >= Minimum(init) {
        assert s[w] == Minimum(s);
      } else {
        assert s[|s| - 1] == Minimum(s);
      }
    } else {
      assert s[0] == Minimum(s);
    }
  }

  /** `max(s)`: the running maximum, replaced only by a strictly larger element. */
  function Maximum(s: seq<real>): real
    requires |s| > 0
  {
    if |s| == 1 then s[0]
    else
      var m := Maximum(s[..|s| - 1]);
      if s[|s| - 1] > m then s[|s| - 1] else m
  }

  /** `max()` is an element of the sequence and no element is larger. */
  lemma {:induction false} MaximumSpec(s: seq<real>)
    requires |s| > 0
    ensures forall k :: 0 <= k < |s| ==> s[k] <= Maximum(s)
    ensures exists k :: 0 <= k < |s| && s[k] == Maximum(s)
  {
    if |s| > 1 {
      var init := s[..|s| - 1];
      MaximumSpec(init);
      assert forall k :: 0 <= k < |init| ==> init[k] == s[k];
      var w :| 0 <= w < |init| && init[w] == Maximum(init);
      if s[|s| - 1] <= Maximum(init) {
        assert s[w] == Maximum(s);
      } else {
        assert s[|s| - 1] == Maximum(s);
      }
    } else {
      assert s[0] == Maximum(s);
    }
  }
}
