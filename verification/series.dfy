/**
 A numeric column of a pandas frame. NaN, which pandas uses for a value it
 cannot compute, is kept apart from the numbers.
 */
module Series {

  /** One cell of a numeric column: a number, or NaN (`None`). */
  datatype Opt = None | Some(value: real)

  /** The smallest value of a non-empty series. */
  function Lowest(s: seq<real>): (m: real)
    requires |s| > 0
    ensures forall i :: 0 <= i < |s| ==> m <= s[i]
    ensures exists i :: 0 <= i < |s| && s[i] == m
    decreases |s|
  {
    if |s| == 1 then s[0]
    else
      var m := Lowest(s[..|s| - 1]);
      assert forall i :: 0 <= i < |s| - 1 ==> s[..|s| - 1][i] == s[i];
      if s[|s| - 1] < m then s[|s| - 1] else m
  }

  /** The largest value of a non-empty series. */
  function Highest(s: seq<real>): (m: real)
    requires |s| > 0
    ensures forall i :: 0 <= i < |s| ==> s[i] <= m
    ensures exists i :: 0 <= i < |s| && s[i] == m
    decreases |s|
  {
    if |s| == 1 then s[0]
    else
      var m := Highest(s[..|s| - 1]);
      assert forall i :: 0 <= i < |s| - 1 ==> s[..|s| - 1][i] == s[i];
      if s[|s| - 1] > m then s[|s| - 1] else m
  }

  /** Every value of the series equals `c`. */
  predicate Constant(s: seq<real>, c: real) {
    forall i :: 0 <= i < |s| ==> s[i] == c
  }

  /** The series with `c` added to every value. */
  function Shift(s: seq<real>, c: real): (r: seq<real>)
    ensures |r| == |s|
    ensures forall i :: 0 <= i < |s| ==> r[i] - s[i] == c
  {
    seq(|s|, i requires 0 <= i < |s| => s[i] + c)
  }

  /** Pointwise difference of two series of equal length. */
  function Minus(a: seq<real>, b: seq<real>): (r: seq<real>)
    requires |a| == |b|
    ensures |r| == |a|
    ensures forall i :: 0 <= i < |a| ==> r[i] + b[i] == a[i]
  {
    seq(|a|, i requires 0 <= i < |a| => a[i] - b[i])
  }

  /** Every cell of the column holds a number. */
  predicate Defined(s: seq<Opt>) {
    forall i :: 0 <= i < |s| ==> s[i].Some?
  }

  /** The numbers of a column without NaN. */
  function Values(s: seq<Opt>): (r: seq<real>)
    requires Defined(s)
    ensures |r| == |s|
    ensures forall i :: 0 <= i < |s| ==> s[i] == Some(r[i])
  {
    seq(|s|, i requires 0 <= i < |s| => s[i].value)
  }
}
