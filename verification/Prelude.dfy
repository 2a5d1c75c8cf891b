/** Small definitions shared by the models. */
module Prelude {

  datatype Option<T> = None | Some(value: T)

  ghost predicate NoDup<T>(s: seq<T>) {
    forall i, j :: 0 <= i < j < |s| ==> s[i] != s[j]
  }

  /** `a` stands somewhere before `b`. */
  ghost predicate Before<T(!new)>(s: seq<T>, a: T, b: T) {
    exists i, j :: 0 <= i < j < |s| && s[i] == a && s[j] == b
  }

  /** `x` occurs in `s` before any `y` does. */
  ghost predicate SeenBefore<T(!new)>(s: seq<T>, x: T, y: T) {
    exists p :: 0 <= p < |s| && s[p] == x && forall q :: 0 <= q <= p ==> s[q] != y
  }

  lemma SeenBeforeMore<T(!new)>(s: seq<T>, last: T, x: T, y: T)
    requires SeenBefore(s, x, y)
    ensures SeenBefore(s + [last], x, y)
  {
    var p :| 0 <= p < |s| && s[p] == x && forall q :: 0 <= q <= p ==> s[q] != y;
    assert (s + [last])[p] == x && forall q :: 0 <= q <= p ==> (s + [last])[q] == s[q];
  }

  lemma SeenBeforeNew<T(!new)>(s: seq<T>, x: T, y: T)
    requires x in s && y !in s
    ensures SeenBefore(s + [y], x, y)
  {
    var p :| 0 <= p < |s| && s[p] == x;
    assert (s + [y])[p] == x && forall q :: 0 <= q <= p ==> (s + [y])[q] == s[q];
  }

  /** The entries of `out` stand in the order in which `s` first mentions them. */
  ghost predicate FirstSeenOrder<T(!new)>(out: seq<T>, s: seq<T>) {
    forall i, j :: 0 <= i < j < |out| ==> SeenBefore(s, out[i], out[j])
  }

  lemma FirstSeenMore<T(!new)>(out: seq<T>, s: seq<T>, last: T)
    requires FirstSeenOrder(out, s)
    ensures FirstSeenOrder(out, s + [last])
  {
    forall i, j | 0 <= i < j < |out| ensures SeenBefore(s + [last], out[i], out[j]) {
      SeenBeforeMore(s, last, out[i], out[j]);
    }
  }

  lemma FirstSeenNew<T(!new)>(out: seq<T>, s: seq<T>, last: T)
    requires FirstSeenOrder(out, s) && last !in s && forall x :: x in out ==> x in s
    ensures FirstSeenOrder(out + [last], s + [last])
  {
    var longer := out + [last];
    assert forall i :: 0 <= i < |out| ==> longer[i] == out[i];
    forall i, j | 0 <= i < j < |longer| ensures SeenBefore(s + [last], longer[i], longer[j]) {
      assert longer[i] in out;
      if j < |out| {
        SeenBeforeMore(s, last, out[i], out[j]);
      } else {
        SeenBeforeNew(s, out[i], last);
      }
    }
  }

  ghost predicate Increasing(s: seq<real>) {
    forall i, j :: 0 <= i <= j < |s| ==> s[i] <= s[j]
  }

  lemma ConcatAssoc<T>(a: seq<T>, b: seq<T>, c: seq<T>)
    ensures (a + b) + c == a + (b + c)
  {
  }

  function Ceil(x: real): int { -((-x).Floor) }

  /** What is asked of a rounding function. */
  ghost predicate Monotone(round: real -> real) {
    forall x, y :: x <= y ==> round(x) <= round(y)
  }

  lemma MulNonNegative(a: real, b: real)
    requires a >= 0.0 && b >= 0.0
    ensures a * b >= 0.0
  {
  }
}
