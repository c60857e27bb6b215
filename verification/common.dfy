/** Small building blocks shared by every module: an optional value, a
    JavaScript number (which may be NaN) and the rounding functions the
    dashboard relies on (`Math.round`, truncation toward zero). */
module Common {

  /** A value that may be absent (`undefined` in the dashboard's JavaScript). */
  datatype Option<T> = None | Some(value: T) {

    /** The value, or `default` when absent. */
    function GetOr(default: T): T {
      if Some? then value else default
    }
  }

  /** A JavaScript number as far as the model needs it: NaN or a finite value.
      Infinities never arise from the inputs the model admits. */
  datatype Num = NaN | Fin(v: real) {

    /** JavaScript truthiness of a number: NaN and 0 are falsy. */
    predicate Truthy() {
      Fin? && v != 0.0
    }

    /** The expression `x || d` for a number `x`. */
    function Or(d: real): (r: real)
      ensures Truthy() ==> r == v
      ensures !Truthy() ==> r == d
    {
      if Truthy() then v else d
    }
  }

  /** `a + b`; NaN is absorbing. */
  function Add(a: Num, b: Num): (r: Num)
    ensures r.Fin? <==> a.Fin? && b.Fin?
  {
    if a.Fin? && b.Fin? then Fin(a.v + b.v) else NaN
  }

  /** `a * k` for a finite constant `k`. */
  function Scale(a: Num, k: real): (r: Num)
    ensures r.Fin? <==> a.Fin?
  {
    if a.Fin? then Fin(a.v * k) else NaN
  }

  /** `a < b`; every comparison with NaN is false. */
  predicate Less(a: Num, b: Num) {
    a.Fin? && b.Fin? && a.v < b.v
  }

  /** `a <= b`; every comparison with NaN is false. */
  predicate AtMost(a: Num, b: Num) {
    a.Fin? && b.Fin? && a.v <= b.v
  }

  /** `Math.round`: the nearest integer, halves rounded toward +infinity. */
  function Round(x: real): (r: int)
    ensures x - 0.5 < r as real <= x + 0.5
  {
    (x + 0.5).Floor
  }

  /** `Math.max(0, x)` followed by `Math.round`, as the trial loop does. */
  function ClampRound(x: real): (r: nat)
    ensures x <= 0.0 ==> r == 0
    ensures x >= 0.0 ==> r == Round(x)
  {
    Round(if x < 0.0 then 0.0 else x)
  }

  /** Truncation toward zero (ECMAScript ToIntegerOrInfinity on a finite value). */
  function Trunc(x: real): (r: int)
    ensures x >= 0.0 ==> r as real <= x < r as real + 1.0
    ensures x <= 0.0 ==> r as real - 1.0 < x <= r as real
  {
    if x >= 0.0 then x.Floor else -((-x).Floor)
  }

  /** `s.filter(f)`: the elements satisfying `f`, in their original order. */
  function Keep<T>(s: seq<T>, f: T -> bool): (r: seq<T>)
    ensures |r| <= |s|
    ensures forall i :: 0 <= i < |r| ==> r[i] in s && f(r[i])
    ensures forall i :: 0 <= i < |s| && f(s[i]) ==> s[i] in r
    decreases |s|
  {
    if |s| == 0 then [] else (if f(s[0]) then [s[0]] else []) + Keep(s[1..], f)
  }

  /** Filtering distributes over concatenation, so it keeps the relative order
      of the elements it retains. */
  lemma {:induction false} KeepAppend<T>(a: seq<T>, b: seq<T>, f: T -> bool)
    ensures Keep(a + b, f) == Keep(a, f) + Keep(b, f)
    decreases |a|
  {
    if |a| > 0 {
      assert (a + b)[1..] == a[1..] + b;
      KeepAppend(a[1..], b, f);
    } else {
      assert a + b == b;
    }
  }

  /** Filtering twice by the same test is filtering once. */
  lemma {:induction false} KeepIdempotent<T>(s: seq<T>, f: T -> bool)
    ensures Keep(Keep(s, f), f) == Keep(s, f)
    decreases |s|
  {
    if |s| > 0 {
      KeepIdempotent(s[1..], f);
      var head := if f(s[0]) then [s[0]] else [];
      KeepAppend(head, Keep(s[1..], f), f);
      if f(s[0]) {
        assert Keep(head, f) == head by {
          assert head[1..] == [];
        }
      }
    }
  }

  /** A test every element passes removes nothing. */
  lemma {:induction false} KeepAll<T>(s: seq<T>, f: T -> bool)
    requires forall i :: 0 <= i < |s| ==> f(s[i])
    ensures Keep(s, f) == s
    decreases |s|
  {
    if |s| > 0 {
      KeepAll(s[1..], f);
    }
  }

  /** Nothing passes, nothing is kept. */
  lemma {:induction false} KeepNone<T>(s: seq<T>, f: T -> bool)
    requires forall i :: 0 <= i < |s| ==> !f(s[i])
    ensures Keep(s, f) == []
    decreases |s|
  {
    if |s| > 0 {
      KeepNone(s[1..], f);
    }
  }

  /** Two tests that agree on every element keep the same elements. */
  lemma {:induction false} KeepAgree<T>(s: seq<T>, f: T -> bool, g: T -> bool)
    requires forall i :: 0 <= i < |s| ==> f(s[i]) == g(s[i])
    ensures Keep(s, f) == Keep(s, g)
    decreases |s|
  {
    if |s| > 0 {
      KeepAgree(s[1..], f, g);
    }
  }

  /** Two filters in a row keep what passes both. */
  lemma {:induction false} KeepKeep<T>(s: seq<T>, f: T -> bool, g: T -> bool)
    ensures Keep(Keep(s, f), g) == Keep(s, x => f(x) && g(x))
    decreases |s|
  {
    if |s| > 0 {
      KeepKeep(s[1..], f, g);
      var head := if f(s[0]) then [s[0]] else [];
      KeepAppend(head, Keep(s[1..], f), g);
      if f(s[0]) {
        assert head[1..] == [];
      }
    }
  }
}
