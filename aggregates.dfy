/**
 * The SQL aggregates the ghost detector applies to a group of rows:
 * MIN and MAX over integers, and MAX over text.
 *
 * Text is ordered lexicographically by character code, which is what
 * PostgreSQL's "C" collation does.
 */
module Aggregates {

  /** The largest element of a non-empty sequence: SQL `MAX` over an integer column. */
  function MaxOf(xs: seq<int>): (r: int)
    requires |xs| > 0
    ensures r in xs
    ensures forall x :: x in xs ==> x <= r
  {
    if |xs| == 1 then xs[0]
    else
      var m := MaxOf(xs[1..]);
      assert forall x :: x in xs ==> x == xs[0] || x in xs[1..];
      if xs[0] < m then m else xs[0]
  }

  /** The smallest element of a non-empty sequence: SQL `MIN` over an integer column. */
  function MinOf(xs: seq<int>): (r: int)
    requires |xs| > 0
    ensures r in xs
    ensures forall x :: x in xs ==> r <= x
  {
    if |xs| == 1 then xs[0]
    else
      var m := MinOf(xs[1..]);
      assert forall x :: x in xs ==> x == xs[0] || x in xs[1..];
      if m < xs[0] then m else xs[0]
  }

  /** `a` sorts no later than `b` under character-code lexicographic order. */
  predicate LexLe(a: string, b: string)
  {
    if a == [] then true
    else if b == [] then false
    else if a[0] != b[0] then a[0] < b[0]
    else LexLe(a[1..], b[1..])
  }

  lemma {:induction false} LexLeTotal(a: string, b: string)
    ensures LexLe(a, b) || LexLe(b, a)
  {
    if a != [] && b != [] && a[0] == b[0] {
      LexLeTotal(a[1..], b[1..]);
    }
  }

  lemma {:induction false} LexLeTransitive(a: string, b: string, c: string)
    requires LexLe(a, b) && LexLe(b, c)
    ensures LexLe(a, c)
  {
    if a != [] && b != [] && c != [] && a[0] == b[0] && b[0] == c[0] {
      LexLeTransitive(a[1..], b[1..], c[1..]);
    }
  }

  /** The greatest string of a non-empty sequence: SQL `MAX` over a text column. */
  function MaxText(xs: seq<string>): (r: string)
    requires |xs| > 0
    ensures r in xs
    ensures forall x :: x in xs ==> LexLe(x, r)
  {
    if |xs| == 1 then
      assert LexLe(xs[0], xs[0]) by { LexLeTotal(xs[0], xs[0]); }
      xs[0]
    else
      var m := MaxText(xs[1..]);
      assert forall x :: x in xs ==> x == xs[0] || x in xs[1..];
      if LexLe(m, xs[0]) then
        assert forall x :: x in xs[1..] ==> LexLe(x, xs[0]) by {
          forall x | x in xs[1..] ensures LexLe(x, xs[0]) {
            LexLeTransitive(x, m, xs[0]);
          }
        }
        assert LexLe(xs[0], xs[0]) by { LexLeTotal(xs[0], xs[0]); }
        xs[0]
      else
        assert LexLe(xs[0], m) by { LexLeTotal(m, xs[0]); }
        m
  }
}
