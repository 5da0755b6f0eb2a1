/** A scratch row with three of its entries overwritten, and how further
    writes to those entries change it. Used to follow the shared scratch row
    that the T generators fill and copy. */
module Scratch {
  function Put2(s: seq<real>, x: int, y: int, a: real, b: real): (r: seq<real>)
    requires 0 <= x < |s| && 0 <= y < |s|
    ensures |r| == |s|
  {
    s[x := a][y := b]
  }

  /** Writing one of the two entries again replaces its value. */
  lemma Put2Write(s: seq<real>, x: int, y: int, a: real, b: real, v: real)
    requires 0 <= x < |s| && 0 <= y < |s| && x != y
    ensures Put2(s, x, y, a, b)[x := v] == Put2(s, x, y, v, b)
    ensures Put2(s, x, y, a, b)[y := v] == Put2(s, x, y, a, v)
  {
  }

  /** Writing the values a row already holds leaves it as it is. */
  lemma Put2Same(s: seq<real>, x: int, y: int)
    requires 0 <= x < |s| && 0 <= y < |s|
    ensures Put2(s, x, y, s[x], s[y]) == s
  {
  }

  function Put3(s: seq<real>, x: int, y: int, z: int, a: real, b: real, c: real): (r: seq<real>)
    requires 0 <= x < |s| && 0 <= y < |s| && 0 <= z < |s|
    ensures |r| == |s|
  {
    s[x := a][y := b][z := c]
  }

  /** Writing one of the three entries again replaces its value. */
  lemma Put3Write(s: seq<real>, x: int, y: int, z: int, a: real, b: real, c: real, v: real)
    requires 0 <= x < |s| && 0 <= y < |s| && 0 <= z < |s|
    requires x != y && x != z && y != z
    ensures Put3(s, x, y, z, a, b, c)[x := v] == Put3(s, x, y, z, v, b, c)
    ensures Put3(s, x, y, z, a, b, c)[y := v] == Put3(s, x, y, z, a, v, c)
    ensures Put3(s, x, y, z, a, b, c)[z := v] == Put3(s, x, y, z, a, b, v)
  {
  }

  /** Writing the values a row already holds leaves it as it is. */
  lemma Put3Same(s: seq<real>, x: int, y: int, z: int)
    requires 0 <= x < |s| && 0 <= y < |s| && 0 <= z < |s|
    ensures Put3(s, x, y, z, s[x], s[y], s[z]) == s
  {
  }

  function Put4(s: seq<real>, n: int, e: int, so: int, w: int, a: real, b: real, c: real, d: real): (r: seq<real>)
    requires 0 <= n < |s| && 0 <= e < |s| && 0 <= so < |s| && 0 <= w < |s|
    ensures |r| == |s|
  {
    s[n := a][e := b][so := c][w := d]
  }

  /** Writing one of the four entries again replaces its value. */
  lemma Put4Write(s: seq<real>, n: int, e: int, so: int, w: int, a: real, b: real, c: real, d: real, v: real)
    requires 0 <= n < |s| && 0 <= e < |s| && 0 <= so < |s| && 0 <= w < |s|
    requires n != e && n != so && n != w && e != so && e != w && so != w
    ensures Put4(s, n, e, so, w, a, b, c, d)[n := v] == Put4(s, n, e, so, w, v, b, c, d)
    ensures Put4(s, n, e, so, w, a, b, c, d)[e := v] == Put4(s, n, e, so, w, a, v, c, d)
    ensures Put4(s, n, e, so, w, a, b, c, d)[so := v] == Put4(s, n, e, so, w, a, b, v, d)
    ensures Put4(s, n, e, so, w, a, b, c, d)[w := v] == Put4(s, n, e, so, w, a, b, c, v)
  {
  }

  lemma Put4Same(s: seq<real>, n: int, e: int, so: int, w: int)
    requires 0 <= n < |s| && 0 <= e < |s| && 0 <= so < |s| && 0 <= w < |s|
    ensures Put4(s, n, e, so, w, s[n], s[e], s[so], s[w]) == s
  {
  }
}
