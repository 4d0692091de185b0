/** Overwriting a span of a sequence, the shape of every in-place row update. */
module Sequences {

  /** `s` with the elements from `base` on replaced by the first `n` of `patch`. */
  function OverlayTo<T>(s: seq<T>, base: nat, patch: seq<T>, n: nat): (r: seq<T>)
    requires n <= |patch| && base + |patch| <= |s|
    ensures |r| == |s|
    ensures forall i :: 0 <= i < |s| ==> r[i] == if base <= i < base + n then patch[i - base] else s[i]
  {
    seq(|s|, i requires 0 <= i < |s| => if base <= i < base + n then patch[i - base] else s[i])
  }

  function Overlay<T>(s: seq<T>, base: nat, patch: seq<T>): (r: seq<T>)
    requires base + |patch| <= |s|
    ensures |r| == |s|
  {
    OverlayTo(s, base, patch, |patch|)
  }

  function Repeat<T>(x: T, n: nat): (r: seq<T>)
    ensures |r| == n && forall i :: 0 <= i < n ==> r[i] == x
  {
    seq(n, _ => x)
  }

  /** Disjoint overlays commute and do not see each other. */
  lemma {:induction false} DisjointOverlays<T>(s: seq<T>, a: nat, aEnd: nat, p: seq<T>, b: nat, bEnd: nat, q: seq<T>)
    requires a + |p| == aEnd <= b && b + |q| == bEnd <= |s|
    ensures Overlay(Overlay(s, a, p), b, q) == Overlay(Overlay(s, b, q), a, p)
    ensures Overlay(s, a, p)[b..bEnd] == s[b..bEnd]
    ensures Overlay(s, b, q)[a..aEnd] == s[a..aEnd]
  {
  }

  /** One more stretch of an overlay that proceeds from left to right. */
  lemma {:induction false} OverlayGrows<T>(s: seq<T>, base: nat, patch: seq<T>, x: nat, y: nat, index: nat, piece: seq<T>)
    requires x <= y <= |patch| && base + |patch| <= |s|
    requires index == base + x && piece == patch[x..y]
    ensures OverlayTo(s, base, patch, y) == Overlay(OverlayTo(s, base, patch, x), index, piece)
  {
  }

  lemma {:induction false} OverlaySkips<T>(s: seq<T>, base: nat, patch: seq<T>, x: nat, y: nat)
    requires x <= y <= |patch| && base + |patch| <= |s|
    requires forall i :: x <= i < y ==> patch[i] == s[base + i]
    ensures OverlayTo(s, base, patch, y) == OverlayTo(s, base, patch, x)
  {
  }

  lemma {:induction false} OverlayPoint<T>(s: seq<T>, base: nat, patch: seq<T>, x: nat, index: nat)
    requires x < |patch| && base + |patch| <= |s| && index == base + x
    ensures OverlayTo(s, base, patch, x + 1) == OverlayTo(s, base, patch, x)[index := patch[x]]
    ensures s[index] == patch[x] ==> OverlayTo(s, base, patch, x + 1) == OverlayTo(s, base, patch, x)
  {
  }

  /** An overlay that proceeds from left to right leaves its sequence unchanged until it first
      writes something else. */
  lemma {:induction false} OverlayDiffers<T>(s: seq<T>, base: nat, patch: seq<T>, x: nat, index: nat)
    requires x < |patch| && base + |patch| <= |s| && index == base + x
    ensures OverlayTo(s, base, patch, x + 1) != s <==> OverlayTo(s, base, patch, x) != s || patch[x] != s[index]
  {
    var now, next := OverlayTo(s, base, patch, x), OverlayTo(s, base, patch, x + 1);
    if next == s {
      assert forall i :: 0 <= i < |s| ==> now[i] == s[i];
      assert next[index] == patch[x];
    }
    if now == s && patch[x] == s[index] {
      assert forall i :: 0 <= i < |s| ==> next[i] == now[i];
    }
  }

  lemma {:induction false} OverlayAt<T>(s: seq<T>, base: nat, patch: seq<T>, x: nat, index: nat)
    requires x < |patch| && base + |patch| <= |s| && index == base + x
    ensures OverlayTo(s, base, patch, |patch|)[index] == patch[x]
  {
  }

  lemma {:induction false} SliceAt<T>(s: seq<T>, base: nat, stop: nat, x: nat, index: nat)
    requires base <= stop <= |s| && index == base + x < stop
    ensures s[base..stop][x] == s[index]
  {
  }
}
