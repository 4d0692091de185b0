/** A byte-wise hash as a left fold; the step is a parameter. */
module Hashing {

  function Fold<H>(step: (H, char) -> H, h: H, bytes: seq<char>): H {
    if bytes == [] then h else Fold(step, step(h, bytes[0]), bytes[1..])
  }

  lemma {:induction false} FoldAppends<H>(step: (H, char) -> H, h: H, a: seq<char>, b: seq<char>)
    ensures Fold(step, h, a + b) == Fold(step, Fold(step, h, a), b)
    decreases |a|
  {
    if a == [] {
      assert a + b == b;
    } else {
      assert (a + b)[1..] == a[1..] + b;
      FoldAppends(step, step(h, a[0]), a[1..], b);
    }
  }

  /** The hash loop over one buffer. */
  method Update<H>(step: (H, char) -> H, h0: H, bytes: seq<char>) returns (h: H)
    ensures h == Fold(step, h0, bytes)
  {
    h := h0;
    for i := 0 to |bytes|
      invariant Fold(step, h, bytes[i..]) == Fold(step, h0, bytes)
    {
      assert bytes[i..][1..] == bytes[i + 1..];
      h := step(h, bytes[i]);
    }
  }
}
