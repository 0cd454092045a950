/** What the other modules share: optional values, 64-bit machine arithmetic and the error numbers. */
module Common {

  datatype Option<+T> = None | Some(value: T)

  // A 64-bit unsigned quantity a satisfies 0 <= a < TOP and wraps.
  const TOP: int := 0x1_0000_0000_0000_0000

  function Wrap(a: int): (r: nat)
    ensures r < TOP
  {
    a % TOP
  }

  lemma WrapAdds(a: int, b: int)
    ensures Wrap(Wrap(a) + b) == Wrap(a + b)
  {
    var q, q' := a / TOP, (Wrap(a) + b) / TOP;
    assert a + b == TOP * (q + q') + Wrap(Wrap(a) + b);
    assert (TOP * (q + q') + Wrap(Wrap(a) + b)) / TOP == q + q';
  }

  lemma WrapSmall(a: nat)
    requires a < TOP
    ensures Wrap(a) == a
  {
  }

  /** Distances modulo 2^64. */
  lemma WrapDifference(a: int, s: nat, d: nat)
    requires s < TOP && d < TOP
    ensures s == Wrap(a + d) <==> Wrap(s - a) == d
  {
    hide Wrap;
    WrapAdds(a + d, -a);
    WrapAdds(s - a, a);
    WrapSmall(s);
    WrapSmall(d);
  }

  const ENOENT: int := 2
  const ERANGE: int := 34
}
