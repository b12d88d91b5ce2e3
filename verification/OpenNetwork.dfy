/**
 A network that lets every block in and whose hash is collision-free: a Cantor pairing of the header's fields. It
 shows that such rules exist, and it is the one that concrete cases use.
 */
module OpenNetwork {
  import opened Forest

  function Triangle(n: nat): nat { if n == 0 then 0 else n + Triangle(n - 1) }

  function Cantor(a: nat, b: nat): nat { Triangle(a + b) + b }

  lemma {:induction false} TriangleGrows(m: nat, n: nat)
    requires m < n
    ensures Triangle(m) + m < Triangle(n)
  {
    if m + 1 < n { TriangleGrows(m, n - 1); }
  }

  lemma CantorIsInjective(a: nat, b: nat, c: nat, d: nat)
    requires Cantor(a, b) == Cantor(c, d)
    ensures a == c && b == d
  {
    if a + b < c + d { TriangleGrows(a + b, c + d); }
    if c + d < a + b { TriangleGrows(c + d, a + b); }
  }

  function PairedHash(h: Header): Hash { Cantor(Cantor(h.prev, h.bits), h.body) }

  function OpenRules(work: Header -> pos): Rules {
    Rules(Header(0, 0, 0), PairedHash, work, (_: nat) => 0, 0,
          (_: Header, _: Header) => 0, (_: Header, _: nat) => true, (_: Header) => 1.0, true)
  }

  lemma OpenRulesAreCollisionFree(work: Header -> pos)
    ensures OpenRules(work).CollisionFree()
  {
    forall a: Header, b: Header | PairedHash(a) == PairedHash(b) ensures a == b {
      CantorIsInjective(Cantor(a.prev, a.bits), a.body, Cantor(b.prev, b.bits), b.body);
      CantorIsInjective(a.prev, a.bits, b.prev, b.bits);
    }
  }

  /** Rules that let every block in. */
  ghost predicate LetsAllIn(r: Rules) {
    (forall bits :: r.target(bits) <= r.maxTarget) && forall h, bits :: r.meets(h, bits)
  }

  lemma OpenRulesLetAllIn(work: Header -> pos)
    ensures LetsAllIn(OpenRules(work))
  {}
}
