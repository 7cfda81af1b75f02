/** Addresses and networks as rows of bits: CIDR notation as in section 3.1 of
    RFC 4632. */
module Net {

  /** 32 bits, or 128 for an IPv6 address. */
  datatype Addr = Addr(v6: bool, bits: seq<bool>) {
    predicate Valid() {
      |bits| == if v6 then 128 else 32
    }
  }

  /** The networks sharing the first `len` bits of an address. Bits beyond are
      kept as written, as netip.Prefix keeps them. */
  datatype Prefix = Prefix(addr: Addr, len: nat) {
    predicate Valid() {
      addr.Valid() && len <= |addr.bits|
    }

    predicate Contains(a: Addr) {
      && addr.v6 == a.v6
      && len <= |addr.bits| == |a.bits|
      && addr.bits[..len] == a.bits[..len]
    }

    function Masked(): Prefix
      requires len <= |addr.bits|
    {
      Prefix(Addr(addr.v6, addr.bits[..len] + seq(|addr.bits| - len, _ => false)), len)
    }

    predicate IsMasked() {
      len <= |addr.bits| && forall i :: len <= i < |addr.bits| ==> !addr.bits[i]
    }
  }

  /** Two ways of writing one network. */
  predicate Twins(p: Prefix, q: Prefix) {
    && p.addr.v6 == q.addr.v6 && |p.addr.bits| == |q.addr.bits|
    && p.len == q.len <= |p.addr.bits|
    && p.addr.bits[..p.len] == q.addr.bits[..p.len]
  }

  lemma MaskedTwinsAreOne(p: Prefix, q: Prefix)
    requires Twins(p, q) && p.IsMasked() && q.IsMasked()
    ensures p == q
  {
    forall i | 0 <= i < |p.addr.bits|
      ensures p.addr.bits[i] == q.addr.bits[i]
    {
      if i < p.len {
        assert p.addr.bits[i] == p.addr.bits[..p.len][i] == q.addr.bits[..p.len][i];
      }
    }
    assert p.addr.bits == q.addr.bits;
  }

  lemma MaskingKeepsNetwork(p: Prefix, a: Addr)
    requires p.len <= |p.addr.bits|
    ensures p.Masked().IsMasked()
    ensures p.Masked().Contains(a) <==> p.Contains(a)
  {
    assert p.Masked().addr.bits[..p.len] == p.addr.bits[..p.len];
  }

  /** Networks of one length that share an address are one network. */
  lemma SameLengthTwins(p: Prefix, q: Prefix, a: Addr)
    requires p.Contains(a) && q.Contains(a) && p.len == q.len
    ensures Twins(p, q)
  {
  }
}
