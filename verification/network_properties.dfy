/** Facts about the `Network` operations that relate several calls: the
    shape of the mask, idempotence of masking, block membership, the overlap
    test's symmetry and nesting, and the ordering of the host range. */
module NetworkProperties {
  import opened Results
  import opened Bits
  import opened Addresses
  import opened Networks

  /** The mask has `prefix` leading one-bits followed by zero-bits. */
  lemma MaskLeadingOnes(n: Network, i: nat)
    requires n.Valid() && i < n.Width()
    ensures Bit(Mask(n), i) <==> i >= n.Width() - n.prefix
  {
    HighMaskBit(Mask(n), n.Width(), n.HostBits(), i);
  }

  /** A longer prefix keeps every bit of a shorter prefix's mask. */
  lemma MaskMonotone(a: Network, b: Network)
    requires a.Valid() && b.Valid()
    requires a.address.version == b.address.version && a.prefix <= b.prefix
    ensures forall i :: 0 <= i < a.Width() && Bit(Mask(a), i) ==> Bit(Mask(b), i)
    ensures And(Mask(a), Mask(b)) == Mask(a)
  {
    forall i | 0 <= i < a.Width() && Bit(Mask(a), i)
      ensures Bit(Mask(b), i)
    {
      MaskLeadingOnes(a, i);
      MaskLeadingOnes(b, i);
    }
    var w, ha, hb := a.Width(), a.HostBits(), b.HostBits();
    var ma, mb := Mask(a), Mask(b);
    MaxIsAllOnes(a.address.version);
    Pow2Divides(ha, w);
    var k: nat := Pow2(w - ha) - 1;
    MulSucc(k, Pow2(ha));
    assert ma == k * Pow2(ha);
    AlignedMod(k, ha);
    AlignedCoarser(ma, ha, hb);
    AndHighMask(ma, mb, w, hb);
    ExactMultiple(ma, Pow2(hb));
  }

  /** Masking the network value again leaves it unchanged, and the network
      of the network address is the same network. */
  lemma NetworkIdempotent(n: Network)
    requires n.Valid()
    ensures And(NetworkValue(n), Mask(n)) == NetworkValue(n)
    ensures NetworkValue(Network(Address(n.address.version, NetworkValue(n)), n.prefix)) == NetworkValue(n)
  {
    var m := Network(Address(n.address.version, NetworkValue(n)), n.prefix);
    var h, r := n.HostBits(), NetworkValue(n);
    MaxIsAllOnes(n.address.version);
    AndHighMask(r, Mask(n), n.Width(), h);
    ExactMultiple(r, Pow2(h));
    UniqueAligned(NetworkValue(m), r, r, Pow2(h));
  }

  /** A value lies in the block exactly when masking it gives the block's
      network value, i.e. when it agrees with the address on the prefix bits. */
  lemma BlockMembership(n: Network, x: nat)
    requires n.Valid() && x <= n.address.version.Max()
    ensures InBlock(x, n) <==> And(x, Mask(n)) == NetworkValue(n)
  {
    var h, r := n.HostBits(), NetworkValue(n);
    var p := Pow2(h);
    MaxIsAllOnes(n.address.version);
    AndHighMask(x, Mask(n), n.Width(), h);
    FloorMultiple(x, p);
    var fx := (x / p) * p;
    AlignedMod(x / p, h);
    if InBlock(x, n) {
      if fx < r {
        AlignedGap(fx, r, p);
      } else if r < fx {
        AlignedGap(r, fx, p);
      }
    }
  }

  /** The overlap test does not depend on which network asks. */
  lemma ContainsSymmetric(a: Network, b: Network)
    requires a.Valid() && b.Valid()
    ensures Contains(a, b.address, b.prefix) == Contains(b, a.address, a.prefix)
  {
    assert b == Network(b.address, b.prefix) && a == Network(a.address, a.prefix);
    if Intersect(a, b) {
      var x: nat :| InBlock(x, a) && InBlock(x, b);
      assert InBlock(x, b) && InBlock(x, a);
    }
  }

  /** Every network overlaps itself. */
  lemma ContainsReflexive(n: Network)
    requires n.Valid()
    ensures Contains(n, n.address, n.prefix) == Ok(true)
  {
    assert n == Network(n.address, n.prefix);
    assert InBlock(n.address.value, n);
  }

  /** Block b lies inside block a. */
  predicate Within(b: Network, a: Network)
    requires a.Valid() && b.Valid()
  {
    NetworkValue(a) <= NetworkValue(b) && Broadcast(b) <= Broadcast(a)
  }

  /** Two aligned CIDR blocks overlap exactly when one is nested in the other. */
  lemma ContainsNested(a: Network, b: Network)
    requires a.Valid() && b.Valid()
    ensures Contains(a, b.address, b.prefix) == Ok(Within(a, b) || Within(b, a))
  {
    assert b == Network(b.address, b.prefix);
    OverlapWitness(a, b);
    var na, nb := NetworkValue(a), NetworkValue(b);
    if (na <= nb <= Broadcast(a)) || (nb <= na <= Broadcast(b)) {
      if a.HostBits() >= b.HostBits() {
        NestedWhenCoarser(a, b);
      } else {
        NestedWhenCoarser(b, a);
      }
    }
  }

  /** If a's block is at least as large as b's and they overlap, b lies in a. */
  lemma NestedWhenCoarser(a: Network, b: Network)
    requires a.Valid() && b.Valid() && a.HostBits() >= b.HostBits()
    requires (NetworkValue(a) <= NetworkValue(b) <= Broadcast(a)) ||
             (NetworkValue(b) <= NetworkValue(a) <= Broadcast(b))
    ensures Within(b, a)
  {
    var ha, hb := a.HostBits(), b.HostBits();
    Pow2Divides(hb, ha);
    NestedBlocks(NetworkValue(a), Pow2(ha), NetworkValue(b), Pow2(hb), Pow2(ha - hb));
  }

  /** The host range lies strictly inside the block once two host bits remain:
      for IPv4 it excludes network and broadcast, for IPv6 it ends at the
      broadcast value; at /32 and /128 it is the address alone. */
  lemma HostRangeOrdered(n: Network)
    requires n.Valid()
    ensures n.HostBits() >= 2 && n.address.version == V4 ==>
      NetworkValue(n) < HostFirst(n) <= HostLast(n).value < Broadcast(n)
    ensures n.HostBits() >= 2 && n.address.version == V6 ==>
      NetworkValue(n) < HostFirst(n) <= HostLast(n).value == Broadcast(n)
    ensures n.HostBits() == 0 ==>
      HostRange(n) == Ok((n.address.value, n.address.value)) &&
      NetworkValue(n) == n.address.value == Broadcast(n)
  {
    if n.HostBits() >= 2 {
      Pow2Divides(2, n.HostBits());
    }
  }

  /** As written, the last host of an IPv4 /32 is the value just below the
      address, outside the one-address block, where the intended last host
      is the address itself. */
  lemma HostLastAsWrittenSingleHost(a: Address)
    requires a.Valid() && a.version == V4
    ensures var n := Network(a, 32);
      && HostLastAsWritten(n) == Ok(a.value - 1)
      && HostLast(n) == Ok(a.value)
      && a.value - 1 < NetworkValue(n)
  {
    var n := Network(a, 32);
    assert n.HostBits() == 0;
  }

  /** The same for 10.0.0.1/32 (167772161): as written the last host is
      10.0.0.0 (167772160). */
  lemma HostLastAsWrittenExample()
    ensures HostLastAsWritten(Network(Address(V4, 167772161), 32)) == Ok(167772160)
    ensures HostLast(Network(Address(V4, 167772161), 32)) == Ok(167772161)
  {
    HostLastAsWrittenSingleHost(Address(V4, 167772161));
  }

  /** As written, an IPv4 /31 never reaches the unspecified branch: its last
      host is the network value. */
  lemma HostLastAsWrittenPair(n: Network)
    requires n.Valid() && n.address.version == V4 && n.prefix == 31
    ensures HostLastAsWritten(n) == Ok(NetworkValue(n))
    ensures HostLast(n) == Err(Unspecified)
  {
    assert Pow2(1) == 2;
  }

  /** `hostRange` as written pairs the first host with the as-written last
      host, and the pair comes out reversed: at IPv4 /32 it is [a, a - 1],
      and at IPv4 /31, for the block's upper address, the first host is the
      address and the last host the value below it. */
  lemma HostRangeAsWrittenReversed(a: Address)
    requires a.Valid() && a.version == V4
    ensures var n := Network(a, 32);
      HostLastAsWritten(n).value < HostFirst(n) == a.value
    ensures var n := Network(a, 31);
      a.value % 2 == 1 ==> HostLastAsWritten(n).value < HostFirst(n) == a.value
  {
    HostLastAsWrittenSingleHost(a);
    var n := Network(a, 31);
    HostLastAsWrittenPair(n);
    assert Pow2(1) == 2;
  }

  /** For IPv4 blocks with two or more host bits the size counts exactly the
      usable hosts from first to last. */
  lemma NetworkSizeCountsHosts(n: Network)
    requires n.Valid() && n.address.version == V4 && n.HostBits() >= 2
    ensures NetworkSize(n) == HostLast(n).value - HostFirst(n) + 1
  {
  }

  /** Read literally, the IPv4 size formula gives 0 at /31 and -1 at /32. */
  lemma NetworkSizeSmallV4(a: Address)
    requires a.Valid() && a.version == V4
    ensures NetworkSize(Network(a, 31)) == 0
    ensures NetworkSize(Network(a, 32)) == -1
  {
    assert Pow2(1) == 2;
  }

  /** The test vector 192.168.114.42/24 (3232264746): mask 255.255.255.0,
      network 192.168.114.0, broadcast 192.168.114.255, hosts .1 to .254. */
  lemma Example192168114()
    ensures var n := Network(Address(V4, 3232264746), 24);
      && Mask(n) == 4294967040
      && NetworkValue(n) == 3232264704
      && GetBroadcast(n) == Some(3232264959)
      && HostRange(n) == Ok((3232264705, 3232264958))
      && NetworkSize(n) == 254
  {
    var n := Network(Address(V4, 3232264746), 24);
    Pow2Values();
    assert n.HostBits() == 8;
    var r := NetworkValue(n);
    assert r % 256 == 0 && r <= 3232264746 < r + 256;
    if r < 3232264704 {
      AlignedGap(r, 3232264704, 256);
    } else if r > 3232264704 {
      AlignedGap(3232264704, r, 256);
    }
  }
}
