/** The `Network` class: a CIDR block given by an address and a prefix
    length (section 3.1 of RFC 4632), with its mask, network and broadcast
    values, usable host range, size and overlap test. */
module Networks {
  import opened Results
  import opened Bits
  import opened Addresses

  /** Outcomes other than a normal return. */
  datatype NetError =
    | InvalidPrefix   // thrown by the prefix check: "Tips: Invalid prefix"
    | Unspecified     // the source produces no address value here (joined text or a TypeError)

  /** A prefix length acceptable for the family: 1 .. width. */
  predicate PrefixOk(version: Version, prefix: int)
  {
    0 < prefix <= version.Width()
  }

  /** Prefix validation: the prefix is returned unchanged or rejected, never clamped. */
  function CheckPrefix(version: Version, prefix: int): (r: Result<nat, NetError>)
    ensures r.Ok? <==> PrefixOk(version, prefix)
    ensures r.Ok? ==> r.value == prefix
    ensures r.Err? ==> r.error == InvalidPrefix
  {
    if version == V4 then
      if prefix > 0 && prefix <= 32 then Ok(prefix) else Err(InvalidPrefix)
    else
      if prefix > 0 && prefix <= 128 then Ok(prefix) else Err(InvalidPrefix)
  }

  /** A network: an address and a prefix length. */
  datatype Network = Network(address: Address, prefix: nat) {

    predicate Valid()
    {
      address.Valid() && PrefixOk(address.version, prefix)
    }

    function Width(): nat
    {
      address.version.Width()
    }

    /** Number of host bits: the bits below the prefix. */
    function HostBits(): nat
      requires Valid()
    {
      Width() - prefix
    }
  }

  /** The constructor: the address is kept as given, the prefix is validated. */
  function New(address: Address, prefix: int): (r: Result<Network, NetError>)
    requires address.Valid()
    ensures r.Ok? <==> 0 < prefix <= address.version.Width()
    ensures r.Ok? ==> r.value.Valid() && r.value.address == address && r.value.prefix == prefix
    ensures r.Err? ==> r.error == InvalidPrefix
  {
    match CheckPrefix(address.version, prefix)
    case Ok(p) => Ok(Network(address, p))
    case Err(e) => Err(e)
  }

  /** The mask: the family maximum shifted right, then left, by the host bits.
      Its value is 2^width - 2^hostbits. */
  function Mask(n: Network): (m: nat)
    requires n.Valid()
    ensures m + Pow2(n.HostBits()) == Pow2(n.Width())
  {
    MaxIsAllOnes(n.address.version);
    ShiftedOnes(n.Width(), n.HostBits());
    ShiftLeft(ShiftRight(n.address.version.Max(), n.HostBits()), n.HostBits())
  }

  /** The network value: the address ANDed with the mask. It is the
      multiple of 2^hostbits at or just below the address. */
  function NetworkValue(n: Network): (r: nat)
    requires n.Valid()
    ensures r % Pow2(n.HostBits()) == 0
    ensures r <= n.address.value < r + Pow2(n.HostBits())
  {
    var v, h := n.address.value, n.HostBits();
    MaxIsAllOnes(n.address.version);
    AndHighMask(v, Mask(n), n.Width(), h);
    AlignedMod(v / Pow2(h), h);
    FloorMultiple(v, Pow2(h));
    And(v, Mask(n))
  }

  /** The broadcast value: the network value ORed with the inverted mask,
      i.e. the last value of the block. */
  function Broadcast(n: Network): (r: nat)
    requires n.Valid()
    ensures r == NetworkValue(n) + Pow2(n.HostBits()) - 1
    ensures n.address.value <= r <= n.address.version.Max()
  {
    var v, h := n.address.value, n.HostBits();
    MaxIsAllOnes(n.address.version);
    AndHighMask(v, Mask(n), n.Width(), h);
    OrLowBits(v / Pow2(h), h, Pow2(h) - 1);
    BlockEnd(v, n.Width(), h);
    Or(NetworkValue(n), n.address.version.Max() - Mask(n))
  }

  /** The broadcast as reported to callers: a number for IPv4 only. `None`
      stands for the fixed text "IPv6 doesnt have broadcast address" that
      IPv6 networks report instead. */
  function GetBroadcast(n: Network): (r: Option<nat>)
    requires n.Valid()
    ensures r.Some? <==> n.address.version == V4
    ensures r.Some? ==> r.value == NetworkValue(n) + Pow2(n.HostBits()) - 1
  {
    if n.address.version == V4 then Some(Broadcast(n)) else None
  }

  /** x lies in the block [network, broadcast] of n. */
  predicate InBlock(x: nat, n: Network)
    requires n.Valid()
  {
    NetworkValue(n) <= x <= Broadcast(n)
  }

  /** The first usable host: the address itself when fewer than two host bits
      remain (prefix above 30 for IPv4, above 126 for IPv6), else the value
      after the network value. */
  function HostFirst(n: Network): (r: nat)
    requires n.Valid()
    ensures InBlock(r, n)
    ensures n.HostBits() < 2 ==> r == n.address.value
    ensures n.HostBits() >= 2 ==> r == NetworkValue(n) + 1 && r < Broadcast(n)
  {
    var isSmall4 := n.address.version == V4 && n.prefix > 30;
    var isSmall6 := n.address.version == V6 && n.prefix > 126;
    if isSmall4 || isSmall6 then n.address.value
    else
      Pow2Divides(2, n.HostBits());
      NetworkValue(n) + 1
  }

  /** The last usable host: the address itself at /32 and /128; for IPv4 the
      value before the broadcast, for IPv6 the broadcast value. At /31 and
      /127 the source adds `1n` to the member `toInteger` rather than to a
      call of it: joined text if that member is a method, a TypeError if it
      is undefined; neither is an address value, so the outcome there is
      left unspecified. */
  function HostLast(n: Network): (r: Result<nat, NetError>)
    requires n.Valid()
    ensures r.Err? <==> n.HostBits() == 1
    ensures r.Err? ==> r.error == Unspecified
    ensures n.HostBits() == 0 ==> r == Ok(n.address.value)
    ensures r.Ok? ==> InBlock(r.value, n)
    ensures n.HostBits() >= 2 && n.address.version == V4 ==> r == Ok(Broadcast(n) - 1)
    ensures n.HostBits() >= 2 && n.address.version == V6 ==> r == Ok(Broadcast(n))
  {
    var isLast4 := n.address.version == V4 && n.prefix == 32;
    var isLast6 := n.address.version == V6 && n.prefix == 128;
    var isPrev4 := n.address.version == V4 && n.prefix == 31;
    var isPrev6 := n.address.version == V6 && n.prefix == 127;
    if isLast4 || isLast6 then Ok(n.address.value)
    else if isPrev4 || isPrev6 then Err(Unspecified)
    else if n.address.version == V4 then Ok(Broadcast(n) - 1)
    else Ok(Broadcast(n))
  }

  /** A JavaScript numeric value, tagged with its type: `===` between a
      BigInt and a Number is false whatever their values, which datatype
      equality reproduces. */
  datatype Numeric = BigInt(v: int) | Number(v: int)

  /** `hostLast` as written: the stored prefix is the BigInt that the prefix
      check returns, while the four tests compare it with Number literals
      under `===`, so none of them holds and every prefix takes the general
      branches; the unspecified /31 and /127 branch is never reached. */
  function HostLastAsWritten(n: Network): (r: Result<int, NetError>)
    requires n.Valid()
    ensures r.Ok?
    ensures n.address.version == V4 ==> r.value + 1 == NetworkValue(n) + Pow2(n.HostBits()) - 1
    ensures n.address.version == V6 ==> r.value == NetworkValue(n) + Pow2(n.HostBits()) - 1
  {
    var prefix := BigInt(n.prefix);
    var isLast4 := n.address.version == V4 && prefix == Number(32);
    var isLast6 := n.address.version == V6 && prefix == Number(128);
    var isPrev4 := n.address.version == V4 && prefix == Number(31);
    var isPrev6 := n.address.version == V6 && prefix == Number(127);
    if isLast4 || isLast6 then Ok(n.address.value)
    else if isPrev4 || isPrev6 then Err(Unspecified)
    else if n.address.version == V4 then Ok(Broadcast(n) - 1)
    else Ok(Broadcast(n))
  }

  /** The pair [first host, last host] over the corrected last host; its
      outcome is unspecified where the last host's is. */
  function HostRange(n: Network): (r: Result<(nat, nat), NetError>)
    requires n.Valid()
    ensures r.Ok? <==> n.HostBits() != 1
    ensures r.Ok? ==> InBlock(r.value.0, n) && InBlock(r.value.1, n)
    ensures r.Ok? ==> r.value.0 == HostFirst(n) && Ok(r.value.1) == HostLast(n)
  {
    match HostLast(n)
    case Ok(last) => Ok((HostFirst(n), last))
    case Err(e) => Err(e)
  }

  /** The two blocks share at least one value. */
  ghost predicate Intersect(a: Network, b: Network)
    requires a.Valid() && b.Valid()
  {
    exists x: nat :: InBlock(x, a) && InBlock(x, b)
  }

  /** The overlap test: builds the other network (which may throw on its
      prefix) and reports whether either network value lies in the other's block. */
  function Contains(n: Network, other: Address, otherPrefix: int): (r: Result<bool, NetError>)
    requires n.Valid() && other.Valid()
    ensures r.Err? <==> !PrefixOk(other.version, otherPrefix)
    ensures r.Err? ==> r.error == InvalidPrefix
    ensures r.Ok? ==> (r.value <==> Intersect(n, Network(other, otherPrefix)))
  {
    match New(other, otherPrefix)
    case Err(e) => Err(e)
    case Ok(o) =>
      var thisNetwork := NetworkValue(n);
      var otherNetwork := NetworkValue(o);
      var smaller := thisNetwork <= otherNetwork && otherNetwork <= Broadcast(n);
      var bigger := otherNetwork <= thisNetwork && thisNetwork <= Broadcast(o);
      OverlapWitness(n, o);
      Ok(smaller || bigger)
  }

  /** The source's two-sided test is exactly interval intersection. */
  lemma OverlapWitness(a: Network, b: Network)
    requires a.Valid() && b.Valid()
    ensures Intersect(a, b) <==>
      (NetworkValue(a) <= NetworkValue(b) <= Broadcast(a)) ||
      (NetworkValue(b) <= NetworkValue(a) <= Broadcast(b))
  {
    var na, nb := NetworkValue(a), NetworkValue(b);
    if na <= nb <= Broadcast(a) {
      assert InBlock(nb, a) && InBlock(nb, b);
    } else if nb <= na <= Broadcast(b) {
      assert InBlock(na, a) && InBlock(na, b);
    }
  }

  /** The number of addresses: 2^hostbits, less two for IPv4 (network and
      broadcast); taken literally this is -1 at IPv4 /32 and 0 at /31. */
  function NetworkSize(n: Network): (r: int)
    requires n.Valid()
    ensures n.address.version == V6 ==> r == Broadcast(n) - NetworkValue(n) + 1
    ensures n.address.version == V4 ==> r == Broadcast(n) - NetworkValue(n) - 1
  {
    var size := Pow2(n.Width() - n.prefix);
    if n.address.version == V4 then size - 2 else size
  }
}
