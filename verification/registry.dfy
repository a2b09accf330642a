/** The special-purpose address tables (the IANA registries of RFC 6890) as
    the source lists them, and the first-match classification over them. */
module Registry {
  import opened Results
  import opened Addresses
  import opened Networks
  import opened RegistryMap

  const Unknown := "UNKNOWN"

  /** The IPv4 table as listed in the source, duplicates included. */
  const Ipv4Entries: seq<Entry> := [
      Entry("0.0.0.0", Address(V4, 0), 8, "This host on this network"),
      Entry("10.0.0.0", Address(V4, 167772160), 8, "Private-Use"),
      Entry("100.64.0.0", Address(V4, 1681915904), 10, "Shared Address Space"),
      Entry("127.0.0.0", Address(V4, 2130706432), 8, "Loopback"),
      Entry("169.254.0.0", Address(V4, 2851995648), 16, "Link Local"),
      Entry("172.16.0.0", Address(V4, 2886729728), 12, "Private-Use"),
      Entry("192.0.0.0", Address(V4, 3221225472), 24, "IETF Protocol Assignments"),
      Entry("192.0.0.0", Address(V4, 3221225472), 29, "IPv4 Service Continuity Prefix"),
      Entry("192.0.0.8", Address(V4, 3221225480), 32, "IPv4 dummy address"),
      Entry("192.0.0.9", Address(V4, 3221225481), 32, "Port Control Protocol Anycast"),
      Entry("192.0.0.10", Address(V4, 3221225482), 32, "Traversal Using Relays around NAT Anycast"),
      Entry("192.0.0.170", Address(V4, 3221225642), 32, "NAT64/DNS64 Discovery"),
      Entry("192.0.0.171", Address(V4, 3221225643), 32, "NAT64/DNS64 Discovery"),
      Entry("192.0.2.0", Address(V4, 3221225984), 24, "Documentation (TEST-NET-1)"),
      Entry("192.31.196.0", Address(V4, 3223307264), 24, "AS112-v4"),
      Entry("192.52.193.0", Address(V4, 3224682752), 24, "AMT"),
      Entry("192.88.99.0", Address(V4, 3227017984), 24, "Deprecated (6to4 Relay Anycast)"),
      Entry("192.168.0.0", Address(V4, 3232235520), 16, "Private-Use"),
      Entry("192.175.48.0", Address(V4, 3232706560), 24, "Direct Delegation AS112 Service"),
      Entry("198.18.0.0", Address(V4, 3323068416), 15, "Benchmarking"),
      Entry("198.51.100.0", Address(V4, 3325256704), 24, "Documentation (TEST-NET-2)"),
      Entry("203.0.113.0", Address(V4, 3405803776), 24, "Documentation (TEST-NET-3)"),
      Entry("240.0.0.0", Address(V4, 4026531840), 4, "Reserved"),
      Entry("255.255.255.255", Address(V4, 4294967295), 32, "Limited Broadcast")
    ]

  /** The IPv6 table as listed in the source. Its first key is IPv4 text and
      denotes an IPv4 address. */
  const Ipv6Entries: seq<Entry> := [
      Entry("255.255.255.255", Address(V4, 4294967295), 32, "Limited Broadcast"),
      Entry("::1", Address(V6, 0x1), 128, "Loopback Address"),
      Entry("::", Address(V6, 0x0), 128, "Unspecified Address"),
      Entry("::", Address(V6, 0x0), 128, "Unspecified Address"),
      Entry("::ffff:0:0", Address(V6, 0xffff_0000_0000), 98, "IPv4-mapped Address"),
      Entry("64:ff9b::", Address(V6, 0x64_ff9b_0000_0000_0000_0000_0000_0000), 96, "IPv4-IPv6 Translat."),
      Entry("64:ff9b:1::", Address(V6, 0x64_ff9b_0001_0000_0000_0000_0000_0000), 48, "IPv4-IPv6 Translat."),
      Entry("100::", Address(V6, 0x100_0000_0000_0000_0000_0000_0000_0000), 64, "Discard-Only Address Block"),
      Entry("2001::", Address(V6, 0x2001_0000_0000_0000_0000_0000_0000_0000), 23, "IETF Protocol Assignments"),
      Entry("2001::", Address(V6, 0x2001_0000_0000_0000_0000_0000_0000_0000), 32, "TEREDO"),
      Entry("2001:1::1", Address(V6, 0x2001_0001_0000_0000_0000_0000_0000_0001), 128, "Port Control Protocol Anycast"),
      Entry("2001:1::2", Address(V6, 0x2001_0001_0000_0000_0000_0000_0000_0002), 128, "Traversal Using Relays around NAT Anycast"),
      Entry("2001:2::", Address(V6, 0x2001_0002_0000_0000_0000_0000_0000_0000), 48, "Benchmarking"),
      Entry("2001:3::", Address(V6, 0x2001_0003_0000_0000_0000_0000_0000_0000), 32, "AMT"),
      Entry("2001:4:112::", Address(V6, 0x2001_0004_0112_0000_0000_0000_0000_0000), 48, "AS112-v6"),
      Entry("2001:5::", Address(V6, 0x2001_0005_0000_0000_0000_0000_0000_0000), 32, "EID Space for LISP (Managed by RIPE NCC)"),
      Entry("2001:10::", Address(V6, 0x2001_0010_0000_0000_0000_0000_0000_0000), 28, "Deprecated (previously ORCHID)"),
      Entry("2001:20::", Address(V6, 0x2001_0020_0000_0000_0000_0000_0000_0000), 28, "ORCHIDv2"),
      Entry("2001:db8::", Address(V6, 0x2001_0db8_0000_0000_0000_0000_0000_0000), 32, "Documentation"),
      Entry("2002::", Address(V6, 0x2002_0000_0000_0000_0000_0000_0000_0000), 16, "6to4"),
      Entry("2620:4f:8000::", Address(V6, 0x2620_004f_8000_0000_0000_0000_0000_0000), 48, "Direct Delegation AS112 Service"),
      Entry("fc00::", Address(V6, 0xfc00_0000_0000_0000_0000_0000_0000_0000), 7, "Unique-Local"),
      Entry("fe80::", Address(V6, 0xfe80_0000_0000_0000_0000_0000_0000_0000), 10, "Link-Local Unicast")
    ]

  /** The listing written out for a family. */
  function Listing(version: Version): seq<Entry>
  {
    match version
    case V4 => Ipv4Entries
    case V6 => Ipv6Entries
  }

  /** The table consulted for a family: the Map built from its listing, with
      each listed key once, in the order of its first listing, holding its
      last listed value. */
  function RegistryFor(version: Version): (r: seq<Entry>)
    ensures DistinctKeys(r) && Keys(r) == Keys(Listing(version))
    ensures LastValues(r, Listing(version))
    ensures FirstOrder(r, Listing(version))
  {
    FromEntriesLastValues(Listing(version));
    FromEntriesFirstOrder(Listing(version));
    FromEntries(Listing(version))
  }

  /** Every row denotes a valid address and a prefix valid for its family,
      so building its network never throws. */
  predicate WellFormed(t: seq<Entry>)
  {
    forall e | e in t :: RowWellFormed(e)
  }

  predicate RowWellFormed(e: Entry)
  {
    e.base.Valid() && PrefixOk(e.base.version, e.prefix)
  }

  /** The block of row e overlaps network n. */
  predicate Overlaps(n: Network, e: Entry)
    requires n.Valid()
  {
    e.base.Valid() && Contains(n, e.base, e.prefix) == Ok(true)
  }

  /** `name` is the name of the first row, in table order, overlapping n,
      or "UNKNOWN" when no row does. */
  predicate FirstMatch(n: Network, t: seq<Entry>, name: string)
    requires n.Valid()
  {
    && ((forall i :: 0 <= i < |t| ==> !Overlaps(n, t[i])) ==> name == Unknown)
    && (forall i :: (0 <= i < |t| && Overlaps(n, t[i]) &&
          (forall j :: 0 <= j < i ==> !Overlaps(n, t[j]))) ==> name == t[i].name)
  }

  /** FirstMatch names at most one result: the classification is a function
      of the network and the table. */
  lemma FirstMatchUnique(n: Network, t: seq<Entry>, a: string, b: string)
    requires n.Valid() && FirstMatch(n, t, a) && FirstMatch(n, t, b)
    ensures a == b
  {
    if k :| 0 <= k < |t| && Overlaps(n, t[k]) {
      var i := LeastOverlap(n, t, k);
    }
  }

  /** Some overlapping row has a first overlapping row at or before it. */
  lemma {:induction false} LeastOverlap(n: Network, t: seq<Entry>, k: nat) returns (i: nat)
    requires n.Valid() && k < |t| && Overlaps(n, t[k])
    ensures i <= k && Overlaps(n, t[i])
    ensures forall j :: 0 <= j < i ==> !Overlaps(n, t[j])
    decreases k
  {
    if j :| 0 <= j < k && Overlaps(n, t[j]) {
      i := LeastOverlap(n, t, j);
    } else {
      i := k;
    }
  }

  /** The classification loop over one table. */
  method Lookup(n: Network, t: seq<Entry>) returns (name: string)
    requires n.Valid() && WellFormed(t)
    ensures FirstMatch(n, t, name)
  {
    var i := 0;
    while i < |t|
      invariant 0 <= i <= |t|
      invariant forall j :: 0 <= j < i ==> !Overlaps(n, t[j])
    {
      assert t[i] in t;
      var found := Contains(n, t[i].base, t[i].prefix);
      if found == Ok(true) {
        return t[i].name;
      }
      i := i + 1;
    }
    return Unknown;
  }

  /** Both listings, and so both Maps built from them, are well formed. */
  lemma RegistriesWellFormed()
    ensures WellFormed(RegistryFor(V4)) && WellFormed(RegistryFor(V6))
  {
    Ipv4EntriesWellFormed();
    Ipv6EntriesWellFormed();
    MapWellFormed(Ipv4Entries);
    MapWellFormed(Ipv6Entries);
  }

  lemma Ipv4EntriesWellFormed()
    ensures WellFormed(Ipv4Entries)
  {
    forall i | 0 <= i < |Ipv4Entries|
      ensures RowWellFormed(Ipv4Entries[i])
    {
    }
    IndexedWellFormed(Ipv4Entries);
  }

  lemma Ipv6EntriesWellFormed()
    ensures WellFormed(Ipv6Entries)
  {
    forall i | 0 <= i < |Ipv6Entries|
      ensures RowWellFormed(Ipv6Entries[i])
    {
    }
    IndexedWellFormed(Ipv6Entries);
  }

  lemma IndexedWellFormed(t: seq<Entry>)
    requires forall i | 0 <= i < |t| :: RowWellFormed(t[i])
    ensures WellFormed(t)
  {
    forall e | e in t
      ensures RowWellFormed(e)
    {
      var i :| 0 <= i < |t| && t[i] == e;
    }
  }

  lemma MapWellFormed(es: seq<Entry>)
    requires WellFormed(es)
    ensures WellFormed(FromEntries(es))
  {
    MapEntriesFromList(es);
  }

  /** The classification: the first row of the family's table whose block
      overlaps this network. */
  method PrintInfo(n: Network) returns (name: string)
    requires n.Valid()
    ensures FirstMatch(n, RegistryFor(n.address.version), name)
  {
    RegistriesWellFormed();
    name := Lookup(n, RegistryFor(n.address.version));
  }

  /** The repeated IPv4 key "192.0.0.0" is first listed at position 6, so
      its Map entry precedes the /32 rows listed after it. */
  lemma DuplicateKeyFirstIndex()
    ensures "192.0.0.0" in Keys(Ipv4Entries)
    ensures FirstIndex(Ipv4Entries, "192.0.0.0") == 6
  {
    var k := "192.0.0.0";
    forall t | 0 <= t < 6
      ensures Ipv4Entries[t].key != k
    {
    }
    FirstIndexAt(Ipv4Entries, 6, k);
  }

  lemma DuplicateKeyLastValue()
    ensures "192.0.0.0" in Keys(Ipv4Entries)
    ensures LastWith(Ipv4Entries, "192.0.0.0") ==
      Entry("192.0.0.0", Address(V4, 3221225472), 29, "IPv4 Service Continuity Prefix")
  {
    var k := "192.0.0.0";
    forall t | 7 < t < |Ipv4Entries|
      ensures Ipv4Entries[t].key != k
    {
    }
    LastWithAt(Ipv4Entries, 7, k);
  }

  /** The repeated IPv4 key "192.0.0.0": its Map entry holds the value of
      its second listing, /29. */
  lemma DuplicateKeyTakesLastValue()
    ensures forall e | e in RegistryFor(V4) && e.key == "192.0.0.0" ::
      e.prefix == 29 && e.name == "IPv4 Service Continuity Prefix"
  {
    DuplicateKeyLastValue();
    MapValueOfKey(Ipv4Entries, "192.0.0.0");
  }

  lemma TeredoKeyLastValue()
    ensures "2001::" in Keys(Ipv6Entries)
    ensures LastWith(Ipv6Entries, "2001::") ==
      Entry("2001::", Address(V6, 0x2001_0000_0000_0000_0000_0000_0000_0000), 32, "TEREDO")
  {
    var k := "2001::";
    forall t | 9 < t < |Ipv6Entries|
      ensures Ipv6Entries[t].key != k
    {
    }
    LastWithAt(Ipv6Entries, 9, k);
  }

  /** The repeated IPv6 key "2001::": its Map entry holds the value of its
      second listing, /32 "TEREDO", not /23. */
  lemma TeredoKeyTakesLastValue()
    ensures forall e | e in RegistryFor(V6) && e.key == "2001::" ::
      e.prefix == 32 && e.name == "TEREDO"
  {
    TeredoKeyLastValue();
    MapValueOfKey(Ipv6Entries, "2001::");
  }

  lemma UnspecifiedKeyLastValue()
    ensures "::" in Keys(Ipv6Entries)
    ensures LastWith(Ipv6Entries, "::") ==
      Entry("::", Address(V6, 0x0), 128, "Unspecified Address")
  {
    var k := "::";
    forall t | 3 < t < |Ipv6Entries|
      ensures Ipv6Entries[t].key != k
    {
    }
    LastWithAt(Ipv6Entries, 3, k);
  }

  /** The repeated IPv6 key "::" is listed twice with the same value, so its
      Map entry is the unspecified address /128. */
  lemma UnspecifiedKeyValue()
    ensures forall e | e in RegistryFor(V6) && e.key == "::" ::
      e.base.value == 0 && e.prefix == 128 && e.name == "Unspecified Address"
  {
    UnspecifiedKeyLastValue();
    MapValueOfKey(Ipv6Entries, "::");
  }
}
