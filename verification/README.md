# CIDR subnet arithmetic of `Network` (ip_calculator)

This project models the `Network` class of ip_calculator in Dafny and proves
properties of the model. A network is an address (family 4 or 6, plus an exact
integer value) together with a prefix length, as in the prefix-length notation
of section 3.1 of RFC 4632. The model covers:

- prefix validation;
- the mask, the network value and the broadcast value, computed with the
  same shifts, AND and OR as the class;
- the first and last usable hosts and the host range;
- the subnet size;
- the overlap test `contains`;
- `printInfo`: first-match classification over the special-purpose tables
  (the IANA registries of RFC 6890). The tables are kept as the JavaScript
  `Map`s the source builds from its listings.

Modules:

- `Results`: `Option` and `Result`. `Err` stands for a thrown error, or for an outcome the model leaves unspecified.
- `Bits`: powers of two, shifts, bitwise AND/OR on naturals, and the
  arithmetic lemmas about them.
- `Addresses`: the family maxima (2^32 − 1 and 2^128 − 1), `Version` and
  `Address`.
- `Networks`: the operations of the class.
- `NetworkProperties`: facts that relate several calls.
- `RegistryMap`: `new Map(entries)` and `map.set`. The Map is held as its
  entries in insertion order.
- `Registry`: the two tables, the lookup loop and `printInfo`.

Addresses arrive already converted to integers. The text parser and
printer, `src/ip.js`, are not part of this model. Registry keys are
therefore stored with the integer they denote, worked out by hand from the
key text.

## Model

| member | source | states |
|---|---|---|
| Addresses.MaxIsAllOnes | index.js:5-6 | each family maximum is 2^width − 1, an all-ones word |
| Networks.CheckPrefix | src/network.js:87-98 | accepts exactly 0 < prefix ≤ 32 (IPv4) or ≤ 128 (IPv6); returns the prefix unchanged, never clamped; anything else throws "Tips: Invalid prefix" |
| Networks.New | src/network.js:75-78 | the constructor succeeds iff the prefix is valid for the address's family, keeps the address and prefix, and otherwise throws the prefix error |
| Networks.Mask | src/network.js:119-126 | mask + 2^(width − prefix) = 2^width, i.e. mask = 2^width − 2^hostbits |
| NetworkProperties.MaskLeadingOnes | src/network.js:119-126 | bit i of the mask is set iff i ≥ width − prefix: prefix leading ones, then zeros |
| NetworkProperties.MaskMonotone | src/network.js:119-126 | a longer prefix's mask keeps every bit of a shorter prefix's mask; their AND is the shorter mask |
| Networks.NetworkValue | src/network.js:132-134 | address AND mask is the multiple of 2^hostbits at or just below the address: network ≤ value < network + 2^hostbits |
| NetworkProperties.NetworkIdempotent | src/network.js:132-134 | masking the network value again gives it back; the network of the network address is the same |
| NetworkProperties.BlockMembership | src/network.js:132-134 | a value lies in [network, broadcast] iff masking it gives the network value |
| Networks.Broadcast | src/network.js:160-166 | network OR (MAX − mask) equals network + 2^hostbits − 1, and address ≤ broadcast ≤ MAX |
| Networks.GetBroadcast | src/network.js:150-154 | a number exactly for IPv4, equal to network + 2^hostbits − 1; for IPv6 it is `None`, standing for the fixed text "IPv6 doesnt have broadcast address" |
| Networks.HostFirst | src/network.js:172-181 | the address itself above /30 (IPv4) or /126 (IPv6), otherwise network + 1; always inside the block, and below the broadcast when two host bits remain |
| Networks.HostLast | src/network.js:187-202 | corrected last host (see "## Findings"): the address at /32 and /128; an `Unspecified` outcome exactly at /31 and /127; otherwise broadcast − 1 (IPv4) or broadcast (IPv6); always inside the block |
| Networks.HostLastAsWritten | src/network.js:187-202 | as written, the BigInt prefix never `===` a Number, so the result is broadcast − 1 (IPv4) or broadcast (IPv6) at every prefix |
| NetworkProperties.HostLastAsWrittenSingleHost | src/network.js:188-198 | at IPv4 /32, as written, the last host is address − 1, below the network value; the intended last host is the address |
| NetworkProperties.HostLastAsWrittenExample | src/network.js:188-198 | for 10.0.0.1/32, as written the last host is 10.0.0.0; intended, 10.0.0.1 |
| NetworkProperties.HostLastAsWrittenPair | src/network.js:190-198 | at IPv4 /31, as written, the unspecified branch is never reached and the last host is the network value |
| NetworkProperties.HostRangeAsWrittenReversed | src/network.js:226-231 | as written, `hostRange` gives a reversed pair: last < first = address at IPv4 /32, and at IPv4 /31 for the block's upper (odd) address |
| Networks.HostRange | src/network.js:226-231 | corrected composition (see "## Findings"): the pair [first, last] of HostFirst and the corrected HostLast, defined exactly away from /31 and /127, with both ends inside the block |
| NetworkProperties.HostRangeOrdered | src/network.js:172-202 | for the corrected HostLast, with two or more host bits, IPv4 gives network < first ≤ last < broadcast and IPv6 gives network < first ≤ last = broadcast; at /32 and /128 the range is the address alone |
| Networks.Contains | src/network.js:211-220 | throws iff the other prefix is invalid for its family; otherwise true iff the two blocks share a value |
| Networks.OverlapWitness | src/network.js:215-219 | the two-sided "smaller or bigger" test is exactly interval intersection |
| NetworkProperties.ContainsSymmetric | src/network.js:211-220 | the overlap test gives the same answer whichever network asks |
| NetworkProperties.ContainsReflexive | src/network.js:211-220 | every network overlaps itself |
| NetworkProperties.ContainsNested | src/network.js:211-220 | two CIDR blocks overlap iff one lies inside the other |
| NetworkProperties.NestedWhenCoarser | src/network.js:211-220 | if the larger block overlaps the smaller one, the smaller one lies inside it |
| Networks.NetworkSize | src/network.js:237-241 | IPv6: broadcast − network + 1 addresses; IPv4: that count less two |
| NetworkProperties.NetworkSizeCountsHosts | src/network.js:237-241 | for IPv4 with two or more host bits, the size is last − first + 1 |
| NetworkProperties.NetworkSizeSmallV4 | src/network.js:237-241 | taken literally, the IPv4 size is 0 at /31 and −1 at /32 |
| NetworkProperties.Example192168114 | test/networkClass.test.js:4-16 | 192.168.114.42/24: mask 4294967040, network 192.168.114.0, broadcast .255, hosts .1 to .254, size 254 |
| Registry.RegistryFor | src/network.js:107 | the table for a family is its Map: each key of the listing (src/network.js:7-59) once, in the order of its first listing, holding its last listed value |
| RegistryMap.Insert | src/network.js:7-32 | `map.set`: a present key keeps its position and takes the new entry; a new key goes last; keys stay distinct |
| RegistryMap.FromEntries | src/network.js:7-32 | the Map built from a listing has distinct keys, exactly the listed keys |
| RegistryMap.FromEntriesLastValues | src/network.js:7-59 | each Map entry is the last listed entry with its key |
| RegistryMap.FromEntriesFirstOrder | src/network.js:7-59 | Map keys are in the order of their first listing |
| RegistryMap.MapEntriesFromList | src/network.js:7-59 | every Map entry is one of the listed entries |
| RegistryMap.MapValueOfKey | src/network.js:7-59 | the Map entry for a listed key is its last listing |
| Registry.DuplicateKeyFirstIndex | src/network.js:14-15 | the repeated key "192.0.0.0" is first listed at position 6 |
| Registry.DuplicateKeyTakesLastValue | src/network.js:14-15 | the Map entry for "192.0.0.0" is its second listing: /29 "IPv4 Service Continuity Prefix" |
| Registry.UnspecifiedKeyValue | src/network.js:38-39 | the Map entry for the twice-listed "::" is the unspecified address /128 |
| Registry.TeredoKeyTakesLastValue | src/network.js:44-45 | the Map entry for "2001::" is its second listing: /32 "TEREDO", not /23 |
| Registry.RegistriesWellFormed | src/network.js:7-59 | every row of both tables, and of the Maps built from them, has a valid address and prefix, so building its network never throws |
| Registry.Lookup | src/network.js:108-112 | the loop returns the name of the first row, in table order, whose block overlaps the network, or "UNKNOWN" when none does |
| Registry.PrintInfo | src/network.js:106-113 | classification is first match over the family's Map, with "UNKNOWN" when nothing matches |
| Registry.FirstMatchUnique | src/network.js:106-113 | the first-match condition determines a single name |
| Registry.LeastOverlap | src/network.js:108-111 | whenever some row overlaps, there is a first overlapping row |

## Left out

- Text parsing and rendering: src/ip.js defines no `toInteger` (only an empty `toLong`, src/ip.js:43), and `toDottedNotation` and `toCompressed` are empty stubs, so addresses and registry keys are integers here. For the same reason the textual results of `getNetwork`, `hostFirst` and `hostLast` are not modelled. Those functions are modelled as the integers they would render.
- The JavaScript Number/BigInt plumbing outside `hostLast` is not modelled; the model uses exact integers instead. Two problems are left out this way:
  - `IPv4MAX` is a float Number (index.js:5), and mixing it with BigInt in the mask would throw.
  - src/network.js imports `IPv6MAX`, but index.js exports `IPv6MAXbig`.
- Networks.HostLast: at /31 and /127 the source evaluates `this.toInteger + 1n`, adding `1n` to the member `toInteger` rather than to a call of it. With the `toInteger` method that line 133 assumes, `+` joins the method's text with "1"; with src/ip.js as it stands, `toInteger` is undefined and `undefined + 1n` throws a TypeError. Either way the result is not an address value, so the model gives that branch the outcome `Unspecified` and promises no value there; Networks.HostRange inherits it.
- Networks.CheckPrefix: only integer prefixes are modelled. Fractional, NaN and non-numeric prefixes are out of scope.
- Networks.Contains: the unused first parameter `thisIP` is dropped; the source reads this network's own values instead.
- Registry.PrintInfo: the IPv6 table's first row, '255.255.255.255', is kept as data and denotes an IPv4 address. Its block is compared numerically like every other row, and no cross-family meaning is attached to it.
- RegistryMap.Insert: Map keys are compared as key text. JavaScript compares the strings too.
- `getMask` is not defined in src/network.js, so it is not modelled.
- web/index.js (DOM event handling) and index.js (re-exports and constants) are not part of this model.
- The object-shape expectations in the tests (an `integer: 0` field, a prefix that is a Number in one test and a BigInt in the other) are not modelled.

## Findings

| source | as written | input that shows it | evidently intended | confidence | as-written member | corrected member |
|---|---|---|---|---|---|---|
| src/network.js:188-198 | the stored prefix is a BigInt (`BigInt(prefix)` in `_checkPrefix`), and `this.prefix === 32` compares it with a Number, so the test is always false; the same holds for 128, 31 and 127 | `new Network('10.0.0.1', 32).hostLast()` takes the IPv4 branch `broadcastToLong() - 1n` and gives 10.0.0.0, which is outside the one-address block; in consequence `hostRange()` (lines 226-231) gives the reversed pair [10.0.0.1, 10.0.0.0], and at /31 an odd address gets [a, a − 1] | the address itself at /32 and /128, as the branch structure and the doc comment show | not executed; high | NetworkProperties.HostLastAsWrittenSingleHost, NetworkProperties.HostRangeAsWrittenReversed | Networks.HostLast, Networks.HostRange |
